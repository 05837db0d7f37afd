/** The two passes of the assembler over a list of parsed lines. */
module Layout {
  import opened Machine
  import opened Isa

  datatype Mode = Rom | Ram

  /** `.rodata` is treated as `.data`. */
  datatype Section = Text | Data | Bss

  /** One value of a `.long`: a number, a label to be resolved later, or neither. */
  datatype LongValue = Number(v: int) | Address(e: LabelExpr) | Malformed

  /** A source line after tokenizing; `None` stands for a name or number the parser refused. */
  datatype Line =
    | Enter(section: Section)
    | Comm(name: Option<string>, size: nat, align: nat)
    | Align(n: nat)
    | Long(longs: seq<LongValue>)
    | Short(shorts: seq<Option<int>>)
    | Bytes(bytes: seq<Option<int>>)
    | Ascii(text: seq<byte>)
    | Zero(count: nat)
    | Label(label_: Option<string>, rest: Option<Source>)
    | Instruction(source: Source)
    | Ignored

  /** One word of the ROM image to come. */
  datatype Item = Raw(v: u32) | RawAddress(e: LabelExpr) | Code(w: u32) | Deferred(source: Source)

  const RAM_BASE: nat := 0x0400_0000
  /** Where `.bss` symbols live until the length of `.data` is known. */
  const BSS_BASE: nat := 0x0B55_0000
  const BSS_LIMIT: nat := 0x0B60_0000

  /** The variables of the first pass. */
  datatype Pass = Pass(section: Section, labels: Labels, items: seq<Item>, romAddress: nat, textStart: Option<nat>,
                       dataBytes: seq<byte>, dataOffset: nat, relocs: map<nat, LabelExpr>, bssOffset: nat,
                       pendingBytes: seq<byte>, errors: nat)

  function Zeros(n: nat): (z: seq<byte>)
    ensures |z| == n && forall i :: 0 <= i < n ==> z[i] == 0
  {
    seq(n, _ => 0)
  }

  /** How many bytes bring `offset` to a multiple of `unit`. */
  function Padding(offset: nat, unit: nat): (pad: nat)
    requires unit > 0
    ensures pad < unit && (offset % unit == 0 ==> pad == 0)
  {
    (unit - offset % unit) % unit
  }

  /** Bytes with zeros up to a whole number of words. */
  function Padded(bytes: seq<byte>): (r: seq<byte>)
    ensures bytes <= r && |r| % 4 == 0 && |r| < |bytes| + 4 && (|bytes| % 4 == 0 ==> r == bytes)
  {
    bytes + Zeros(Padding(|bytes|, 4))
  }

  function WordOf(b0: byte, b1: byte, b2: byte, b3: byte): u32 {
    b0 + b1 * 0x100 + b2 * 0x1_0000 + b3 * 0x100_0000
  }

  /** Byte `k` of a word, counting from the low end. */
  function ByteOf(w: u32, k: nat): byte
    requires k < 4
  {
    if k == 0 then w % 0x100
    else if k == 1 then w / 0x100 % 0x100
    else if k == 2 then w / 0x1_0000 % 0x100
    else w / 0x100_0000
  }

  function WordBytes(w: u32): (bs: seq<byte>)
    ensures |bs| == 4 && forall k :: 0 <= k < 4 ==> bs[k] == ByteOf(w, k)
  {
    [ByteOf(w, 0), ByteOf(w, 1), ByteOf(w, 2), ByteOf(w, 3)]
  }

  /** Note the first word emitted while in `.text`. */
  function MarkTextStart(p: Pass): Pass {
    if p.section.Text? && p.textStart.None? then p.(textStart := Some(p.romAddress)) else p
  }

  /** Append one item at the next ROM word. */
  function Emit(p: Pass, item: Item): Pass {
    var q := MarkTextStart(p);
    q.(items := q.items + [item], romAddress := q.romAddress + 1)
  }

  function EmitWords(p: Pass, bytes: seq<byte>): Pass
    requires |bytes| % 4 == 0
    decreases |bytes|
  {
    if bytes == [] then p
    else EmitWords(Emit(p, Raw(WordOf(bytes[0], bytes[1], bytes[2], bytes[3]))), bytes[4..])
  }

  /** Bytes collected so far, packed into words with zero padding. */
  function Flush(p: Pass): Pass {
    if p.pendingBytes == [] then p
    else EmitWords(p, Padded(p.pendingBytes)).(pendingBytes := [])
  }

  /** `n` zero words, without noting a text start. */
  function EmitZeros(p: Pass, n: nat): Pass {
    p.(items := p.items + seq(n, _ => Raw(0)), romAddress := p.romAddress + n)
  }

  /** Whether the current section goes straight into the ROM image. */
  predicate InRom(p: Pass, mode: Mode) { p.section.Text? || mode.Ram? }

  function AppendData(p: Pass, bytes: seq<byte>): Pass {
    p.(dataBytes := p.dataBytes + bytes, dataOffset := p.dataOffset + |bytes|)
  }

  function Max1(n: nat): nat { if n == 0 then 1 else n }

  function CommStep(p: Pass, mode: Mode, name: Option<string>, size: nat, align: nat): Pass {
    if name.None? || name.value in p.labels then p.(errors := p.errors + 1)
    else if mode.Rom? then
      var offset := p.bssOffset + Padding(p.bssOffset, Max1(align));
      p.(labels := p.labels[name.value := BSS_BASE + offset], bssOffset := offset + size)
    else
      var q := EmitZeros(p, Padding(p.romAddress, Max1(align / 4)));
      EmitZeros(q.(labels := q.labels[name.value := q.romAddress]), (size + 3) / 4)
  }

  function AlignStep(p: Pass, mode: Mode, n: nat): Pass {
    if InRom(p, mode) then
      var q := Flush(p);
      var pad := Padding(q.romAddress, Max1(Pow2(n) / 4));
      if pad == 0 then q else EmitZeros(MarkTextStart(q), pad)
    else if p.section.Data? then AppendData(p, Zeros(Padding(p.dataOffset, Pow2(n))))
    else p.(bssOffset := p.bssOffset + Padding(p.bssOffset, Pow2(n)))
  }

  function LongItem(v: LongValue): Item {
    match v
    case Number(n) => Raw(n % WORD)
    case Address(e) => RawAddress(e)
    case Malformed => Raw(0)
  }

  /** A `.long` in `.data`: aligned, a label recorded as a relocation of zero bytes. */
  function DataLong(p: Pass, v: LongValue): Pass {
    var q := AppendData(p, Zeros(Padding(p.dataOffset, 4)));
    match v
    case Address(e) => AppendData(q.(relocs := q.relocs[q.dataOffset := e]), Zeros(4))
    case _ => AppendData(q, WordBytes(LongItem(v).v))
  }

  function LongStep(p: Pass, mode: Mode, v: LongValue): Pass {
    var p0 := if v.Malformed? then p.(errors := p.errors + 1) else p;
    if InRom(p, mode) then Emit(Flush(p0), LongItem(v))
    else if p.section.Data? then DataLong(p0, v)
    else p0.(bssOffset := p0.bssOffset + Padding(p0.bssOffset, 4) + 4)
  }

  function LongSteps(p: Pass, mode: Mode, vs: seq<LongValue>): Pass
    decreases |vs|
  {
    if vs == [] then p else LongSteps(LongStep(p, mode, vs[0]), mode, vs[1..])
  }

  /** Bytes without alignment: to the data image, to the count of `.bss`, or to the bytes waiting for the ROM image. */
  function PutBytes(p: Pass, mode: Mode, bytes: seq<byte>): Pass {
    if InRom(p, mode) then p.(pendingBytes := p.pendingBytes + bytes)
    else if p.section.Data? then AppendData(p, bytes)
    else p.(bssOffset := p.bssOffset + |bytes|)
  }

  /** Room made for a `.short`, which only the two RAM sections align. */
  function ShortAligned(p: Pass, mode: Mode): Pass {
    if InRom(p, mode) then p
    else if p.section.Data? then AppendData(p, Zeros(Padding(p.dataOffset, 2)))
    else p.(bssOffset := p.bssOffset + Padding(p.bssOffset, 2))
  }

  function ShortStep(p: Pass, mode: Mode, v: Option<int>): Pass {
    var p0 := if v.None? then p.(errors := p.errors + 1) else p;
    var n := if v.Some? then v.value % 0x1_0000 else 0;
    PutBytes(ShortAligned(p0, mode), mode, [n % 0x100, n / 0x100])
  }

  function ShortSteps(p: Pass, mode: Mode, vs: seq<Option<int>>): Pass
    decreases |vs|
  {
    if vs == [] then p else ShortSteps(ShortStep(p, mode, vs[0]), mode, vs[1..])
  }

  function ByteStep(p: Pass, mode: Mode, v: Option<int>): Pass {
    if v.Some? then PutBytes(p, mode, [v.value % 0x100]) else PutBytes(p.(errors := p.errors + 1), mode, [0])
  }

  function ByteSteps(p: Pass, mode: Mode, vs: seq<Option<int>>): Pass
    decreases |vs|
  {
    if vs == [] then p else ByteSteps(ByteStep(p, mode, vs[0]), mode, vs[1..])
  }

  function InstructionStep(p: Pass, source: Source): Pass { Emit(Flush(p), Deferred(source)) }

  /** The address a label defined here gets. */
  function Here(p: Pass, mode: Mode): nat {
    if mode.Rom? && p.section.Data? then RAM_BASE + p.dataOffset
    else if mode.Rom? && p.section.Bss? then BSS_BASE + p.bssOffset
    else p.romAddress
  }

  /** A label definition; a bad or repeated name drops the rest of its line. */
  function LabelStep(p: Pass, mode: Mode, name: Option<string>, rest: Option<Source>): Pass {
    var q := Flush(p);
    if name.None? || name.value in q.labels then q.(errors := q.errors + 1)
    else
      var r := q.(labels := q.labels[name.value := Here(q, mode)]);
      if rest.Some? then InstructionStep(r, rest.value) else r
  }

  function Step(p: Pass, mode: Mode, line: Line): Pass {
    match line
    case Enter(s) => p.(section := s)
    case Comm(name, size, align) => CommStep(p, mode, name, size, align)
    case Align(n) => AlignStep(p, mode, n)
    case Long(vs) => LongSteps(p, mode, vs)
    case Short(vs) => ShortSteps(p, mode, vs)
    case Bytes(vs) => ByteSteps(p, mode, vs)
    case Ascii(text) => PutBytes(p, mode, text)
    case Zero(n) => PutBytes(p, mode, Zeros(n))
    case Label(name, rest) => LabelStep(p, mode, name, rest)
    case Instruction(source) => InstructionStep(p, source)
    case Ignored => p
  }

  function Start(): Pass { Pass(Text, map[], [], 0, None, [], 0, map[], 0, [], 0) }

  /** The variables after the lines, before the closing steps. */
  function Lines(mode: Mode, lines: seq<Line>): Pass {
    if lines == [] then Start() else Step(Lines(mode, Front(lines)), mode, Last(lines))
  }

  // ---------------------------------------------------------------------------
  // Closing the first pass
  // ---------------------------------------------------------------------------

  /** `.bss` symbols moved behind `.data`, once its length is known. */
  function FixBss(address: int, dataOffset: nat): int {
    if BSS_BASE <= address < BSS_LIMIT then RAM_BASE + (dataOffset + 3) / 4 * 4 + (address - BSS_BASE) else address
  }

  function FixLabels(labels: Labels, dataOffset: nat): (r: Labels)
    ensures r.Keys == labels.Keys && forall x :: x in labels ==> r[x] == FixBss(labels[x], dataOffset)
  {
    map x | x in labels :: FixBss(labels[x], dataOffset)
  }

  /** Word `i` of the data image: a relocation if one was recorded there, else its bytes. */
  function DataItem(bytes: seq<byte>, relocs: map<nat, LabelExpr>, i: nat): Item
    requires 4 * i + 4 <= |bytes|
  {
    if 4 * i in relocs then RawAddress(relocs[4 * i])
    else Raw(WordOf(bytes[4 * i], bytes[4 * i + 1], bytes[4 * i + 2], bytes[4 * i + 3]))
  }

  function DataItems(bytes: seq<byte>, relocs: map<nat, LabelExpr>): (r: seq<Item>)
    requires |bytes| % 4 == 0
    ensures |r| == |bytes| / 4
  {
    seq(|bytes| / 4, i requires 0 <= i < |bytes| / 4 => DataItem(bytes, relocs, i))
  }

  function LdiHigh(r: nat, imm: nat): Item
    requires r < 16 && imm < 0x1_0000
  {
    Code(BuildWord(4, Opcode(LDI), Operands(r, 0, imm)))
  }

  function AdiSilent(r: nat, imm: nat): Item
    requires r < 16 && imm < 0x1_0000
  {
    Code(BuildWord(4, Opcode(ADI), Operands(r, 0, imm)))
  }

  function LoadPair(r: nat, address: int): seq<Item>
    requires r < 16
  {
    [LdiHigh(r, HiLo(address).0), AdiSilent(r, HiLo(address).1)]
  }

  /** The load and store that copy data word `i`. */
  function CopyWord(i: nat): seq<Item> {
    [Code(BuildWord(2, Opcode(LOD), Operands(15, 2, 4 * i % 0x1_0000))),
     Code(BuildWord(2, Opcode(STR), Operands(1, 2, 4 * i % 0x1_0000)))]
  }

  function CopyWords(n: nat): (r: seq<Item>)
    ensures |r| == 2 * n
  {
    if n == 0 then [] else CopyWords(n - 1) + CopyWord(n - 1)
  }

  function MainLabel(): LabelExpr { LabelExpr("main", 0) }

  /** The jump that ends `.start`: to `main`, else to the first word of `.text`, else to address 0. */
  function JumpToMain(labels: Labels, textStart: Option<nat>): seq<Item> {
    (if "main" in labels then
       [Deferred(Source(H, LDI, [Reg(15), Hi(MainLabel())])), Deferred(Source(SLT, ADI, [Reg(15), Lo(MainLabel())]))]
     else LoadPair(15, if textStart.Some? then textStart.value else 0))
    + [Code(BuildWord(0, Opcode(JMP), Operands(0, 15, 0)))]
  }

  /** The `.start` routine for `n` data words stored from ROM word `from`. */
  function StartRoutine(labels: Labels, textStart: Option<nat>, from: nat, n: nat): seq<Item> {
    (if n > 0 then LoadPair(15, from) + [LdiHigh(1, 0x0400), AdiSilent(1, 0)] + CopyWords(n) else [])
    + JumpToMain(labels, textStart)
  }

  /** The data image, then the `.start` routine that copies it. */
  function Inject(p: Pass): Pass {
    var bytes := Padded(p.dataBytes);
    var data := DataItems(bytes, p.relocs);
    var start := p.romAddress + |data|;
    var labels := p.labels[".start" := start];
    p.(dataBytes := bytes, labels := labels, romAddress := start,
       items := p.items + data + StartRoutine(labels, p.textStart, p.romAddress, |data|),
       errors := if "main" !in labels && p.textStart.None? then p.errors + 1 else p.errors)
  }

  /** Close the pass: flush, place `.bss`, and in ROM mode inject what sets up RAM, if there is anything to set up. */
  function Close(p: Pass, mode: Mode): Pass {
    var q := Flush(p);
    if mode.Ram? then q
    else
      var r := q.(labels := FixLabels(q.labels, q.dataOffset));
      if r.dataBytes == [] && r.bssOffset == 0 then r else Inject(r)
  }

  function FirstPass(mode: Mode, lines: seq<Line>): Pass { Close(Lines(mode, lines), mode) }

  // ---------------------------------------------------------------------------
  // The second pass
  // ---------------------------------------------------------------------------

  /** The word an item becomes, if its labels and operands are in order. */
  function Resolved(item: Item, labels: Labels): Option<u32> {
    match item
    case Raw(v) => Some(v)
    case RawAddress(e) => (match Eval(e, labels) case Some(a) => Some(Physical(a)) case None => None)
    case Code(w) => Some(w)
    case Deferred(source) => EncodeSingle(source, labels)
  }

  function WordFor(item: Item, labels: Labels): u32 {
    match Resolved(item, labels) case Some(w) => w case None => 0
  }

  function SecondPass(items: seq<Item>, labels: Labels): (words: seq<u32>)
    ensures |words| == |items| && forall i :: 0 <= i < |items| ==> words[i] == WordFor(items[i], labels)
  {
    seq(|items|, i requires 0 <= i < |items| => WordFor(items[i], labels))
  }
}
