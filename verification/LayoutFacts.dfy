/** What the first pass keeps at every line, and where the second pass puts every item and byte. */
module LayoutFacts {
  import opened Machine
  import opened Isa
  import opened Layout

  /** Every recorded relocation is a whole word of the data image, zero until resolved. */
  ghost predicate RelocsSound(p: Pass) {
    forall k :: k in p.relocs ==> k % 4 == 0 && k + 4 <= |p.dataBytes| && forall j :: k <= j < k + 4 ==> p.dataBytes[j] == 0
  }

  /** The counters agree with the lists they count. */
  ghost predicate Counted(p: Pass) {
    p.romAddress == |p.items| && p.dataOffset == |p.dataBytes| && RelocsSound(p)
  }

  /** `q` only adds to what `p` holds, except for bytes still waiting for the image. */
  ghost predicate Grows(p: Pass, q: Pass) {
    && p.items <= q.items && p.dataBytes <= q.dataBytes
    && (forall x :: x in p.labels ==> x in q.labels && q.labels[x] == p.labels[x])
    && (forall k :: k in p.relocs ==> k in q.relocs && q.relocs[k] == p.relocs[k])
    && (forall k :: k in q.relocs && k !in p.relocs ==> |p.dataBytes| <= k)
  }

  ghost predicate Keeps(p: Pass, q: Pass) { Counted(p) ==> Counted(q) && Grows(p, q) }

  lemma KeepsTransitive(p: Pass, q: Pass, r: Pass)
    requires Keeps(p, q) && Keeps(q, r)
    ensures Keeps(p, r)
  {
  }

  lemma {:induction false} EmitWordsKeeps(p: Pass, bytes: seq<byte>)
    requires |bytes| % 4 == 0
    ensures Keeps(p, EmitWords(p, bytes))
    decreases |bytes|
  {
    if bytes != [] {
      var q := Emit(p, Raw(WordOf(bytes[0], bytes[1], bytes[2], bytes[3])));
      EmitWordsKeeps(q, bytes[4..]);
      KeepsTransitive(p, q, EmitWords(p, bytes));
    }
  }

  lemma FlushKeeps(p: Pass)
    ensures Keeps(p, Flush(p)) && Flush(p).pendingBytes == []
  {
    if p.pendingBytes != [] {
      EmitWordsKeeps(p, Padded(p.pendingBytes));
    }
  }

  lemma EmitKeeps(p: Pass, item: Item)
    ensures Keeps(p, Emit(Flush(p), item))
  {
    FlushKeeps(p);
    KeepsTransitive(p, Flush(p), Emit(Flush(p), item));
  }

  lemma AppendKeeps(p: Pass, bytes: seq<byte>)
    ensures Keeps(p, AppendData(p, bytes))
  {
  }

  lemma DataLongKeeps(p: Pass, v: LongValue)
    ensures Keeps(p, DataLong(p, v))
  {
    PaddingAligns(p.dataOffset, 4);
    var r := DataLong(p, v);
    if Counted(p) {
      assert p.dataBytes <= r.dataBytes;
      forall k | k in r.relocs ensures k % 4 == 0 && k + 4 <= |r.dataBytes| && forall j :: k <= j < k + 4 ==> r.dataBytes[j] == 0 {
      }
    }
  }

  lemma LongKeeps(p: Pass, mode: Mode, v: LongValue)
    ensures Keeps(p, LongStep(p, mode, v))
  {
    var p0 := if v.Malformed? then p.(errors := p.errors + 1) else p;
    if InRom(p, mode) {
      EmitKeeps(p0, LongItem(v));
    } else if p.section.Data? {
      DataLongKeeps(p0, v);
    }
  }

  lemma PaddingAligns(offset: nat, unit: nat)
    requires unit == 2 || unit == 4
    ensures (offset + Padding(offset, unit)) % unit == 0
  {
  }

  lemma {:induction false} LongsKeep(p: Pass, mode: Mode, vs: seq<LongValue>)
    ensures Keeps(p, LongSteps(p, mode, vs))
    decreases |vs|
  {
    if vs != [] {
      LongKeeps(p, mode, vs[0]);
      LongsKeep(LongStep(p, mode, vs[0]), mode, vs[1..]);
      KeepsTransitive(p, LongStep(p, mode, vs[0]), LongSteps(p, mode, vs));
    }
  }

  lemma PutKeeps(p: Pass, mode: Mode, bytes: seq<byte>)
    ensures Keeps(p, PutBytes(p, mode, bytes))
  {
    AppendKeeps(p, bytes);
  }

  lemma ShortAlignedKeeps(p: Pass, mode: Mode)
    ensures Keeps(p, ShortAligned(p, mode))
  {
    AppendKeeps(p, Zeros(Padding(p.dataOffset, 2)));
  }

  lemma ErrorKeeps(p: Pass)
    ensures Keeps(p, p.(errors := p.errors + 1))
  {
  }

  lemma ShortKeeps(p: Pass, mode: Mode, v: Option<int>)
    ensures Keeps(p, ShortStep(p, mode, v))
  {
    var p0 := if v.None? then p.(errors := p.errors + 1) else p;
    var n := if v.Some? then v.value % 0x1_0000 else 0;
    ErrorKeeps(p);
    ShortAlignedKeeps(p0, mode);
    PutKeeps(ShortAligned(p0, mode), mode, [n % 0x100, n / 0x100]);
    KeepsTransitive(p0, ShortAligned(p0, mode), ShortStep(p, mode, v));
    assert Keeps(p, p0);
    KeepsTransitive(p, p0, ShortStep(p, mode, v));
  }

  lemma {:induction false} ShortsKeep(p: Pass, mode: Mode, vs: seq<Option<int>>)
    ensures Keeps(p, ShortSteps(p, mode, vs))
    decreases |vs|
  {
    if vs != [] {
      ShortKeeps(p, mode, vs[0]);
      ShortsKeep(ShortStep(p, mode, vs[0]), mode, vs[1..]);
      KeepsTransitive(p, ShortStep(p, mode, vs[0]), ShortSteps(p, mode, vs));
    }
  }

  lemma {:induction false} BytesKeep(p: Pass, mode: Mode, vs: seq<Option<int>>)
    ensures Keeps(p, ByteSteps(p, mode, vs))
    decreases |vs|
  {
    if vs != [] {
      BytesKeep(ByteStep(p, mode, vs[0]), mode, vs[1..]);
      KeepsTransitive(p, ByteStep(p, mode, vs[0]), ByteSteps(p, mode, vs));
    }
  }

  lemma CommKeeps(p: Pass, mode: Mode, name: Option<string>, size: nat, align: nat)
    ensures Keeps(p, CommStep(p, mode, name, size, align))
  {
  }

  lemma AlignKeeps(p: Pass, mode: Mode, n: nat)
    ensures Keeps(p, AlignStep(p, mode, n))
  {
    if InRom(p, mode) {
      FlushKeeps(p);
      KeepsTransitive(p, Flush(p), AlignStep(p, mode, n));
    }
  }

  lemma LabelKeeps(p: Pass, mode: Mode, name: Option<string>, rest: Option<Source>)
    ensures Keeps(p, LabelStep(p, mode, name, rest))
  {
    FlushKeeps(p);
    var q := Flush(p);
    if name.Some? && name.value !in q.labels {
      var r := q.(labels := q.labels[name.value := Here(q, mode)]);
      KeepsTransitive(p, q, r);
      if rest.Some? {
        EmitKeeps(r, Deferred(rest.value));
        KeepsTransitive(p, r, InstructionStep(r, rest.value));
      }
    } else {
      KeepsTransitive(p, q, LabelStep(p, mode, name, rest));
    }
  }

  /** Every source line keeps the counters in step and only adds to the image, the data and the symbol table. */
  lemma StepKeeps(p: Pass, mode: Mode, line: Line)
    ensures Keeps(p, Step(p, mode, line))
  {
    match line
    case Enter(s) =>
    case Comm(name, size, align) => CommKeeps(p, mode, name, size, align);
    case Align(n) => AlignKeeps(p, mode, n);
    case Long(vs) => LongsKeep(p, mode, vs);
    case Short(vs) => ShortsKeep(p, mode, vs);
    case Bytes(vs) => BytesKeep(p, mode, vs);
    case Ascii(text) =>
    case Zero(n) =>
    case Label(name, rest) => LabelKeeps(p, mode, name, rest);
    case Instruction(source) => EmitKeeps(p, Deferred(source));
    case Ignored =>
  }

  /** At every line `romAddress` is the number of items, `dataOffset` the number of data bytes, and every label keeps its address. */
  lemma {:induction false} LinesCounted(mode: Mode, lines: seq<Line>, n: nat)
    requires n <= |lines|
    ensures Counted(Lines(mode, lines))
    ensures Counted(Lines(mode, lines[..n])) && Grows(Lines(mode, lines[..n]), Lines(mode, lines))
    decreases |lines|
  {
    if lines == [] {
      assert lines[..n] == [];
    } else {
      if n == |lines| {
        LinesCounted(mode, Front(lines), 0);
        assert lines[..n] == lines;
      } else {
        LinesCounted(mode, Front(lines), n);
        assert Front(lines)[..n] == lines[..n];
      }
      StepKeeps(Lines(mode, Front(lines)), mode, Last(lines));
    }
  }

  // ---------------------------------------------------------------------------
  // Every byte of the ROM image stays where it was counted
  // ---------------------------------------------------------------------------

  /** A byte of the image to come: known, or byte `k` of a word resolved later. */
  datatype Cell = Known(b: byte) | Of(item: Item, k: nat)

  function ItemCells(item: Item): (c: seq<Cell>)
    ensures |c| == 4
  {
    match item
    case Raw(v) => [Known(ByteOf(v, 0)), Known(ByteOf(v, 1)), Known(ByteOf(v, 2)), Known(ByteOf(v, 3))]
    case _ => [Of(item, 0), Of(item, 1), Of(item, 2), Of(item, 3)]
  }

  function Cells(items: seq<Item>): (c: seq<Cell>)
    ensures |c| == 4 * |items|
  {
    if items == [] then [] else Cells(Front(items)) + ItemCells(Last(items))
  }

  function Knowns(bytes: seq<byte>): (c: seq<Cell>)
    ensures |c| == |bytes| && forall i :: 0 <= i < |c| ==> c[i] == Known(bytes[i])
  {
    seq(|bytes|, i requires 0 <= i < |bytes| => Known(bytes[i]))
  }

  /** The bytes emitted so far: the words of the image, then the bytes waiting for it. Its length is the location counter. */
  function Image(p: Pass): (c: seq<Cell>)
    ensures |c| == 4 * |p.items| + |p.pendingBytes|
  {
    Cells(p.items) + Knowns(p.pendingBytes)
  }

  lemma {:induction false} CellsAppend(a: seq<Item>, b: seq<Item>)
    ensures Cells(a + b) == Cells(a) + Cells(b)
    decreases |b|
  {
    if b == [] {
      assert a + b == a;
    } else {
      CellsAppend(a, Front(b));
      assert Front(a + b) == a + Front(b) && Last(a + b) == Last(b);
    }
  }

  lemma WordRoundTrip(b0: byte, b1: byte, b2: byte, b3: byte)
    ensures WordBytes(WordOf(b0, b1, b2, b3)) == [b0, b1, b2, b3]
  {
    var w := WordOf(b0, b1, b2, b3);
    assert w / 0x100 == b1 + b2 * 0x100 + b3 * 0x1_0000;
    assert w / 0x1_0000 == b2 + b3 * 0x100;
    assert w / 0x100_0000 == b3;
  }

  lemma WordCells(bytes: seq<byte>)
    requires |bytes| == 4
    ensures ItemCells(Raw(WordOf(bytes[0], bytes[1], bytes[2], bytes[3]))) == Knowns(bytes)
  {
    var w := WordOf(bytes[0], bytes[1], bytes[2], bytes[3]);
    WordRoundTrip(bytes[0], bytes[1], bytes[2], bytes[3]);
    assert forall k :: 0 <= k < 4 ==> WordBytes(w)[k] == bytes[k];
  }

  lemma CellsOne(items: seq<Item>, item: Item)
    ensures Cells(items + [item]) == Cells(items) + ItemCells(item)
  {
    assert Front(items + [item]) == items;
  }

  /** Bytes packed into words, low byte first. */
  function Packed(bytes: seq<byte>): seq<Item>
    requires |bytes| % 4 == 0
    decreases |bytes|
  {
    if bytes == [] then [] else [Raw(WordOf(bytes[0], bytes[1], bytes[2], bytes[3]))] + Packed(bytes[4..])
  }

  lemma {:induction false} EmitWordsPacked(p: Pass, bytes: seq<byte>)
    requires |bytes| % 4 == 0
    ensures EmitWords(p, bytes).items == p.items + Packed(bytes)
    decreases |bytes|
  {
    if bytes != [] {
      var item := Raw(WordOf(bytes[0], bytes[1], bytes[2], bytes[3]));
      EmitWordsPacked(Emit(p, item), bytes[4..]);
      assert p.items + [item] + Packed(bytes[4..]) == p.items + ([item] + Packed(bytes[4..]));
    }
  }

  lemma {:induction false} PackedCells(bytes: seq<byte>)
    requires |bytes| % 4 == 0
    ensures Cells(Packed(bytes)) == Knowns(bytes)
    decreases |bytes|
  {
    if bytes != [] {
      var item := Raw(WordOf(bytes[0], bytes[1], bytes[2], bytes[3]));
      PackedCells(bytes[4..]);
      WordCells(bytes[..4]);
      CellsOne([], item);
      assert [] + [item] == [item];
      CellsAppend([item], Packed(bytes[4..]));
    }
  }

  lemma EmitWordsCells(p: Pass, bytes: seq<byte>)
    requires |bytes| % 4 == 0
    ensures Cells(EmitWords(p, bytes).items) == Cells(p.items) + Knowns(bytes)
  {
    EmitWordsPacked(p, bytes);
    PackedCells(bytes);
    CellsAppend(p.items, Packed(bytes));
  }

  /** Flushing turns waiting bytes into words in place, behind zero padding. */
  lemma FlushImage(p: Pass)
    ensures Flush(p).pendingBytes == []
    ensures p.pendingBytes == [] ==> Flush(p) == p
    ensures Image(Flush(p)) == Image(p) + Knowns(Zeros(Padding(|p.pendingBytes|, 4)))
  {
    var zeros := Zeros(Padding(|p.pendingBytes|, 4));
    if p.pendingBytes == [] {
      assert zeros == [];
    } else {
      EmitWordsCells(p, p.pendingBytes + zeros);
      assert Knowns(p.pendingBytes + zeros) == Knowns(p.pendingBytes) + Knowns(zeros);
    }
  }

  lemma EmitImage(p: Pass, item: Item)
    requires p.pendingBytes == []
    ensures Image(Emit(p, item)) == Image(p) + ItemCells(item)
  {
    assert Front(p.items + [item]) == p.items;
  }

  lemma {:induction false} ZeroCells(n: nat)
    ensures Cells(seq(n, _ => Raw(0))) == Knowns(Zeros(4 * n))
  {
    if n > 0 {
      ZeroCells(n - 1);
      assert Front(seq(n, _ => Raw(0))) == seq(n - 1, _ => Raw(0));
    }
  }

  lemma EmitZerosImage(p: Pass, n: nat)
    ensures Cells(EmitZeros(p, n).items) == Cells(p.items) + Knowns(Zeros(4 * n))
  {
    CellsAppend(p.items, seq(n, _ => Raw(0)));
    ZeroCells(n);
  }

  lemma FlushEmitImage(p: Pass, item: Item)
    ensures Image(p) <= Image(Emit(Flush(p), item))
  {
    FlushImage(p);
    EmitImage(Flush(p), item);
  }

  lemma LongImage(p: Pass, mode: Mode, v: LongValue)
    ensures Image(p) <= Image(LongStep(p, mode, v))
  {
    if InRom(p, mode) {
      var p0 := if v.Malformed? then p.(errors := p.errors + 1) else p;
      assert Image(p0) == Image(p);
      FlushEmitImage(p0, LongItem(v));
      assert LongStep(p, mode, v) == Emit(Flush(p0), LongItem(v));
    } else {
      LongElsewhere(p, mode, v);
    }
  }

  lemma LongElsewhere(p: Pass, mode: Mode, v: LongValue)
    requires !InRom(p, mode)
    ensures LongStep(p, mode, v).items == p.items && LongStep(p, mode, v).pendingBytes == p.pendingBytes
  {
  }

  lemma {:induction false} LongsImage(p: Pass, mode: Mode, vs: seq<LongValue>)
    ensures Image(p) <= Image(LongSteps(p, mode, vs))
    decreases |vs|
  {
    if vs != [] {
      LongImage(p, mode, vs[0]);
      LongsImage(LongStep(p, mode, vs[0]), mode, vs[1..]);
    }
  }

  lemma PutImage(p: Pass, mode: Mode, bytes: seq<byte>)
    ensures Image(PutBytes(p, mode, bytes)) == if InRom(p, mode) then Image(p) + Knowns(bytes) else Image(p)
  {
    if InRom(p, mode) {
      assert Knowns(p.pendingBytes + bytes) == Knowns(p.pendingBytes) + Knowns(bytes);
    }
  }

  lemma ErrorImage(p: Pass)
    ensures Image(p.(errors := p.errors + 1)) == Image(p)
  {
  }

  lemma ShortAlignedImage(p: Pass, mode: Mode)
    ensures Image(ShortAligned(p, mode)) == Image(p)
  {
  }

  lemma ShortImage(p: Pass, mode: Mode, v: Option<int>)
    ensures Image(p) <= Image(ShortStep(p, mode, v))
  {
    var p0 := if v.None? then p.(errors := p.errors + 1) else p;
    var n := if v.Some? then v.value % 0x1_0000 else 0;
    var q := ShortAligned(p0, mode);
    ErrorImage(p);
    ShortAlignedImage(p0, mode);
    PutImage(q, mode, [n % 0x100, n / 0x100]);
    assert ShortStep(p, mode, v) == PutBytes(q, mode, [n % 0x100, n / 0x100]);
  }

  lemma {:induction false} ShortsImage(p: Pass, mode: Mode, vs: seq<Option<int>>)
    ensures Image(p) <= Image(ShortSteps(p, mode, vs))
    decreases |vs|
  {
    if vs != [] {
      ShortImage(p, mode, vs[0]);
      ShortsImage(ShortStep(p, mode, vs[0]), mode, vs[1..]);
    }
  }

  lemma {:induction false} BytesImage(p: Pass, mode: Mode, vs: seq<Option<int>>)
    ensures Image(p) <= Image(ByteSteps(p, mode, vs))
    decreases |vs|
  {
    if vs != [] {
      PutImage(p, mode, [if vs[0].Some? then vs[0].value % 0x100 else 0]);
      BytesImage(ByteStep(p, mode, vs[0]), mode, vs[1..]);
    }
  }

  /** The words a `.comm` puts into the image: only in RAM mode, which keeps `.bss` there. */
  function CommWords(p: Pass, mode: Mode, line: Line): nat {
    if line.Comm? && mode.Ram? && line.name.Some? && line.name.value !in p.labels then
      Padding(p.romAddress, Max1(line.align / 4)) + (line.size + 3) / 4
    else 0
  }

  /** A `.comm` that emits words while bytes, not all zero, are still waiting. */
  predicate Displaces(p: Pass, mode: Mode, line: Line) {
    CommWords(p, mode, line) > 0 && exists i :: 0 <= i < |p.pendingBytes| && p.pendingBytes[i] != 0
  }

  lemma CommImage(p: Pass, mode: Mode, line: Line)
    requires line.Comm?
    ensures Image(Step(p, mode, line)) == Cells(p.items) + Knowns(Zeros(4 * CommWords(p, mode, line))) + Knowns(p.pendingBytes)
  {
    var q := Step(p, mode, line);
    var n := CommWords(p, mode, line);
    assert q.pendingBytes == p.pendingBytes;
    if mode.Ram? && line.name.Some? && line.name.value !in p.labels {
      var pad, words := Padding(p.romAddress, Max1(line.align / 4)), (line.size + 3) / 4;
      assert seq(pad, _ => Raw(0)) + seq(words, _ => Raw(0)) == seq(n, _ => Raw(0));
      assert q.items == p.items + seq(n, _ => Raw(0));
      EmitZerosImage(p, n);
    } else {
      assert q.items == p.items && Zeros(0) == [];
    }
  }

  /** Zeros inserted in front of waiting bytes leave them in place only if those bytes are all zero. */
  lemma InsertedZeros(head: seq<Cell>, n: nat, bytes: seq<byte>)
    requires n > 0
    ensures head + Knowns(bytes) <= head + Knowns(Zeros(n)) + Knowns(bytes)
       <==> forall i :: 0 <= i < |bytes| ==> bytes[i] == 0
  {
    var a, b := head + Knowns(bytes), head + Knowns(Zeros(n)) + Knowns(bytes);
    if a <= b {
      forall i | 0 <= i < |bytes| ensures bytes[i] == 0 {
        PrefixZero(head, n, bytes, i);
      }
    }
  }

  lemma {:induction false} PrefixZero(head: seq<Cell>, n: nat, bytes: seq<byte>, i: nat)
    requires n > 0 && i < |bytes|
    requires head + Knowns(bytes) <= head + Knowns(Zeros(n)) + Knowns(bytes)
    ensures bytes[i] == 0
    decreases i
  {
    var a, b := head + Knowns(bytes), head + Knowns(Zeros(n)) + Knowns(bytes);
    assert a[|head| + i] == b[|head| + i];
    assert a[|head| + i] == Known(bytes[i]);
    if i >= n {
      PrefixZero(head, n, bytes, i - n);
      assert b[|head| + i] == Known(bytes[i - n]);
    } else {
      assert b[|head| + i] == Known(0);
    }
  }

  lemma CommStays(p: Pass, mode: Mode, line: Line)
    requires line.Comm?
    ensures Image(p) <= Image(Step(p, mode, line)) <==> !Displaces(p, mode, line)
  {
    CommImage(p, mode, line);
    if CommWords(p, mode, line) > 0 {
      InsertedZeros(Cells(p.items), 4 * CommWords(p, mode, line), p.pendingBytes);
    } else {
      assert Zeros(0) == [];
    }
  }

  /** In RAM mode, one byte of data and then four bytes of `.comm`: the byte is no longer where it was counted. */
  lemma CommDisplaces(name: string)
    ensures var lines := [Enter(Data), Bytes([Some(1)])];
      var line := Comm(Some(name), 4, 4);
      && Displaces(Lines(Ram, lines), Ram, line)
      && !(Image(Lines(Ram, lines)) <= Image(Lines(Ram, lines + [line])))
  {
    var lines := [Enter(Data), Bytes([Some(1)])];
    var line := Comm(Some(name), 4, 4);
    assert Front(lines + [line]) == lines && Last(lines + [line]) == line;
    OneByte(Ram);
    var p := Lines(Ram, lines);
    assert CommWords(p, Ram, line) == 1 && p.pendingBytes[0] == 1;
    CommStays(p, Ram, line);
  }

  /** A line leaves every byte emitted so far at its place exactly when it is not a `.comm` pushing waiting bytes away. */
  lemma StepImage(p: Pass, mode: Mode, line: Line)
    ensures Image(p) <= Image(Step(p, mode, line)) <==> !Displaces(p, mode, line)
  {
    match line
    case Enter(s) =>
    case Comm(name, size, align) =>
      CommStays(p, mode, line);
    case Align(n) =>
      if InRom(p, mode) { AlignImage(p, mode, n); }
    case Long(vs) => LongsImage(p, mode, vs);
    case Short(vs) => ShortsImage(p, mode, vs);
    case Bytes(vs) => BytesImage(p, mode, vs);
    case Ascii(text) => PutImage(p, mode, text);
    case Zero(n) => PutImage(p, mode, Zeros(n));
    case Label(name, rest) => LabelImage(p, mode, name, rest);
    case Instruction(source) => InstructionImage(p, source);
    case Ignored =>
  }

  lemma InstructionImage(p: Pass, source: Source)
    ensures Image(p) <= Image(InstructionStep(p, source))
  {
    FlushEmitImage(p, Deferred(source));
  }

  lemma AlignImage(p: Pass, mode: Mode, n: nat)
    requires InRom(p, mode)
    ensures Image(p) <= Image(AlignStep(p, mode, n))
  {
    FlushImage(p);
    var q := Flush(p);
    var pad := Padding(q.romAddress, Max1(Pow2(n) / 4));
    if pad > 0 {
      PaddedImage(MarkTextStart(q), pad);
    } else {
      assert AlignStep(p, mode, n) == q;
    }
  }

  lemma PaddedImage(p: Pass, n: nat)
    requires p.pendingBytes == []
    ensures Image(EmitZeros(p, n)) == Image(p) + Knowns(Zeros(4 * n))
  {
    EmitZerosImage(p, n);
    assert Knowns([]) == [];
  }

  lemma LabelImage(p: Pass, mode: Mode, name: Option<string>, rest: Option<Source>)
    ensures Image(p) <= Image(LabelStep(p, mode, name, rest))
  {
    FlushImage(p);
    var q := Flush(p);
    if name.Some? && name.value !in q.labels && rest.Some? {
      var r := q.(labels := q.labels[name.value := Here(q, mode)]);
      assert Image(r) == Image(q);
      InstructionImage(r, rest.value);
    } else {
      assert Image(LabelStep(p, mode, name, rest)) == Image(q);
    }
  }

  /** A label names the place of whatever is emitted next: the location counter, in words, when that goes to the image. */
  lemma LabelNamesNext(p: Pass, mode: Mode, name: string)
    requires Counted(p) && name !in p.labels
    ensures var q := LabelStep(p, mode, Some(name), None);
      && name in q.labels && |Image(q)| % 4 == 0
      && q.labels[name] == (if InRom(p, mode) then |Image(q)| / 4
                            else if p.section.Data? then RAM_BASE + |q.dataBytes| else BSS_BASE + q.bssOffset)
  {
    FlushImage(p);
    FlushKeeps(p);
    FlushSame(p);
  }

  /** A label in front of a `.long` in `.data` names its value exactly when the value needs no padding. */
  lemma LabelNamesLongIff(p: Pass, name: string, v: LongValue)
    requires Counted(p) && p.section.Data? && name !in p.labels
    ensures var r := LongStep(LabelStep(p, Rom, Some(name), None), Rom, v);
      && name in r.labels && |r.dataBytes| >= 4
      && (r.labels[name] == RAM_BASE + |r.dataBytes| - 4 <==> |p.dataBytes| % 4 == 0)
  {
    LabelNamesNext(p, Rom, name);
    FlushSame(p);
    PaddingAligns(|p.dataBytes|, 4);
  }

  /** One byte, a label, a `.long`: the label ends on the padding, three bytes in front of the value. */
  lemma LabelNamesPadding(name: string)
    ensures var p := Lines(Rom, [Enter(Data), Bytes([Some(1)]), Label(Some(name), None), Long([Number(7)])]);
      name in p.labels && p.labels[name] == RAM_BASE + 1 && p.dataBytes == [1, 0, 0, 0, 7, 0, 0, 0]
  {
    var c := [Enter(Data), Bytes([Some(1)]), Label(Some(name), None)];
    var d := c + [Long([Number(7)])];
    assert d == [Enter(Data), Bytes([Some(1)]), Label(Some(name), None), Long([Number(7)])];
    assert Front(d) == c && Last(d) == Long([Number(7)]);
    OneLabel(name);
    assert Lines(Rom, d) == LongSteps(Lines(Rom, c), Rom, [Number(7)]);
    OneLong(Lines(Rom, c));
  }

  lemma OneLabel(name: string)
    ensures Lines(Rom, [Enter(Data), Bytes([Some(1)]), Label(Some(name), None)]) ==
      Start().(section := Data, dataBytes := [1], dataOffset := 1, labels := map[name := RAM_BASE + 1])
  {
    var c := [Enter(Data), Bytes([Some(1)]), Label(Some(name), None)];
    assert Front(c) == [Enter(Data), Bytes([Some(1)])];
    OneByte(Rom);
    var p := Start().(section := Data, dataBytes := [1], dataOffset := 1);
    assert LabelStep(p, Rom, Some(name), None) == p.(labels := map[name := RAM_BASE + 1]);
  }

  /** The lines `.data` and `.byte 1`. */
  lemma OneByte(mode: Mode)
    ensures Lines(mode, [Enter(Data), Bytes([Some(1)])]) ==
      if mode.Rom? then Start().(section := Data, dataBytes := [1], dataOffset := 1)
      else Start().(section := Data, pendingBytes := [1])
  {
    var lines := [Enter(Data), Bytes([Some(1)])];
    assert Front(lines) == [Enter(Data)] && Front([Enter(Data)]) == [];
    assert [Some(1)][1..] == [];
    var p := Start().(section := Data);
    assert ByteSteps(p, mode, [Some(1)]) == ByteStep(p, mode, Some(1));
  }

  lemma OneLong(q: Pass)
    requires q.section.Data? && q.dataBytes == [1] && q.dataOffset == 1
    ensures var r := LongSteps(q, Rom, [Number(7)]);
      r.labels == q.labels && r.dataBytes == [1, 0, 0, 0, 7, 0, 0, 0]
  {
    assert [Number(7)][1..] == [];
    assert LongSteps(q, Rom, [Number(7)]) == LongStep(q, Rom, Number(7)) == DataLong(q, Number(7));
    assert Zeros(Padding(1, 4)) == [0, 0, 0];
    assert WordBytes(7) == [7, 0, 0, 0];
  }

  lemma {:induction false} EmitWordsSame(p: Pass, bytes: seq<byte>)
    requires |bytes| % 4 == 0
    ensures var q := EmitWords(p, bytes);
      q == p.(items := q.items, romAddress := q.romAddress, textStart := q.textStart)
    decreases |bytes|
  {
    if bytes != [] {
      EmitWordsSame(Emit(p, Raw(WordOf(bytes[0], bytes[1], bytes[2], bytes[3]))), bytes[4..]);
    }
  }

  lemma FlushSame(p: Pass)
    ensures var q := Flush(p);
      q == p.(items := q.items, romAddress := q.romAddress, textStart := q.textStart, pendingBytes := [])
  {
    if p.pendingBytes != [] {
      EmitWordsSame(p, Padded(p.pendingBytes));
    }
  }

  /** No line from `n` on pushes waiting bytes away. */
  ghost predicate NoneDisplaced(mode: Mode, lines: seq<Line>, n: nat) {
    forall i :: n <= i < |lines| ==> !Displaces(Lines(mode, lines[..i]), mode, lines[i])
  }

  /** What was emitted before line `n` is still at its place after the last line. */
  lemma {:induction false} ImageStays(mode: Mode, lines: seq<Line>, n: nat)
    requires n <= |lines| && NoneDisplaced(mode, lines, n)
    ensures Image(Lines(mode, lines[..n])) <= Image(Lines(mode, lines))
    decreases |lines|
  {
    if n == |lines| {
      assert lines[..n] == lines;
    } else {
      var front := Front(lines);
      assert forall i :: 0 <= i <= |front| ==> front[..i] == lines[..i];
      ImageStays(mode, front, n);
      assert lines[..|lines| - 1] == front;
      StepImage(Lines(mode, front), mode, Last(lines));
    }
  }

  /** The value of an image byte once labels are known. */
  function CellValue(c: Cell, labels: Labels): byte {
    match c
    case Known(b) => b
    case Of(item, k) => if k < 4 then ByteOf(WordFor(item, labels), k) else 0
  }

  /** The second pass puts byte `k` of the image into byte `k mod 4` of word `k / 4`. */
  lemma {:induction false} SecondPassPlaces(items: seq<Item>, labels: Labels, k: nat)
    requires k < 4 * |items|
    ensures ByteOf(SecondPass(items, labels)[k / 4], k % 4) == CellValue(Cells(items)[k], labels)
    decreases |items|
  {
    if k < 4 * (|items| - 1) {
      SecondPassPlaces(Front(items), labels, k);
      assert SecondPass(Front(items), labels)[k / 4] == SecondPass(items, labels)[k / 4];
    } else {
      assert k / 4 == |items| - 1;
      assert Cells(items)[k] == ItemCells(Last(items))[k % 4];
    }
  }

  lemma CloseItems(p: Pass, mode: Mode)
    ensures Flush(p).items <= Close(p, mode).items
  {
  }

  /** Closing the pass only appends whole words. */
  lemma CloseAppends(p: Pass, mode: Mode)
    ensures Image(p) <= Cells(Close(p, mode).items)
  {
    FlushImage(p);
    CloseItems(p, mode);
    CellsPrefix(Flush(p).items, Close(p, mode).items);
    assert Knowns([]) == [];
    assert Image(Flush(p)) == Cells(Flush(p).items);
  }

  lemma CellsPrefix(a: seq<Item>, b: seq<Item>)
    requires a <= b
    ensures Cells(a) <= Cells(b)
  {
    assert b == a + b[|a|..];
    CellsAppend(a, b[|a|..]);
  }

  /** Every byte emitted before line `n` is in the final image at the location it was counted at, in either mode. */
  lemma BytesPlaced(mode: Mode, lines: seq<Line>, n: nat, k: nat)
    requires n <= |lines| && NoneDisplaced(mode, lines, n) && k < |Image(Lines(mode, lines[..n]))|
    ensures var p := FirstPass(mode, lines);
      k / 4 < |p.items| &&
      ByteOf(SecondPass(p.items, p.labels)[k / 4], k % 4) == CellValue(Image(Lines(mode, lines[..n]))[k], p.labels)
  {
    var p := FirstPass(mode, lines);
    ImageStays(mode, lines, n);
    CloseAppends(Lines(mode, lines), mode);
    SecondPassPlaces(p.items, p.labels, k);
  }
}
