/** From a source program to a running machine: reset, `.start`, `main`. */
module BootProof {
  import opened Machine
  import opened Isa
  import opened Layout
  import opened LayoutFacts
  import opened Boot

  // ---------------------------------------------------------------------------
  // The words of `.start` decode to the code that was run
  // ---------------------------------------------------------------------------

  ghost predicate Codes(items: seq<Item>, code: seq<Instr>, labels: Labels) {
    |items| == |code| && forall k :: 0 <= k < |items| ==> Decode(WordFor(items[k], labels)) == Some(code[k])
  }

  lemma CodesThen(a: seq<Item>, x: seq<Instr>, b: seq<Item>, y: seq<Instr>, labels: Labels)
    requires Codes(a, x, labels) && Codes(b, y, labels)
    ensures Codes(a + b, x + y, labels)
  {
  }

  lemma PairCodes(r: nat, address: int, labels: Labels)
    requires r < 16
    ensures Codes(LoadPair(r, address), PairCode(r, address), labels)
  {
    WordFields(4, 12, r, 0, HiLo(address).0);
    WordFields(4, 13, r, 0, HiLo(address).1);
  }

  lemma CopyWordCodes(i: nat, labels: Labels)
    ensures Codes(CopyWord(i), [Load(Word32, 15, 2, 4 * i % 0x1_0000), Store(Word32, 1, 2, 4 * i % 0x1_0000)], labels)
  {
    WordFields(2, 18, 15, 2, 4 * i % 0x1_0000);
    WordFields(2, 19, 1, 2, 4 * i % 0x1_0000);
  }

  lemma {:induction false} CopyCodes(n: nat, labels: Labels)
    ensures Codes(CopyWords(n), CopyCode(n), labels)
  {
    if n > 0 {
      CopyCodes(n - 1, labels);
      CopyWordCodes(n - 1, labels);
      CodesThen(CopyWords(n - 1), CopyCode(n - 1), CopyWord(n - 1),
                [Load(Word32, 15, 2, 4 * (n - 1) % 0x1_0000), Store(Word32, 1, 2, 4 * (n - 1) % 0x1_0000)], labels);
    }
  }

  /** Where `.start` jumps. */
  function Entry(labels: Labels, textStart: Option<nat>): int {
    if "main" in labels then labels["main"] else if textStart.Some? then textStart.value else 0
  }

  lemma MainPairWords(labels: Labels)
    requires "main" in labels
    ensures EncodeSingle(Source(H, LDI, [Reg(15), Hi(MainLabel())]), labels)
         == Some(BuildWord(4, 12, Operands(15, 0, HiLo(labels["main"]).0)))
    ensures EncodeSingle(Source(SLT, ADI, [Reg(15), Lo(MainLabel())]), labels)
         == Some(BuildWord(4, 13, Operands(15, 0, HiLo(labels["main"]).1)))
  {
    assert Eval(MainLabel(), labels) == Some(labels["main"]);
  }

  lemma JumpCodes(labels: Labels, textStart: Option<nat>)
    ensures Codes(JumpToMain(labels, textStart), JumpCode(Entry(labels, textStart)), labels)
  {
    var e := Entry(labels, textStart);
    var jump := [Code(BuildWord(0, Opcode(JMP), Operands(0, 15, 0)))];
    WordFields(0, 14, 0, 15, 0);
    assert Codes(jump, [Jump(false, 15)], labels);
    PairCodes(15, e, labels);
    if "main" in labels {
      MainPairWords(labels);
      var pair := [Deferred(Source(H, LDI, [Reg(15), Hi(MainLabel())])), Deferred(Source(SLT, ADI, [Reg(15), Lo(MainLabel())]))];
      forall k | 0 <= k < 2 ensures WordFor(pair[k], labels) == WordFor(LoadPair(15, e)[k], labels) { }
      CodesThen(pair, PairCode(15, e), jump, [Jump(false, 15)], labels);
    } else {
      CodesThen(LoadPair(15, e), PairCode(15, e), jump, [Jump(false, 15)], labels);
    }
  }

  lemma StartCodes(labels: Labels, textStart: Option<nat>, from: nat, n: nat)
    ensures Codes(StartRoutine(labels, textStart, from, n), StartCode(Entry(labels, textStart), from, n), labels)
  {
    JumpCodes(labels, textStart);
    if n > 0 {
      PairCodes(15, from, labels);
      PairCodes(1, RAM_BASE, labels);
      CopyCodes(n, labels);
      assert HiLo(RAM_BASE) == (0x0400, 0);
      var a := LoadPair(15, from);
      var b := [LdiHigh(1, 0x0400), AdiSilent(1, 0)];
      assert b == LoadPair(1, RAM_BASE);
      CodesThen(a, PairCode(15, from), b, PairCode(1, RAM_BASE), labels);
      CodesThen(a + b, PairCode(15, from) + PairCode(1, RAM_BASE), CopyWords(n), CopyCode(n), labels);
      CodesThen(a + b + CopyWords(n), PairCode(15, from) + PairCode(1, RAM_BASE) + CopyCode(n),
                JumpToMain(labels, textStart), JumpCode(Entry(labels, textStart)), labels);
    } else {
      assert StartRoutine(labels, textStart, from, n) == JumpToMain(labels, textStart);
      assert StartCode(Entry(labels, textStart), from, n) == JumpCode(Entry(labels, textStart));
    }
  }

  // ---------------------------------------------------------------------------
  // The image in ROM
  // ---------------------------------------------------------------------------

  /** The processor starts at the last four words of ROM. */
  const RESET: u32 := 0xFFFF_FFF0

  /** The reset vector: the same address pair and jump as ends `.start`, and a NOP. */
  function ResetItems(target: int): seq<Item> {
    LoadPair(15, target) + [Code(BuildWord(0, Opcode(JMP), Operands(0, 15, 0)))] + [Code(BuildWord(0, Opcode(NOP), 0))]
  }

  ghost predicate Decodes(decode: Decoder) { forall w: u32 :: decode(w) == Decode(w) }

  /** A machine out of reset whose ROM holds the assembled words and the reset vector; RAM is arbitrary. */
  ghost predicate PoweredUp(c: Cpu, p: Pass) {
    var words := SecondPass(p.items, p.labels);
    && c.Wf() && Decodes(c.decode) && c.pc == RESET && |words| <= 0x3_FFFC
    && (forall k :: 0 <= k < |words| ==> c.mem(ROM_BASE + 4 * k) == words[k])
    && ".start" in p.labels && (forall k :: 0 <= k < 4 ==> c.mem(RESET + 4 * k) == WordFor(ResetItems(p.labels[".start"])[k], p.labels))
  }

  /** A program that leaves something to set up in RAM, so that `.start` exists. */
  predicate NeedsStart(lines: seq<Line>) {
    var p := Lines(Rom, lines);
    p.dataBytes != [] || p.bssOffset > 0
  }

  function DataWords(p: Pass): nat { |p.dataBytes| / 4 }

  /** How closing lays out the image: program, data words, `.start`. */
  lemma CloseLayout(lines: seq<Line>)
    requires NeedsStart(lines)
    ensures var q, p := Flush(Lines(Rom, lines)), FirstPass(Rom, lines);
      var (from, n) := (|q.items|, DataWords(p));
      && |p.dataBytes| % 4 == 0 && q.dataBytes <= p.dataBytes && |p.dataBytes| < |q.dataBytes| + 4
      && (forall i :: |q.dataBytes| <= i < |p.dataBytes| ==> p.dataBytes[i] == 0) && p.relocs == q.relocs && p.textStart == q.textStart
      && p.items == q.items + DataItems(p.dataBytes, p.relocs) + StartRoutine(p.labels, p.textStart, from, n)
      && ".start" in p.labels && p.labels[".start"] == from + n
  {
    LinesCounted(Rom, lines, 0);
    FlushKeeps(Lines(Rom, lines));
    FlushSame(Lines(Rom, lines));
  }

  lemma ResetHolds(c: Cpu, p: Pass)
    requires PoweredUp(c, p)
    ensures Holds(c.decode, c.mem, RESET, JumpCode(p.labels[".start"]))
  {
    var target := p.labels[".start"];
    var jump := [Code(BuildWord(0, Opcode(JMP), Operands(0, 15, 0)))];
    var items := LoadPair(15, target) + jump;
    PairCodes(15, target, p.labels);
    DecodeJump(p.labels);
    CodesThen(LoadPair(15, target), PairCode(15, target), jump, [Jump(false, 15)], p.labels);
    forall k | 0 <= k < 3 ensures c.decode(c.mem(RESET + 4 * k)) == Some(JumpCode(target)[k]) {
      assert ResetItems(target)[k] == items[k];
    }
  }

  lemma DecodeJump(labels: Labels)
    ensures Codes([Code(BuildWord(0, Opcode(JMP), Operands(0, 15, 0)))], [Jump(false, 15)], labels)
  {
    WordFields(0, 14, 0, 15, 0);
  }

  /** Reset reaches `.start`. */
  lemma ResetReachesStart(c: Cpu, p: Pass) returns (d: Cpu)
    requires PoweredUp(c, p)
    ensures d.Wf() && d.decode == c.decode && Reaches(c, 3, d) && d.pc == Physical(p.labels[".start"]) && d.mem == c.mem
  {
    ResetHolds(c, p);
    d := RunsJump(c, p.labels[".start"]);
    FetchRuns(c, JumpCode(p.labels[".start"]), d);
  }

  /** The words of the image at their place in ROM. */
  ghost predicate Loaded(mem: u32 -> u32, items: seq<Item>, labels: Labels, at: nat) {
    at + |items| < 0x4_0000 && forall k :: 0 <= k < |items| ==> mem(ROM_BASE + 4 * (at + k)) == WordFor(items[k], labels)
  }

  lemma LoadedSplit(mem: u32 -> u32, a: seq<Item>, b: seq<Item>, labels: Labels, at: nat)
    requires Loaded(mem, a + b, labels, at)
    ensures Loaded(mem, a, labels, at) && Loaded(mem, b, labels, at + |a|)
  {
    forall k | 0 <= k < |a| ensures mem(ROM_BASE + 4 * (at + k)) == WordFor(a[k], labels) {
      assert (a + b)[k] == a[k];
    }
    forall k | 0 <= k < |b| ensures mem(ROM_BASE + 4 * (at + |a| + k)) == WordFor(b[k], labels) {
      assert (a + b)[|a| + k] == b[k];
    }
  }

  lemma LoadedHolds(decode: Decoder, mem: u32 -> u32, items: seq<Item>, code: seq<Instr>, labels: Labels, at: nat)
    requires Decodes(decode)
    requires Loaded(mem, items, labels, at) && Codes(items, code, labels)
    ensures Holds(decode, mem, ROM_BASE + 4 * at, code)
  {
    forall k | 0 <= k < |code| ensures decode(mem(ROM_BASE + 4 * at + 4 * k)) == Some(code[k]) {
      assert mem(ROM_BASE + 4 * (at + k)) == WordFor(items[k], labels);
    }
  }

  lemma AllLoaded(c: Cpu, p: Pass)
    requires PoweredUp(c, p)
    ensures Loaded(c.mem, p.items, p.labels, 0)
  {
    var words := SecondPass(p.items, p.labels);
    forall k | 0 <= k < |p.items| ensures c.mem(ROM_BASE + 4 * (0 + k)) == WordFor(p.items[k], p.labels) {
      assert c.mem(ROM_BASE + 4 * k) == words[k];
    }
  }

  lemma LoadedParts(mem: u32 -> u32, a: seq<Item>, b: seq<Item>, c: seq<Item>, labels: Labels)
    requires Loaded(mem, a + b + c, labels, 0)
    ensures Loaded(mem, b, labels, |a|) && Loaded(mem, c, labels, |a| + |b|)
  {
    LoadedSplit(mem, a + b, c, labels, 0);
    LoadedSplit(mem, a, b, labels, 0);
  }

  /** A powered-up machine has the data words and then `.start` in ROM. */
  lemma ImageLoaded(lines: seq<Line>, c: Cpu)
    requires NeedsStart(lines) && PoweredUp(c, FirstPass(Rom, lines))
    ensures var q, p := Flush(Lines(Rom, lines)), FirstPass(Rom, lines);
      var (from, n) := (|q.items|, DataWords(p));
      && p.labels[".start"] == from + n && from + n < 0x4_0000 && |p.dataBytes| % 4 == 0
      && Loaded(c.mem, DataItems(p.dataBytes, p.relocs), p.labels, from)
      && Loaded(c.mem, StartRoutine(p.labels, p.textStart, from, n), p.labels, from + n)
  {
    var q, p := Flush(Lines(Rom, lines)), FirstPass(Rom, lines);
    CloseLayout(lines);
    AllLoaded(c, p);
    LoadedParts(c.mem, q.items, DataItems(p.dataBytes, p.relocs),
                StartRoutine(p.labels, p.textStart, |q.items|, DataWords(p)), p.labels);
  }

  /** Control is at the entry point and the data words are in RAM, with nothing else changed, if they fit the offsets. */
  ghost predicate Delivered(before: u32 -> u32, p: Pass, d: Cpu)
    requires |p.dataBytes| % 4 == 0
  {
    var n := DataWords(p);
    && d.pc == Physical(Entry(p.labels, p.textStart))
    && (forall x: u32 :: !InWindow(x) ==> d.mem(x) == before(x))
    && (n <= 8192 ==>
          && (forall j :: 0 <= j < n ==> d.mem(RAM_BASE + 4 * j) == WordFor(DataItems(p.dataBytes, p.relocs)[j], p.labels))
          && (forall x: u32 :: !(RAM_BASE <= x < RAM_BASE + 4 * n) ==> d.mem(x) == before(x)))
  }

  /** How many instructions `.start` executes for `n` data words. */
  function StartSteps(n: nat): nat { (if n > 0 then 4 + 2 * n else 0) + 3 }

  lemma CodeRuns(c: Cpu, first: nat, b: Cpu, entry: int, from: nat, n: nat) returns (d: Cpu)
    requires b.Wf() && from + n < 0x4_0000 && Holds(b.decode, b.mem, b.pc, StartCode(entry, from, n)) && Reaches(c, first, b)
    ensures Reaches(c, first + |StartCode(entry, from, n)|, d) && Started(b, entry, from, n, d)
  {
    d := RunsStart(b, entry, from, n);
    FetchRuns(b, StartCode(entry, from, n), d);
    ReachesThen(c, first, b, |StartCode(entry, from, n)|, d);
  }

  lemma StartRuns(c: Cpu, first: nat, b: Cpu, labels: Labels, textStart: Option<nat>, data: seq<Item>, from: nat)
    returns (steps: nat, d: Cpu)
    requires b.Wf() && Decodes(b.decode) && from + |data| < 0x4_0000 && b.pc == ROM_BASE + 4 * (from + |data|)
    requires Loaded(b.mem, data, labels, from)
    requires Loaded(b.mem, StartRoutine(labels, textStart, from, |data|), labels, from + |data|)
    requires Reaches(c, first, b)
    ensures steps == first + StartSteps(|data|) && Reaches(c, steps, d)
    ensures Started(b, Entry(labels, textStart), from, |data|, d)
    ensures |data| <= 8192 ==> forall j :: 0 <= j < |data| ==> d.mem(RAM_BASE + 4 * j) == WordFor(data[j], labels)
  {
    var n, entry := |data|, Entry(labels, textStart);
    StartCodes(labels, textStart, from, n);
    LoadedHolds(b.decode, b.mem, StartRoutine(labels, textStart, from, n), StartCode(entry, from, n), labels, from + n);
    d := CodeRuns(c, first, b, entry, from, n);
    steps := first + |StartCode(entry, from, n)|;
    DataDelivered(b, entry, from, n, d, data, labels);
  }

  lemma DataDelivered(b: Cpu, entry: int, from: nat, n: nat, d: Cpu, data: seq<Item>, labels: Labels)
    requires from + n <= 0x4_0000 && Started(b, entry, from, n, d) && |data| == n && Loaded(b.mem, data, labels, from)
    ensures n <= 8192 ==> forall j :: 0 <= j < n ==> d.mem(RAM_BASE + 4 * j) == WordFor(data[j], labels)
  {
  }

  lemma StartedDelivers(b: Cpu, p: Pass, from: nat, d: Cpu)
    requires |p.dataBytes| % 4 == 0 && from + DataWords(p) <= 0x4_0000
    requires Started(b, Entry(p.labels, p.textStart), from, DataWords(p), d)
    requires DataWords(p) <= 8192 ==> forall j :: 0 <= j < DataWords(p) ==>
      d.mem(RAM_BASE + 4 * j) == WordFor(DataItems(p.dataBytes, p.relocs)[j], p.labels)
    ensures Delivered(b.mem, p, d)
  {
  }

  /** How many instructions run from reset to the entry point. */
  function BootSteps(p: Pass): nat { 3 + StartSteps(DataWords(p)) }

  /** From reset, an assembled program reaches its entry point with every data word in RAM at its offset from the RAM
      base, relocations resolved, for every RAM contents, when the data image is at most 32 KB. */
  lemma BootDelivers(lines: seq<Line>, c: Cpu) returns (steps: nat, d: Cpu)
    requires NeedsStart(lines) && PoweredUp(c, FirstPass(Rom, lines))
    ensures |FirstPass(Rom, lines).dataBytes| % 4 == 0
    ensures steps == BootSteps(FirstPass(Rom, lines))
    ensures Reaches(c, steps, d) && Delivered(c.mem, FirstPass(Rom, lines), d)
  {
    ImageLoaded(lines, c);
    steps, d := PassBoots(c, FirstPass(Rom, lines), |Flush(Lines(Rom, lines)).items|);
  }

  /** The data words and the start routine of `p` are in ROM, from word `from` on. */
  ghost predicate InRom(mem: u32 -> u32, p: Pass, from: nat) {
    && |p.dataBytes| % 4 == 0 && from + DataWords(p) < 0x4_0000
    && Loaded(mem, DataItems(p.dataBytes, p.relocs), p.labels, from)
    && Loaded(mem, StartRoutine(p.labels, p.textStart, from, DataWords(p)), p.labels, from + DataWords(p))
  }

  lemma StartDelivers(c: Cpu, first: nat, b: Cpu, p: Pass, from: nat) returns (steps: nat, d: Cpu)
    requires b.Wf() && Decodes(b.decode) && InRom(b.mem, p, from) && b.pc == ROM_BASE + 4 * (from + DataWords(p))
    requires Reaches(c, first, b)
    ensures steps == first + StartSteps(DataWords(p)) && Reaches(c, steps, d) && Delivered(b.mem, p, d)
  {
    steps, d := StartRuns(c, first, b, p.labels, p.textStart, DataItems(p.dataBytes, p.relocs), from);
    StartedDelivers(b, p, from, d);
  }

  lemma ResetReachesRoutine(c: Cpu, p: Pass, from: nat) returns (steps: nat, b: Cpu)
    requires PoweredUp(c, p) && InRom(c.mem, p, from) && p.labels[".start"] == from + DataWords(p)
    ensures steps == 3 && b.Wf() && Decodes(b.decode) && Reaches(c, steps, b) && b.mem == c.mem && b.pc == ROM_BASE + 4 * (from + DataWords(p))
  {
    steps := 3;
    b := ResetReachesStart(c, p);
    RomAddressExact(from + DataWords(p));
  }

  lemma PassBoots(c: Cpu, p: Pass, from: nat) returns (steps: nat, d: Cpu)
    requires PoweredUp(c, p) && InRom(c.mem, p, from) && p.labels[".start"] == from + DataWords(p)
    ensures steps == BootSteps(p) && Reaches(c, steps, d) && Delivered(c.mem, p, d)
  {
    var first, b := ResetReachesRoutine(c, p, from);
    steps, d := StartDelivers(c, first, b, p, from);
  }

  /** Every data word is in RAM at its offset. */
  ghost predicate AllDelivered(mem: u32 -> u32, p: Pass)
    requires |p.dataBytes| % 4 == 0
  {
    forall j :: 0 <= j < DataWords(p) && RAM_BASE + 4 * j < WORD ==> mem(RAM_BASE + 4 * j) == WordFor(DataItems(p.dataBytes, p.relocs)[j], p.labels)
  }

  /** A memory holding ROM words and a reset vector, and `fill` below ROM. */
  function RomMemory(words: seq<u32>, reset: seq<u32>, fill: u32): u32 -> u32
    requires |reset| == 4
  {
    (x: u32) =>
      if x < ROM_BASE then fill
      else if x >= RESET then reset[(x - RESET) / 4]
      else if (x - ROM_BASE) / 4 < |words| then words[(x - ROM_BASE) / 4]
      else 0
  }

  lemma RomMemoryHolds(words: seq<u32>, reset: seq<u32>, fill: u32)
    requires |reset| == 4 && |words| <= 0x3_FFFC
    ensures var mem := RomMemory(words, reset, fill);
      && (forall k :: 0 <= k < |words| ==> mem(ROM_BASE + 4 * k) == words[k])
      && (forall k :: 0 <= k < 4 ==> mem(RESET + 4 * k) == reset[k])
  {
    var mem := RomMemory(words, reset, fill);
    forall k | 0 <= k < |words| ensures mem(ROM_BASE + 4 * k) == words[k] {
      var x: u32 := ROM_BASE + 4 * k;
      assert x < RESET && (x - ROM_BASE) / 4 == k;
    }
    forall k | 0 <= k < 4 ensures mem(RESET + 4 * k) == reset[k] {
      var x: u32 := RESET + 4 * k;
      assert (x - RESET) / 4 == k;
    }
  }

  lemma RomMemoryPowersUp(p: Pass, fill: u32) returns (c: Cpu)
    requires ".start" in p.labels && |p.items| <= 0x3_FFFC
    ensures PoweredUp(c, p) && forall x: u32 :: x < ROM_BASE ==> c.mem(x) == fill
  {
    var words, reset := SecondPass(p.items, p.labels), SecondPass(ResetItems(p.labels[".start"]), p.labels);
    RomMemoryHolds(words, reset, fill);
    c := Cpu(seq(16, _ => 0), RESET, RomMemory(words, reset, fill), Decode);
  }

  /** An image of more than 32 KB is not delivered if RAM held something else: `.start` never reaches the word 32 KB up. */
  lemma LongImageNotDelivered(lines: seq<Line>) returns (c: Cpu)
    requires NeedsStart(lines) && |FirstPass(Rom, lines).items| <= 0x3_FFFC && |FirstPass(Rom, lines).dataBytes| % 4 == 0
    requires DataWords(FirstPass(Rom, lines)) > 8192 && ".start" in FirstPass(Rom, lines).labels
    ensures var p := FirstPass(Rom, lines);
      PoweredUp(c, p) && RunCpu(c, BootSteps(p)).Some? && !AllDelivered(RunCpu(c, BootSteps(p)).value.mem, p)
  {
    var p := FirstPass(Rom, lines);
    var word := WordFor(DataItems(p.dataBytes, p.relocs)[8192], p.labels);
    var fill := if word == 0 then 1 else 0;
    c := RomMemoryPowersUp(p, fill);
    var steps, d := BootDelivers(lines, c);
    NotDelivered(c, p, d);
  }

  /** 32 KB and one word of zeros are already too long. */
  lemma LongProgram()
    ensures var lines := [Enter(Data), Zero(0x8004)];
      var p := FirstPass(Rom, lines);
      NeedsStart(lines) && |p.items| <= 0x3_FFFC && |p.dataBytes| == 0x8004
  {
    var lines := [Enter(Data), Zero(0x8004)];
    assert Front(lines) == [Enter(Data)] && Front([Enter(Data)]) == [];
    var q := Lines(Rom, lines);
    assert q.dataBytes == [] + Zeros(0x8004) == Zeros(0x8004) && q.items == [] && q.pendingBytes == [];
    assert q.dataBytes[0] == 0;
    CloseLayout(lines);
    var p := FirstPass(Rom, lines);
    assert p.dataBytes == q.dataBytes;
  }

  lemma NotDelivered(c: Cpu, p: Pass, d: Cpu)
    requires |p.dataBytes| % 4 == 0 && DataWords(p) > 8192 && Delivered(c.mem, p, d)
    requires c.mem(RAM_BASE + 4 * 8192) != WordFor(DataItems(p.dataBytes, p.relocs)[8192], p.labels)
    ensures !AllDelivered(d.mem, p)
  {
    assert !InWindow(RAM_BASE + 4 * 8192);
  }

  /** Boot delivers the data image over every RAM contents exactly when the image is at most 32 KB. */
  lemma DeliveredIffShort(lines: seq<Line>)
    requires NeedsStart(lines) && |FirstPass(Rom, lines).items| <= 0x3_FFFC
    ensures var p := FirstPass(Rom, lines);
      && |p.dataBytes| % 4 == 0
      && ((forall c :: PoweredUp(c, p) ==> RunCpu(c, BootSteps(p)).Some? && AllDelivered(RunCpu(c, BootSteps(p)).value.mem, p))
          <==> |p.dataBytes| <= 0x8000)
  {
    var p := FirstPass(Rom, lines);
    CloseLayout(lines);
    if DataWords(p) > 8192 {
      var c := LongImageNotDelivered(lines);
    } else {
      forall c | PoweredUp(c, p)
        ensures RunCpu(c, BootSteps(p)).Some? && AllDelivered(RunCpu(c, BootSteps(p)).value.mem, p)
      {
        var steps, d := BootDelivers(lines, c);
      }
    }
  }

  // ---------------------------------------------------------------------------
  // Bytes and labels
  // ---------------------------------------------------------------------------

  /** The byte a program sees at an address: words hold their low byte first. */
  function RamByte(mem: u32 -> u32, address: u32): byte {
    ByteOf(mem(address / 4 * 4), address % 4)
  }

  /** Byte `k` of the data image is at RAM base + k after boot, unless it is part of a relocated word, which holds the
      physical address of its label instead. */
  lemma DataByteDelivered(c: Cpu, p: Pass, d: Cpu, k: nat)
    requires |p.dataBytes| % 4 == 0 && Delivered(c.mem, p, d) && k < |p.dataBytes| <= 0x8000
    ensures RamByte(d.mem, RAM_BASE + k) ==
      if k / 4 * 4 in p.relocs then ByteOf(WordFor(RawAddress(p.relocs[k / 4 * 4]), p.labels), k % 4) else p.dataBytes[k]
  {
    var j := k / 4;
    assert (RAM_BASE + k) / 4 * 4 == RAM_BASE + 4 * j && (RAM_BASE + k) % 4 == k % 4;
    var b := p.dataBytes;
    assert d.mem(RAM_BASE + 4 * j) == WordFor(DataItems(b, p.relocs)[j], p.labels);
    WordRoundTrip(b[4 * j], b[4 * j + 1], b[4 * j + 2], b[4 * j + 3]);
    assert WordBytes(WordOf(b[4 * j], b[4 * j + 1], b[4 * j + 2], b[4 * j + 3]))[k % 4] == b[k];
  }

  /** What a label got at its definition it keeps to the end, `.bss` labels being moved behind `.data`. */
  lemma LabelKept(lines: seq<Line>, n: nat, name: string)
    requires n <= |lines| && name in Lines(Rom, lines[..n]).labels && name != ".start"
    ensures var p := FirstPass(Rom, lines);
      name in p.labels && p.labels[name] == FixBss(Lines(Rom, lines[..n]).labels[name], Flush(Lines(Rom, lines)).dataOffset)
  {
    LinesCounted(Rom, lines, n);
    ClosedLabel(Lines(Rom, lines), name);
  }

  lemma ClosedLabel(p: Pass, name: string)
    requires name in p.labels && name != ".start"
    ensures var q := Close(p, Rom);
      name in q.labels && q.labels[name] == FixBss(p.labels[name], Flush(p).dataOffset)
  {
    FlushSame(p);
  }

  /** The fix-up sends a `.bss` offset to the first word behind the data exactly when the offset is below 0xB0000. */
  lemma BssFixedIff(offset: nat, dataOffset: nat)
    requires dataOffset + 3 < BSS_BASE - RAM_BASE
    ensures FixBss(BSS_BASE + offset, dataOffset) == RAM_BASE + (dataOffset + 3) / 4 * 4 + offset <==> offset < BSS_LIMIT - BSS_BASE
  {
  }

  /** Two symbols of which the second lies at that bound: its address stays in the placeholder range. */
  lemma BssMissed()
    ensures var p := FirstPass(Rom, [Comm(Some("a"), 0xB0000, 4), Comm(Some("b"), 4, 4)]);
      "a" in p.labels && p.labels["a"] == RAM_BASE && "b" in p.labels && p.labels["b"] == BSS_LIMIT
  {
    var first := Comm(Some("a"), 0xB0000, 4);
    var lines := [first, Comm(Some("b"), 4, 4)];
    assert Front(lines) == [first] && Front([first]) == [] && Last([first]) == first;
    assert Lines(Rom, []) == Layout.Start();
    assert Lines(Rom, [first]) == Layout.Start().(labels := map["a" := BSS_BASE], bssOffset := 0xB0000);
    var q := Lines(Rom, lines);
    assert q.labels == map["a" := BSS_BASE, "b" := BSS_LIMIT] && q.dataOffset == 0;
    LabelKept(lines, 2, "a");
    LabelKept(lines, 2, "b");
  }

  /** A label defined in `.data` addresses, after boot, the bytes emitted right behind its definition, relocated words
      holding the physical address of their label. */
  lemma DataLabelDelivered(lines: seq<Line>, n: nat, name: string, k: nat, c: Cpu, d: Cpu)
    requires n < |lines| && lines[n] == Label(Some(name), None) && name != ".start"
    requires var q := Lines(Rom, lines[..n]); q.section.Data? && name !in q.labels
    requires var p := FirstPass(Rom, lines); |p.dataBytes| % 4 == 0 && |p.dataBytes| <= 0x8000 && Delivered(c.mem, p, d)
    requires |Lines(Rom, lines[..n]).dataBytes| + k < |FirstPass(Rom, lines).dataBytes|
    ensures var p, at := FirstPass(Rom, lines), |Lines(Rom, lines[..n]).dataBytes| + k;
      && name in p.labels && p.labels[name] + k == RAM_BASE + at
      && RamByte(d.mem, p.labels[name] + k) ==
           if at / 4 * 4 in p.relocs then ByteOf(WordFor(RawAddress(p.relocs[at / 4 * 4]), p.labels), at % 4) else p.dataBytes[at]
  {
    DataLabelAddress(lines, n, name);
    DataKept(lines, n);
    DataByteDelivered(c, FirstPass(Rom, lines), d, |Lines(Rom, lines[..n]).dataBytes| + k);
  }

  lemma DataLabelAddress(lines: seq<Line>, n: nat, name: string)
    requires n < |lines| && lines[n] == Label(Some(name), None) && name != ".start"
    requires var q := Lines(Rom, lines[..n]); q.section.Data? && name !in q.labels && |q.dataBytes| < BSS_BASE - RAM_BASE
    ensures var p := FirstPass(Rom, lines);
      name in p.labels && p.labels[name] == RAM_BASE + |Lines(Rom, lines[..n]).dataBytes|
  {
    var q := Lines(Rom, lines[..n]);
    LinesCounted(Rom, lines[..n], 0);
    LabelNamesNext(q, Rom, name);
    FlushSame(q);
    assert Front(lines[..n + 1]) == lines[..n] && Last(lines[..n + 1]) == lines[n];
    assert Lines(Rom, lines[..n + 1]) == LabelStep(q, Rom, Some(name), None);
    LabelKept(lines, n + 1, name);
  }

  /** Data bytes, once appended, are part of the final image. */
  lemma DataKept(lines: seq<Line>, n: nat)
    requires n <= |lines|
    ensures Lines(Rom, lines[..n]).dataBytes <= FirstPass(Rom, lines).dataBytes
  {
    LinesCounted(Rom, lines, n);
    FlushSame(Lines(Rom, lines));
  }
}
