/** The two passes as the assembler runs them: loops that append to lists and advance counters. */
module Assembler {
  import opened Machine
  import opened Isa
  import opened Layout

  class FirstPassRun {
    const mode: Mode
    var section: Section
    var labels: Labels
    var items: seq<Item>
    var romAddress: nat
    var textStart: Option<nat>
    var dataBytes: seq<byte>
    var dataOffset: nat
    var relocs: map<nat, LabelExpr>
    var bssOffset: nat
    var pendingBytes: seq<byte>
    var errors: nat

    function Abs(): Pass
      reads this
    {
      Pass(section, labels, items, romAddress, textStart, dataBytes, dataOffset, relocs, bssOffset, pendingBytes, errors)
    }

    constructor (mode: Mode)
      ensures this.mode == mode && Abs() == Layout.Start()
    {
      this.mode := mode;
      section, labels, items, romAddress, textStart := Text, map[], [], 0, None;
      dataBytes, dataOffset, relocs, bssOffset, pendingBytes, errors := [], 0, map[], 0, [], 0;
    }

    method MarkStart()
      modifies this`textStart
      ensures Abs() == MarkTextStart(old(Abs()))
    {
      if section.Text? && textStart.None? {
        textStart := Some(romAddress);
      }
    }

    method EmitItem(item: Item)
      modifies this`textStart, this`items, this`romAddress
      ensures Abs() == Emit(old(Abs()), item)
    {
      MarkStart();
      items, romAddress := items + [item], romAddress + 1;
    }

    /** Pad the waiting bytes to a whole number of words. */
    method PadPending()
      modifies this`pendingBytes
      ensures Abs() == old(Abs()).(pendingBytes := Padded(old(pendingBytes)))
    {
      ghost var bytes := pendingBytes;
      ghost var padded := Padded(bytes);
      PadStep(|bytes|);
      while |pendingBytes| % 4 != 0
        invariant |bytes| <= |pendingBytes| <= |padded|
        invariant pendingBytes == padded[..|pendingBytes|]
        decreases |padded| - |pendingBytes|
      {
        pendingBytes := pendingBytes + [0];
      }
      PadUnique(|bytes|, |pendingBytes|);
    }

    /** Emit the waiting bytes as words, low byte first. */
    method PackPending()
      requires |pendingBytes| % 4 == 0
      modifies this`textStart, this`items, this`romAddress
      ensures Abs() == EmitWords(old(Abs()), pendingBytes)
    {
      ghost var p := Abs();
      var i := 0;
      while i < |pendingBytes|
        invariant i <= |pendingBytes| && i % 4 == 0
        invariant EmitWords(p, pendingBytes) == EmitWords(Abs(), pendingBytes[i..])
        decreases |pendingBytes| - i
      {
        FirstWord(Abs(), pendingBytes, i);
        EmitItem(Raw(WordOf(pendingBytes[i], pendingBytes[i + 1], pendingBytes[i + 2], pendingBytes[i + 3])));
        i := i + 4;
      }
    }

    method FlushPendingBytes()
      modifies this`textStart, this`items, this`romAddress, this`pendingBytes
      ensures Abs() == Flush(old(Abs()))
    {
      if pendingBytes == [] {
        return;
      }
      ghost var p := Abs();
      PadPending();
      PadStep(|p.pendingBytes|);
      PackPending();
      EmitWordsPending(p, pendingBytes, pendingBytes);
      pendingBytes := [];
    }

    method EmitZeroWords(n: nat)
      modifies this`items, this`romAddress
      ensures Abs() == EmitZeros(old(Abs()), n)
    {
      ghost var p := Abs();
      for i := 0 to n
        invariant items == p.items + seq(i, _ => Raw(0)) && Abs() == p.(items := items)
      {
        items := items + [Raw(0)];
      }
      romAddress := romAddress + n;
    }

    method AppendBytes(bytes: seq<byte>)
      modifies this`dataBytes, this`dataOffset
      ensures Abs() == AppendData(old(Abs()), bytes)
    {
      dataBytes, dataOffset := dataBytes + bytes, dataOffset + |bytes|;
    }

    method Common(name: Option<string>, size: nat, align: nat)
      modifies this
      ensures Abs() == CommStep(old(Abs()), mode, name, size, align)
    {
      if name.None? || name.value in labels {
        errors := errors + 1;
      } else if mode.Rom? {
        bssOffset := bssOffset + Padding(bssOffset, Max1(align));
        labels := labels[name.value := BSS_BASE + bssOffset];
        bssOffset := bssOffset + size;
      } else {
        EmitZeroWords(Padding(romAddress, Max1(align / 4)));
        labels := labels[name.value := romAddress];
        EmitZeroWords((size + 3) / 4);
      }
    }

    method AlignTo(n: nat)
      modifies this
      ensures Abs() == AlignStep(old(Abs()), mode, n)
    {
      if section.Text? || mode.Ram? {
        FlushPendingBytes();
        var pad := Padding(romAddress, Max1(Pow2(n) / 4));
        if pad != 0 {
          MarkStart();
          EmitZeroWords(pad);
        }
      } else if section.Data? {
        AppendBytes(Zeros(Padding(dataOffset, Pow2(n))));
      } else {
        bssOffset := bssOffset + Padding(bssOffset, Pow2(n));
      }
    }

    /** Align the data, then append the value, or zeros under a relocation. */
    method PutDataLong(v: LongValue)
      modifies this`relocs, this`dataBytes, this`dataOffset
      ensures Abs() == DataLong(old(Abs()), v)
    {
      AppendBytes(Zeros(Padding(dataOffset, 4)));
      if v.Address? {
        relocs := relocs[dataOffset := v.e];
        AppendBytes(Zeros(4));
      } else {
        AppendBytes(WordBytes(LongItem(v).v));
      }
    }

    method PutImageLong(v: LongValue)
      modifies this`textStart, this`items, this`romAddress, this`pendingBytes
      ensures Abs() == Emit(Flush(old(Abs())), LongItem(v))
    {
      FlushPendingBytes();
      EmitItem(LongItem(v));
    }

    method PutLong(v: LongValue)
      modifies this
      ensures Abs() == LongStep(old(Abs()), mode, v)
    {
      if v.Malformed? {
        errors := errors + 1;
      }
      if section.Text? || mode.Ram? {
        PutImageLong(v);
      } else if section.Data? {
        PutDataLong(v);
      } else {
        bssOffset := bssOffset + Padding(bssOffset, 4) + 4;
      }
    }

    method Put(bytes: seq<byte>)
      modifies this`pendingBytes, this`dataBytes, this`dataOffset, this`bssOffset
      ensures Abs() == PutBytes(old(Abs()), mode, bytes)
    {
      if section.Text? || mode.Ram? {
        pendingBytes := pendingBytes + bytes;
      } else if section.Data? {
        AppendBytes(bytes);
      } else {
        bssOffset := bssOffset + |bytes|;
      }
    }

    method PutShort(v: Option<int>)
      modifies this
      ensures Abs() == ShortStep(old(Abs()), mode, v)
    {
      var n := 0;
      if v.Some? {
        n := v.value % 0x1_0000;
      } else {
        errors := errors + 1;
      }
      if mode.Rom? && section.Data? {
        AppendBytes(Zeros(Padding(dataOffset, 2)));
      } else if mode.Rom? && section.Bss? {
        bssOffset := bssOffset + Padding(bssOffset, 2);
      }
      Put([n % 0x100, n / 0x100]);
    }

    method PutByte(v: Option<int>)
      modifies this
      ensures Abs() == ByteStep(old(Abs()), mode, v)
    {
      if v.Some? {
        Put([v.value % 0x100]);
      } else {
        errors := errors + 1;
        Put([0]);
      }
    }

    method PutInstruction(source: Source)
      modifies this
      ensures Abs() == InstructionStep(old(Abs()), source)
    {
      FlushPendingBytes();
      EmitItem(Deferred(source));
    }

    method DefineLabel(name: Option<string>, rest: Option<Source>)
      modifies this
      ensures Abs() == LabelStep(old(Abs()), mode, name, rest)
    {
      FlushPendingBytes();
      if name.None? || name.value in labels {
        errors := errors + 1;
        return;
      }
      if mode.Rom? && section.Data? {
        labels := labels[name.value := RAM_BASE + dataOffset];
      } else if mode.Rom? && section.Bss? {
        labels := labels[name.value := BSS_BASE + bssOffset];
      } else {
        labels := labels[name.value := romAddress];
      }
      if rest.Some? {
        PutInstruction(rest.value);
      }
    }

    method PutLongs(vs: seq<LongValue>)
      modifies this
      ensures Abs() == LongSteps(old(Abs()), mode, vs)
    {
      for i := 0 to |vs|
        invariant LongSteps(old(Abs()), mode, vs) == LongSteps(Abs(), mode, vs[i..])
      {
        PutLong(vs[i]);
        assert vs[i..][1..] == vs[i + 1..];
      }
    }

    method PutShorts(vs: seq<Option<int>>)
      modifies this
      ensures Abs() == ShortSteps(old(Abs()), mode, vs)
    {
      for i := 0 to |vs|
        invariant ShortSteps(old(Abs()), mode, vs) == ShortSteps(Abs(), mode, vs[i..])
      {
        PutShort(vs[i]);
        assert vs[i..][1..] == vs[i + 1..];
      }
    }

    method PutByteList(vs: seq<Option<int>>)
      modifies this
      ensures Abs() == ByteSteps(old(Abs()), mode, vs)
    {
      for i := 0 to |vs|
        invariant ByteSteps(old(Abs()), mode, vs) == ByteSteps(Abs(), mode, vs[i..])
      {
        PutByte(vs[i]);
        assert vs[i..][1..] == vs[i + 1..];
      }
    }

    /** One source line. */
    method ProcessLine(line: Line)
      modifies this
      ensures Abs() == Layout.Step(old(Abs()), mode, line)
    {
      match line
      case Enter(s) => section := s;
      case Comm(name, size, align) => Common(name, size, align);
      case Align(n) => AlignTo(n);
      case Long(vs) => PutLongs(vs);
      case Short(vs) => PutShorts(vs);
      case Bytes(vs) => PutByteList(vs);
      case Ascii(text) => Put(text);
      case Zero(n) => Put(Zeros(n));
      case Label(name, rest) => DefineLabel(name, rest);
      case Instruction(source) => PutInstruction(source);
      case Ignored =>
    }

    /** Append the data image, a relocation or four bytes a word. */
    method EmitData()
      requires |dataBytes| % 4 == 0
      modifies this`items, this`romAddress
      ensures items == old(items) + DataItems(dataBytes, relocs) && romAddress == old(romAddress) + |dataBytes| / 4
    {
      var n := |dataBytes| / 4;
      for i := 0 to n
        invariant items == old(items) + DataItems(dataBytes, relocs)[..i] && romAddress == old(romAddress) + i
      {
        items, romAddress := items + [DataItem(dataBytes, relocs, i)], romAddress + 1;
      }
    }

    /** The unrolled copy of `n` words. */
    method EmitCopies(n: nat)
      modifies this`items
      ensures items == old(items) + CopyWords(n)
    {
      for i := 0 to n
        invariant items == old(items) + CopyWords(i)
      {
        items := items + CopyWord(i);
      }
    }

    /** The `.start` routine. */
    method EmitStart(from: nat, n: nat)
      modifies this`items, this`errors
      ensures items == old(items) + StartRoutine(labels, textStart, from, n)
      ensures errors == if "main" !in labels && textStart.None? then old(errors) + 1 else old(errors)
    {
      if n > 0 {
        items := items + LoadPair(15, from) + [LdiHigh(1, 0x0400), AdiSilent(1, 0)];
        EmitCopies(n);
      }
      items := items + JumpToMain(labels, textStart);
      if "main" !in labels && textStart.None? {
        errors := errors + 1;
      }
    }

    /** The data image in whole words. */
    method EmitPaddedData()
      modifies this`dataBytes, this`items, this`romAddress
      ensures dataBytes == Padded(old(dataBytes)) && items == old(items) + DataItems(dataBytes, relocs)
      ensures romAddress == old(romAddress) + |dataBytes| / 4
    {
      dataBytes := Padded(dataBytes);
      EmitData();
    }

    /** The data image, then the `.start` routine that copies it. */
    method Inject()
      modifies this
      ensures Abs() == Layout.Inject(old(Abs()))
    {
      var from := romAddress;
      EmitPaddedData();
      labels := labels[".start" := romAddress];
      EmitStart(from, |dataBytes| / 4);
    }

    /** Close the pass: flush, place `.bss`, and inject what sets up RAM. */
    method Finish()
      modifies this
      ensures Abs() == Close(old(Abs()), mode)
    {
      FlushPendingBytes();
      if mode.Ram? {
        return;
      }
      labels := FixLabels(labels, dataOffset);
      if dataBytes != [] || bssOffset != 0 {
        Inject();
      }
    }

    method Run(lines: seq<Line>)
      requires Abs() == Layout.Start()
      modifies this
      ensures Abs() == FirstPass(mode, lines)
    {
      for i := 0 to |lines|
        invariant Abs() == Lines(mode, lines[..i])
      {
        assert Front(lines[..i + 1]) == lines[..i];
        ProcessLine(lines[i]);
      }
      assert lines[..|lines|] == lines;
      Finish();
    }
  }

  lemma PadStep(n: nat)
    ensures (n + Padding(n, 4)) % 4 == 0
  {
  }

  lemma PadUnique(n: nat, m: nat)
    requires n <= m <= n + Padding(n, 4) && m % 4 == 0
    ensures m == n + Padding(n, 4)
  {
  }

  /** Emitting words from byte `i` on begins with the word there. */
  lemma FirstWord(p: Pass, bytes: seq<byte>, i: nat)
    requires |bytes| % 4 == 0 && i % 4 == 0 && i < |bytes|
    ensures i + 4 <= |bytes| && (i + 4) % 4 == 0
    ensures EmitWords(p, bytes[i..])
            == EmitWords(Emit(p, Raw(WordOf(bytes[i], bytes[i + 1], bytes[i + 2], bytes[i + 3]))), bytes[i + 4..])
  {
    assert bytes[i..][4..] == bytes[i + 4..];
  }

  /** Emitting words leaves the waiting bytes alone. */
  lemma {:induction false} EmitWordsPending(p: Pass, waiting: seq<byte>, bytes: seq<byte>)
    requires |bytes| % 4 == 0
    ensures EmitWords(p.(pendingBytes := waiting), bytes) == EmitWords(p, bytes).(pendingBytes := waiting)
    decreases |bytes|
  {
    if bytes != [] {
      var item := Raw(WordOf(bytes[0], bytes[1], bytes[2], bytes[3]));
      EmitWordsPending(Emit(p, item), waiting, bytes[4..]);
    }
  }

  /** The second pass: each item becomes one word, at the address its index says; the items that fail become 0. */
  method ResolveItems(items: seq<Item>, labels: Labels) returns (words: seq<u32>, errors: nat)
    ensures words == SecondPass(items, labels)
    ensures errors == 0 <==> forall i :: 0 <= i < |items| ==> Resolved(items[i], labels).Some?
  {
    words, errors := [], 0;
    for i := 0 to |items|
      invariant words == SecondPass(items, labels)[..i]
      invariant errors == 0 <==> forall k :: 0 <= k < i ==> Resolved(items[k], labels).Some?
    {
      match Resolved(items[i], labels)
      case Some(w) => words := words + [w];
      case None => words, errors := words + [0], errors + 1;
    }
  }
}
