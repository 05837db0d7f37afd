/** What each directive emits, read off the directive alone: values as little-endian bytes behind their padding, texts as
    they are, room in `.bss`, the word `.text` starts with, and which lines are in error. */
module Emission {
  import opened Machine
  import opened Isa
  import opened Layout
  import opened LayoutFacts

  /** The number whose bytes these are, lowest first. */
  function LittleEndian(bytes: seq<byte>): nat {
    if bytes == [] then 0 else bytes[0] + 256 * LittleEndian(bytes[1..])
  }

  predicate AllZero(bytes: seq<byte>) { forall i :: 0 <= i < |bytes| ==> bytes[i] == 0 }

  /** `r` is the least multiple of `unit` from `x` on. */
  predicate RoundsUp(x: nat, unit: nat, r: nat)
    requires unit > 0
  {
    r % unit == 0 && x <= r < x + unit
  }

  /** `after` is `before`, zeros up to a multiple of `align`, and `width` bytes that hold `v`. */
  predicate Appends(before: seq<byte>, after: seq<byte>, align: nat, width: nat, v: int)
    requires align > 0 && (width == 1 || width == 2 || width == 4)
  {
    && |before| + width <= |after| && before <= after
    && var at := |after| - width;
       && RoundsUp(|before|, align, at) && AllZero(after[|before|..at])
       && LittleEndian(after[at..]) == v % (if width == 1 then 0x100 else if width == 2 then 0x1_0000 else 0x1_0000_0000)
  }

  /** The values follow each other. */
  ghost predicate AppendsAll(before: seq<byte>, after: seq<byte>, align: nat, width: nat, vs: seq<int>)
    requires align > 0 && (width == 1 || width == 2 || width == 4)
    decreases |vs|
  {
    if vs == [] then after == before
    else exists mid :: Appends(before, mid, align, width, vs[0]) && AppendsAll(mid, after, align, width, vs[1..])
  }

  /** A refused value counts as 0. */
  function OrZero(vs: seq<Option<int>>): (r: seq<int>)
    ensures |r| == |vs|
  {
    seq(|vs|, i requires 0 <= i < |vs| => if vs[i].Some? then vs[i].value else 0)
  }

  lemma TwoBytes(a: byte, b: byte)
    ensures LittleEndian([a, b]) == a + 256 * b && LittleEndian([a]) == a
  {
    assert [a, b][1..] == [b] && [b][1..] == [] && [a][1..] == [];
    assert LittleEndian([]) == 0 && LittleEndian([b]) == b;
  }

  lemma FourBytes(a: byte, b: byte, c: byte, d: byte)
    ensures LittleEndian([a, b, c, d]) == a + 0x100 * b + 0x1_0000 * c + 0x100_0000 * d
  {
    assert [a, b, c, d][1..] == [b, c, d] && [b, c, d][1..] == [c, d];
    TwoBytes(c, d);
  }

  lemma WordBytesHold(w: u32)
    ensures LittleEndian(WordBytes(w)) == w
  {
    FourBytes(ByteOf(w, 0), ByteOf(w, 1), ByteOf(w, 2), ByteOf(w, 3));
    var a := w / 0x100;
    var b := a / 0x100;
    assert w / 0x1_0000 == b && w / 0x100_0000 == b / 0x100;
    assert w == 0x100 * a + w % 0x100 && a == 0x100 * b + a % 0x100 && b == 0x100 * (b / 0x100) + b % 0x100;
  }

  lemma ZerosThen(before: seq<byte>, pad: nat, bytes: seq<byte>, align: nat, v: int)
    requires align > 0 && RoundsUp(|before|, align, |before| + pad) && (|bytes| == 1 || |bytes| == 2 || |bytes| == 4)
    requires LittleEndian(bytes) == v % (if |bytes| == 1 then 0x100 else if |bytes| == 2 then 0x1_0000 else 0x1_0000_0000)
    ensures Appends(before, before + Zeros(pad) + bytes, align, |bytes|, v)
  {
    var after := before + Zeros(pad) + bytes;
    assert after[|before|..|before| + pad] == Zeros(pad);
    assert after[|before| + pad..] == bytes;
  }

  lemma PadRounds(x: nat, unit: nat)
    requires unit == 1 || unit == 2 || unit == 4
    ensures RoundsUp(x, unit, x + Padding(x, unit))
  {
    PadRoundsAny(x, unit);
  }

  // ---------------------------------------------------------------------------
  // Numbers in `.data`
  // ---------------------------------------------------------------------------

  lemma DataShort(p: Pass, v: Option<int>)
    requires p.dataOffset == |p.dataBytes| && p.section.Data?
    ensures var r := ShortStep(p, Rom, v);
      && Appends(p.dataBytes, r.dataBytes, 2, 2, if v.Some? then v.value else 0)
      && r == p.(dataBytes := r.dataBytes, dataOffset := |r.dataBytes|, errors := r.errors)
  {
    var n := if v.Some? then v.value % 0x1_0000 else 0;
    PadRounds(p.dataOffset, 2);
    TwoBytes(n % 0x100, n / 0x100);
    ZerosThen(p.dataBytes, Padding(p.dataOffset, 2), [n % 0x100, n / 0x100], 2, if v.Some? then v.value else 0);
  }

  lemma DataByte(p: Pass, v: Option<int>)
    requires p.dataOffset == |p.dataBytes| && p.section.Data?
    ensures var r := ByteStep(p, Rom, v);
      && Appends(p.dataBytes, r.dataBytes, 1, 1, if v.Some? then v.value else 0)
      && r == p.(dataBytes := r.dataBytes, dataOffset := |r.dataBytes|, errors := r.errors)
  {
    var n: byte := if v.Some? then v.value % 0x100 else 0;
    TwoBytes(n, n);
    ZerosThen(p.dataBytes, 0, [n], 1, if v.Some? then v.value else 0);
    assert p.dataBytes + Zeros(0) + [n] == p.dataBytes + [n];
  }

  /** The number a `.long` stores: a label stores 0 under a relocation. */
  function StoredNow(v: LongValue): int { if v.Number? then v.v else 0 }

  lemma DataLongIs(p: Pass, v: LongValue)
    requires p.dataOffset == |p.dataBytes| && p.section.Data?
    ensures var r := LongStep(p, Rom, v);
      && r.dataBytes == p.dataBytes + Zeros(Padding(p.dataOffset, 4)) + LongBytes(v)
      && r == p.(dataBytes := r.dataBytes, dataOffset := |r.dataBytes|, relocs := r.relocs, errors := r.errors)
  {
  }

  lemma DataLongAppends(p: Pass, v: LongValue)
    requires p.dataOffset == |p.dataBytes| && p.section.Data?
    ensures Appends(p.dataBytes, LongStep(p, Rom, v).dataBytes, 4, 4, StoredNow(v))
  {
    PadRounds(p.dataOffset, 4);
    LongBytesHold(v);
    ZerosThen(p.dataBytes, Padding(p.dataOffset, 4), LongBytes(v), 4, StoredNow(v));
    DataLongIs(p, v);
  }

  function LongBytes(v: LongValue): seq<byte> { if v.Address? then Zeros(4) else WordBytes(LongItem(v).v) }

  lemma LongBytesHold(v: LongValue)
    ensures |LongBytes(v)| == 4 && LittleEndian(LongBytes(v)) == StoredNow(v) % 0x1_0000_0000
  {
    if v.Address? {
      assert Zeros(4) == [0, 0, 0, 0];
      FourBytes(0, 0, 0, 0);
    } else {
      WordBytesHold(LongItem(v).v);
    }
  }

  /** `.short` in `.data`. */
  lemma {:induction false} DataShorts(p: Pass, vs: seq<Option<int>>)
    requires p.dataOffset == |p.dataBytes| && p.section.Data?
    ensures var r := ShortSteps(p, Rom, vs);
      && AppendsAll(p.dataBytes, r.dataBytes, 2, 2, OrZero(vs))
      && r == p.(dataBytes := r.dataBytes, dataOffset := |r.dataBytes|, errors := r.errors)
    decreases |vs|
  {
    if vs != [] {
      var q := ShortStep(p, Rom, vs[0]);
      DataShort(p, vs[0]);
      DataShorts(q, vs[1..]);
      assert OrZero(vs)[1..] == OrZero(vs[1..]);
    }
  }

  /** `.byte` in `.data`. */
  lemma {:induction false} DataBytes(p: Pass, vs: seq<Option<int>>)
    requires p.dataOffset == |p.dataBytes| && p.section.Data?
    ensures var r := ByteSteps(p, Rom, vs);
      && AppendsAll(p.dataBytes, r.dataBytes, 1, 1, OrZero(vs))
      && r == p.(dataBytes := r.dataBytes, dataOffset := |r.dataBytes|, errors := r.errors)
    decreases |vs|
  {
    if vs != [] {
      var q := ByteStep(p, Rom, vs[0]);
      DataByte(p, vs[0]);
      DataBytes(q, vs[1..]);
      assert OrZero(vs)[1..] == OrZero(vs[1..]);
    }
  }

  /** The values of a `.long`, as numbers. */
  function Stored(vs: seq<LongValue>): (r: seq<int>)
    ensures |r| == |vs|
  {
    seq(|vs|, i requires 0 <= i < |vs| => StoredNow(vs[i]))
  }

  /** `.long` in `.data`. */
  lemma {:induction false} DataLongs(p: Pass, vs: seq<LongValue>)
    requires p.dataOffset == |p.dataBytes| && p.section.Data?
    ensures var r := LongSteps(p, Rom, vs); OnlyData(p, r) && AppendsAll(p.dataBytes, r.dataBytes, 4, 4, Stored(vs))
    decreases |vs|, 1
  {
    if vs != [] {
      DataLongIs(p, vs[0]);
      DataLongAppends(p, vs[0]);
      DataLongsRest(p, LongStep(p, Rom, vs[0]), vs);
    }
  }

  lemma {:induction false} DataLongsRest(p: Pass, q: Pass, vs: seq<LongValue>)
    requires vs != [] && OnlyData(p, q) && p.section.Data? && Appends(p.dataBytes, q.dataBytes, 4, 4, StoredNow(vs[0]))
    ensures var r := LongSteps(q, Rom, vs[1..]); OnlyData(p, r) && AppendsAll(p.dataBytes, r.dataBytes, 4, 4, Stored(vs))
    decreases |vs|, 0
  {
    DataLongs(q, vs[1..]);
    assert Stored(vs)[1..] == Stored(vs[1..]);
  }

  predicate SameReloc(p: Pass, r: Pass, k: nat) {
    (k in r.relocs <==> k in p.relocs) && (k in p.relocs ==> r.relocs[k] == p.relocs[k])
  }

  /** No relocation below `limit` changed. */
  ghost predicate SameBelow(p: Pass, r: Pass, limit: nat) {
    forall k: nat :: k < limit ==> SameReloc(p, r, k)
  }

  /** The counter is right, and no relocation lies past the data. */
  ghost predicate InBounds(p: Pass) {
    p.dataOffset == |p.dataBytes| && forall k :: k in p.relocs ==> k < p.dataOffset
  }

  /** The values of a `.long` in `.data` stand side by side from the first word boundary `at` on, labels under a relocation,
      and no other relocation changes. */
  lemma {:induction false} DataLongsRelocated(p: Pass, vs: seq<LongValue>) returns (at: nat)
    requires InBounds(p) && p.section.Data?
    ensures RoundsUp(p.dataOffset, 4, at)
    ensures var r := LongSteps(p, Rom, vs);
      && r.dataOffset == |r.dataBytes| == (if vs == [] then p.dataOffset else at + 4 * |vs|)
      && (forall i :: 0 <= i < |vs| ==> RelocatedAs(r, at + 4 * i, vs[i])) && SameBelow(p, r, p.dataOffset) && InBounds(r)
    decreases |vs|, 1
  {
    at := p.dataOffset + Padding(p.dataOffset, 4);
    PadRounds(p.dataOffset, 4);
    if vs != [] {
      OneRelocated(p, vs[0], at);
      RestRelocated(p, LongStep(p, Rom, vs[0]), vs, at);
    }
  }

  /** The same for all values but the first, which led from `p` to `q`. */
  lemma {:induction false} RestRelocated(p: Pass, q: Pass, vs: seq<LongValue>, at: nat)
    requires vs != [] && q.section.Data? && InBounds(q) && q.dataOffset == at + 4 && at % 4 == 0 && p.dataOffset <= at
    requires RelocatedAs(q, at, vs[0]) && SameBelow(p, q, p.dataOffset)
    ensures var r := LongSteps(q, Rom, vs[1..]);
      && r.dataOffset == |r.dataBytes| == at + 4 * |vs|
      && (forall i :: 0 <= i < |vs| ==> RelocatedAs(r, at + 4 * i, vs[i])) && SameBelow(p, r, p.dataOffset) && InBounds(r)
    decreases |vs|, 0
  {
    var next := DataLongsRelocated(q, vs[1..]);
    NextToAligned(at + 4, 4, next);
    RelocatedThen(p, q, LongSteps(q, Rom, vs[1..]), at, vs);
  }

  lemma RelocatedThen(p: Pass, q: Pass, r: Pass, at: nat, vs: seq<LongValue>)
    requires vs != [] && p.dataOffset <= at && RelocatedAs(q, at, vs[0]) && SameBelow(p, q, p.dataOffset) && SameBelow(q, r, at + 4)
    requires forall i :: 0 <= i < |vs[1..]| ==> RelocatedAs(r, at + 4 + 4 * i, vs[1..][i])
    ensures (forall i :: 0 <= i < |vs| ==> RelocatedAs(r, at + 4 * i, vs[i])) && SameBelow(p, r, p.dataOffset)
  {
    assert SameReloc(q, r, at);
    forall i | 0 <= i < |vs| ensures RelocatedAs(r, at + 4 * i, vs[i]) {
      assert i > 0 ==> RelocatedAs(r, at + 4 + 4 * (i - 1), vs[1..][i - 1]);
    }
    forall k: nat | k < p.dataOffset ensures SameReloc(p, r, k) {
      assert SameReloc(p, q, k) && SameReloc(q, r, k);
    }
  }

  lemma OneRelocated(p: Pass, v: LongValue, at: nat)
    requires InBounds(p) && p.section.Data? && at == p.dataOffset + Padding(p.dataOffset, 4)
    ensures var q := LongStep(p, Rom, v);
      q.section == p.section && q.dataOffset == at + 4 && RelocatedAs(q, at, v) && SameBelow(p, q, p.dataOffset) && InBounds(q)
  {
    DataLongIs(p, v);
  }

  /** The word at `at` is relocated by what `v` names, or not at all. */
  predicate RelocatedAs(r: Pass, at: int, v: LongValue) {
    0 <= at && (at in r.relocs <==> v.Address?) && (v.Address? ==> r.relocs[at] == v.e)
  }

  // ---------------------------------------------------------------------------
  // Where a line puts what it emits
  // ---------------------------------------------------------------------------

  datatype Place = InData | InBss | InImage

  function PlaceOf(p: Pass, mode: Mode): Place {
    if mode.Ram? || p.section.Text? then InImage else if p.section.Data? then InData else InBss
  }

  predicate OnlyData(p: Pass, r: Pass) {
    r == p.(dataBytes := r.dataBytes, dataOffset := |r.dataBytes|, relocs := r.relocs, errors := r.errors)
  }

  predicate OnlyBss(p: Pass, r: Pass) { r == p.(bssOffset := r.bssOffset, errors := r.errors) }

  predicate OnlyWaiting(p: Pass, r: Pass) { r == p.(pendingBytes := r.pendingBytes, errors := r.errors) }

  /** Nothing but the image changed, and no byte of it waits. */
  predicate OnlyImage(p: Pass, r: Pass) {
    r == p.(items := r.items, romAddress := |r.items|, textStart := r.textStart, pendingBytes := [], errors := r.errors)
  }

  /** What was emitted up to `p`, and then known zeros up to a multiple of `unit`, are the words `items`. */
  ghost predicate FillsUp(p: Pass, unit: nat, items: seq<Item>)
    requires unit > 0
  {
    && RoundsUp(|Image(p)|, unit, 4 * |items|)
    && Cells(items) == Image(p) + Knowns(Zeros(4 * |items| - |Image(p)|))
  }

  /** Numbers of `width` bytes, aligned in the two RAM sections. */
  ghost predicate Numbers(p: Pass, mode: Mode, r: Pass, width: nat, vs: seq<int>)
    requires width == 1 || width == 2 || width == 4
  {
    match PlaceOf(p, mode)
    case InData => OnlyData(p, r) && AppendsAll(p.dataBytes, r.dataBytes, width, width, vs)
    case InBss =>
      OnlyBss(p, r) && BssTakes(p, r, width, |vs|)
    case InImage => OnlyWaiting(p, r) && AppendsAll(p.pendingBytes, r.pendingBytes, 1, width, vs)
  }

  /** Bytes as they are. */
  predicate Verbatim(p: Pass, mode: Mode, r: Pass, text: seq<byte>) {
    match PlaceOf(p, mode)
    case InData => OnlyData(p, r) && r.relocs == p.relocs && r.dataBytes == p.dataBytes + text
    case InBss => OnlyBss(p, r) && r.bssOffset == p.bssOffset + |text|
    case InImage => OnlyWaiting(p, r) && r.pendingBytes == p.pendingBytes + text
  }

  /** The word of a `.long` in the image: the number, or the label whose address it will be. */
  predicate LongWord(item: Item, v: LongValue) {
    match v
    case Number(n) => item.Raw? && (item.v - n) % 0x1_0000_0000 == 0
    case Address(e) => item == RawAddress(e)
    case Malformed => item == Raw(0)
  }

  /** The last words of the data are relocated by the values of a `.long`, and nothing before them is touched. */
  ghost predicate Relocations(p: Pass, r: Pass, vs: seq<LongValue>) {
    && (forall i :: 0 <= i < |vs| ==> RelocatedAs(r, |r.dataBytes| - 4 * (|vs| - i), vs[i]))
    && SameBelow(p, r, |p.dataBytes|)
  }

  ghost predicate Words(p: Pass, r: Pass, vs: seq<LongValue>) {
    && OnlyImage(p, r) && |r.items| >= |vs|
    && var n := |r.items| - |vs|;
       FillsUp(p, 4, r.items[..n]) && forall i :: 0 <= i < |vs| ==> LongWord(r.items[n + i], vs[i])
  }

  ghost predicate Aligned(p: Pass, mode: Mode, r: Pass, unit: nat)
    requires unit > 0
  {
    match PlaceOf(p, mode)
    case InData =>
      && OnlyData(p, r) && r.relocs == p.relocs && RoundsUp(|p.dataBytes|, unit, |r.dataBytes|)
      && p.dataBytes <= r.dataBytes && AllZero(r.dataBytes[|p.dataBytes|..])
    case InBss => OnlyBss(p, r) && RoundsUp(p.bssOffset, unit, r.bssOffset)
    case InImage => OnlyImage(p, r) && FillsUp(p, if unit < 4 then 4 else unit, r.items)
  }

  predicate BadName(p: Pass, name: Option<string>) { name.None? || name.value in p.labels }

  /** Room for a symbol: in `.bss`, or in RAM mode zero words of the image. */
  ghost predicate Reserved(p: Pass, mode: Mode, r: Pass, name: string, size: nat, align: nat) {
    && name in r.labels && r.labels == p.labels[name := r.labels[name]]
    && if mode.Rom? then
         && r == p.(labels := r.labels, bssOffset := r.bssOffset) && r.bssOffset >= size
         && RoundsUp(p.bssOffset, if align == 0 then 1 else align, r.bssOffset - size)
         && r.labels[name] == 0x0B55_0000 + r.bssOffset - size
       else
         && r == p.(labels := r.labels, items := r.items, romAddress := |r.items|)
         && p.items <= r.items && (forall i :: |p.items| <= i < |r.items| ==> r.items[i] == Raw(0))
         && 0 <= r.labels[name] <= |r.items| && RoundsUp(|p.items|, if align < 4 then 1 else align / 4, r.labels[name])
         && RoundsUp(size, 4, 4 * (|r.items| - r.labels[name]))
  }

  /** The address of what comes next. */
  function NextPlace(p: Pass, mode: Mode, words: nat): nat {
    match PlaceOf(p, mode)
    case InData => 0x0400_0000 + |p.dataBytes|
    case InBss => 0x0B55_0000 + p.bssOffset
    case InImage => words
  }

  /** One instruction in the next whole word. */
  ghost predicate OneInstruction(p: Pass, r: Pass, source: Source) {
    OnlyImage(p, r) && r.items != [] && FillsUp(p, 4, Front(r.items)) && Last(r.items) == Deferred(source)
  }

  ghost predicate Labelled(p: Pass, mode: Mode, r: Pass, name: Option<string>, rest: Option<Source>) {
    if BadName(p, name) then OnlyImage(p, r) && FillsUp(p, 4, r.items)
    else
      var words := if rest.Some? then |r.items| - 1 else |r.items|;
      && words >= 0 && r.labels == p.labels[name.value := NextPlace(p, mode, words)]
      && if rest.Some? then OneInstruction(p, r.(labels := p.labels), rest.value)
         else OnlyImage(p, r.(labels := p.labels)) && FillsUp(p, 4, r.items)
  }

  /** What the line says, done to `p`, gives `r`; where `.text` starts and the count of errors apart. */
  ghost predicate Emitted(p: Pass, mode: Mode, line: Line, r: Pass) {
    match line
    case Enter(section) => r == p.(section := section)
    case Comm(name, size, align) => if BadName(p, name) then r == p.(errors := r.errors) else Reserved(p, mode, r, name.value, size, align)
    case Align(n) => Aligned(p, mode, r, Pow2(n))
    case Long(vs) =>
      if PlaceOf(p, mode).InImage? && vs != [] then Words(p, r, vs)
      else Numbers(p, mode, r, 4, Stored(vs)) && (PlaceOf(p, mode).InData? ==> Relocations(p, r, vs))
    case Short(vs) => Numbers(p, mode, r, 2, OrZero(vs)) && r.relocs == p.relocs
    case Bytes(vs) => Numbers(p, mode, r, 1, OrZero(vs)) && r.relocs == p.relocs
    case Ascii(text) => Verbatim(p, mode, r, text)
    case Zero(n) => Verbatim(p, mode, r, Zeros(n))
    case Label(name, rest) => Labelled(p, mode, r, name, rest)
    case Instruction(source) => OneInstruction(p, r, source)
    case Ignored => r == p
  }

  // Numbers outside `.data`

  lemma ImageShort(p: Pass, mode: Mode, v: Option<int>)
    requires InRom(p, mode)
    ensures var r := ShortStep(p, mode, v);
      OnlyWaiting(p, r) && Appends(p.pendingBytes, r.pendingBytes, 1, 2, if v.Some? then v.value else 0)
  {
    var n := if v.Some? then v.value % 0x1_0000 else 0;
    TwoBytes(n % 0x100, n / 0x100);
    ZerosThen(p.pendingBytes, 0, [n % 0x100, n / 0x100], 1, if v.Some? then v.value else 0);
    assert p.pendingBytes + Zeros(0) + [n % 0x100, n / 0x100] == p.pendingBytes + [n % 0x100, n / 0x100];
  }

  lemma {:induction false} ImageShorts(p: Pass, mode: Mode, vs: seq<Option<int>>)
    requires InRom(p, mode)
    ensures var r := ShortSteps(p, mode, vs); OnlyWaiting(p, r) && AppendsAll(p.pendingBytes, r.pendingBytes, 1, 2, OrZero(vs))
    decreases |vs|
  {
    if vs != [] {
      ImageShort(p, mode, vs[0]);
      ImageShorts(ShortStep(p, mode, vs[0]), mode, vs[1..]);
      assert OrZero(vs)[1..] == OrZero(vs[1..]);
    }
  }

  lemma ImageByte(p: Pass, mode: Mode, v: Option<int>)
    requires InRom(p, mode)
    ensures var r := ByteStep(p, mode, v);
      OnlyWaiting(p, r) && Appends(p.pendingBytes, r.pendingBytes, 1, 1, if v.Some? then v.value else 0)
  {
    var n: byte := if v.Some? then v.value % 0x100 else 0;
    TwoBytes(n, n);
    ZerosThen(p.pendingBytes, 0, [n], 1, if v.Some? then v.value else 0);
    assert p.pendingBytes + Zeros(0) + [n] == p.pendingBytes + [n];
  }

  lemma {:induction false} ImageBytes(p: Pass, mode: Mode, vs: seq<Option<int>>)
    requires InRom(p, mode)
    ensures var r := ByteSteps(p, mode, vs); OnlyWaiting(p, r) && AppendsAll(p.pendingBytes, r.pendingBytes, 1, 1, OrZero(vs))
    decreases |vs|
  {
    if vs != [] {
      ImageByte(p, mode, vs[0]);
      ImageBytes(ByteStep(p, mode, vs[0]), mode, vs[1..]);
      assert OrZero(vs)[1..] == OrZero(vs[1..]);
    }
  }

  lemma NextToAligned(x: nat, unit: nat, r: nat)
    requires (unit == 1 || unit == 2 || unit == 4) && x % unit == 0 && RoundsUp(x, unit, r)
    ensures r == x
  {
  }

  lemma {:induction false} BssShorts(p: Pass, vs: seq<Option<int>>)
    requires p.section.Bss?
    ensures var r := ShortSteps(p, Rom, vs); OnlyBss(p, r) && BssTakes(p, r, 2, |vs|) && (vs == [] ==> r == p)
    decreases |vs|
  {
    if vs != [] {
      PadRounds(p.bssOffset, 2);
      var q := ShortStep(p, Rom, vs[0]);
      BssShorts(q, vs[1..]);
      TakesThen(p.bssOffset, 2, q.bssOffset, ShortSteps(p, Rom, vs).bssOffset, |vs| - 1);
    }
  }

  /** Room for `n` numbers of `width` bytes behind the padding. */
  predicate BssTakes(p: Pass, r: Pass, width: nat, n: nat)
    requires width > 0
  {
    if n == 0 then r.bssOffset == p.bssOffset else r.bssOffset >= width * n && RoundsUp(p.bssOffset, width, r.bssOffset - width * n)
  }

  lemma TakesThen(x: nat, width: nat, mid: nat, r: nat, n: nat)
    requires (width == 2 || width == 4) && mid >= width && RoundsUp(x, width, mid - width)
    requires if n == 0 then r == mid else r >= width * n && RoundsUp(mid, width, r - width * n)
    ensures r >= width * (n + 1) && RoundsUp(x, width, r - width * (n + 1))
  {
    assert mid % width == 0;
    if n > 0 { NextToAligned(mid, width, r - width * n); }
  }

  lemma {:induction false} BssBytes(p: Pass, vs: seq<Option<int>>)
    requires p.section.Bss?
    ensures var r := ByteSteps(p, Rom, vs); OnlyBss(p, r) && r.bssOffset == p.bssOffset + |vs| && (vs == [] ==> r == p)
    decreases |vs|
  {
    if vs != [] {
      BssBytes(ByteStep(p, Rom, vs[0]), vs[1..]);
    }
  }

  lemma {:induction false} BssLongs(p: Pass, vs: seq<LongValue>)
    requires p.section.Bss?
    ensures var r := LongSteps(p, Rom, vs); OnlyBss(p, r) && BssTakes(p, r, 4, |vs|) && (vs == [] ==> r == p)
    decreases |vs|
  {
    if vs != [] {
      PadRounds(p.bssOffset, 4);
      var q := LongStep(p, Rom, vs[0]);
      BssLongs(q, vs[1..]);
      TakesThen(p.bssOffset, 4, q.bssOffset, LongSteps(p, Rom, vs).bssOffset, |vs| - 1);
    }
  }

  // The image

  lemma {:induction false} EmitWordsCounts(p: Pass, bytes: seq<byte>)
    requires |bytes| % 4 == 0
    ensures EmitWords(p, bytes).romAddress - p.romAddress == |EmitWords(p, bytes).items| - |p.items|
    decreases |bytes|
  {
    if bytes != [] {
      EmitWordsCounts(Emit(p, Raw(WordOf(bytes[0], bytes[1], bytes[2], bytes[3]))), bytes[4..]);
    }
  }

  lemma FlushCounts(p: Pass)
    requires p.romAddress == |p.items|
    ensures OnlyImage(p, Flush(p)) && Flush(p).errors == p.errors
  {
    FlushSame(p);
    if p.pendingBytes != [] { EmitWordsCounts(p, Padded(p.pendingBytes)); }
  }

  lemma PadImage(words: nat, waiting: nat)
    ensures RoundsUp(4 * words + waiting, 4, 4 * words + waiting + Padding(waiting, 4))
  {
    assert (4 * words + waiting) % 4 == waiting % 4;
  }

  lemma FlushFills(p: Pass)
    requires p.romAddress == |p.items|
    ensures OnlyImage(p, Flush(p)) && FillsUp(p, 4, Flush(p).items) && Flush(p).errors == p.errors
  {
    FlushCounts(p);
    FlushImage(p);
    PadImage(|p.items|, |p.pendingBytes|);
    assert Knowns([]) == [];
    assert Image(Flush(p)) == Cells(Flush(p).items);
  }

  lemma {:induction false} ImageLongs(p: Pass, mode: Mode, vs: seq<LongValue>)
    requires InRom(p, mode) && p.pendingBytes == [] && p.romAddress == |p.items|
    ensures var r := LongSteps(p, mode, vs);
      && OnlyImage(p, r) && p.items <= r.items && |r.items| == |p.items| + |vs|
      && forall i :: 0 <= i < |vs| ==> LongWord(r.items[|p.items| + i], vs[i])
    decreases |vs|
  {
    if vs != [] {
      var q := LongStep(p, mode, vs[0]);
      var r := LongSteps(p, mode, vs);
      assert q.items == p.items + [LongItem(vs[0])] && LongWord(LongItem(vs[0]), vs[0]);
      ImageLongs(q, mode, vs[1..]);
      assert r.items[|p.items|] == q.items[|p.items|];
      forall i | 0 <= i < |vs| ensures LongWord(r.items[|p.items| + i], vs[i]) {
        assert i > 0 ==> LongWord(r.items[|q.items| + (i - 1)], vs[1..][i - 1]);
      }
    }
  }

  lemma FirstLong(p: Pass, mode: Mode, v: LongValue)
    requires InRom(p, mode) && p.romAddress == |p.items|
    ensures var r := LongStep(p, mode, v); OnlyImage(p, r) && r.items == Flush(p).items + [LongItem(v)]
  {
    FlushCounts(p);
    FlushIgnoresErrors(p);
  }

  lemma FlushIgnoresErrors(p: Pass)
    ensures Flush(p.(errors := p.errors + 1)) == Flush(p).(errors := p.errors + 1)
  {
    if p.pendingBytes != [] { EmitWordsErrors(p, Padded(p.pendingBytes)); }
    FlushSame(p);
  }

  lemma {:induction false} EmitWordsErrors(p: Pass, bytes: seq<byte>)
    requires |bytes| % 4 == 0
    ensures EmitWords(p.(errors := p.errors + 1), bytes) == EmitWords(p, bytes).(errors := p.errors + 1)
    decreases |bytes|
  {
    if bytes != [] {
      EmitWordsErrors(Emit(p, Raw(WordOf(bytes[0], bytes[1], bytes[2], bytes[3]))), bytes[4..]);
    }
  }

  lemma LongsEmitted(p: Pass, mode: Mode, vs: seq<LongValue>)
    requires InRom(p, mode) && p.romAddress == |p.items| && vs != []
    ensures Words(p, LongSteps(p, mode, vs), vs)
  {
    FlushFills(p);
    FirstLong(p, mode, vs[0]);
    RestEmitted(p, LongStep(p, mode, vs[0]), mode, vs, Flush(p).items);
    MakeWords(p, LongSteps(p, mode, vs), vs, Flush(p).items);
  }

  lemma MakeWords(p: Pass, r: Pass, vs: seq<LongValue>, flushed: seq<Item>)
    requires FillsUp(p, 4, flushed) && OnlyImage(p, r) && |r.items| == |flushed| + |vs| && r.items[..|flushed|] == flushed
    requires forall i :: 0 <= i < |vs| ==> LongWord(r.items[|flushed| + i], vs[i])
    ensures Words(p, r, vs)
  {
  }

  lemma RestEmitted(p: Pass, q: Pass, mode: Mode, vs: seq<LongValue>, flushed: seq<Item>)
    requires vs != [] && OnlyImage(p, q) && InRom(q, mode) && q.items == flushed + [LongItem(vs[0])]
    ensures var r := LongSteps(q, mode, vs[1..]);
      && OnlyImage(p, r) && |r.items| == |flushed| + |vs| && r.items[..|flushed|] == flushed
      && forall i :: 0 <= i < |vs| ==> LongWord(r.items[|flushed| + i], vs[i])
  {
    ImageLongs(q, mode, vs[1..]);
    var r := LongSteps(q, mode, vs[1..]);
    OnlyImageThen(p, q, r);
    PrefixOfItems(flushed, q.items, r.items);
    WordsFollow(q.items, r.items, vs, |flushed|);
  }

  lemma PrefixOfItems(flushed: seq<Item>, first: seq<Item>, all: seq<Item>)
    requires flushed <= first <= all
    ensures all[..|flushed|] == flushed
  {
  }

  lemma OnlyImageThen(p: Pass, q: Pass, r: Pass)
    requires OnlyImage(p, q) && OnlyImage(q, r)
    ensures OnlyImage(p, r)
  {
  }

  lemma WordsFollow(first: seq<Item>, all: seq<Item>, vs: seq<LongValue>, n: nat)
    requires vs != [] && |first| == n + 1 && first <= all && |all| == n + |vs| && first[n] == LongItem(vs[0])
    requires forall i :: 0 <= i < |vs[1..]| ==> LongWord(all[n + 1 + i], vs[1..][i])
    ensures forall i :: 0 <= i < |vs| ==> LongWord(all[n + i], vs[i])
  {
    forall i | 0 <= i < |vs| ensures LongWord(all[n + i], vs[i]) {
      assert i > 0 ==> LongWord(all[n + 1 + (i - 1)], vs[1..][i - 1]);
    }
  }

  // Alignment, reserved room, labels and instructions

  /** Padding rounds up, for every unit. */
  lemma PadRoundsAny(x: nat, unit: nat)
    requires unit > 0
    ensures RoundsUp(x, unit, x + Padding(x, unit))
  {
    var q, m := x / unit, x % unit;
    assert x == q * unit + m;
    if m == 0 {
      MultipleMod(q, unit);
    } else {
      SmallMod(unit - m, unit);
      assert x + Padding(x, unit) == (q + 1) * unit;
      MultipleMod(q + 1, unit);
    }
  }

  lemma SmallMod(a: nat, unit: nat)
    requires a < unit
    ensures a % unit == a
  {
  }

  lemma MultipleMod(q: nat, unit: nat)
    requires unit > 0
    ensures (q * unit) % unit == 0
  {
    Remainder(q * unit, unit, q);
  }

  lemma Remainder(x: nat, unit: nat, q: nat)
    requires unit > 0 && x == q * unit
    ensures x % unit == 0
  {
    DivisionIsUnique(x, unit, q, 0, x / unit, x % unit);
  }

  /** Words rounded up to a power of two are bytes rounded up to four times that. */
  lemma {:induction false} PowerWords(n: nat)
    ensures if n < 2 then Pow2(n) / 4 == 0 && Pow2(n) < 4 else Pow2(n) == 4 * (Pow2(n) / 4) && Pow2(n) / 4 == Pow2(n - 2)
  {
    if n >= 2 {
      assert Pow2(n) == 2 * Pow2(n - 1) == 4 * Pow2(n - 2);
    }
  }

  lemma FourTimes(x: nat, unit: nat, r: nat)
    requires unit > 0 && RoundsUp(x, unit, r)
    ensures RoundsUp(4 * x, 4 * unit, 4 * r)
  {
    var q := r / unit;
    assert r == q * unit;
    assert 4 * r == q * (4 * unit);
    Remainder(4 * r, 4 * unit, q);
  }

  /** Rounding up to words and then to a multiple of words is rounding up once. */
  lemma RoundTwice(x: nat, unit: nat, mid: nat, r: nat)
    requires unit > 0 && RoundsUp(x, 4, mid) && RoundsUp(mid, 4 * unit, r)
    ensures RoundsUp(x, 4 * unit, r)
  {
    var t, m := (r / (4 * unit)) * unit, mid / 4;
    assert r == (r / (4 * unit)) * (4 * unit) == 4 * t && mid == 4 * m;
    assert t <= m + unit - 1;
  }

  lemma DataAligned(p: Pass, n: nat)
    requires p.dataOffset == |p.dataBytes| && p.section.Data?
    ensures Aligned(p, Rom, AlignStep(p, Rom, n), Pow2(n))
  {
    PadRoundsAny(p.dataOffset, Pow2(n));
    var r := AlignStep(p, Rom, n);
    assert r.dataBytes[|p.dataBytes|..] == Zeros(Padding(p.dataOffset, Pow2(n)));
  }

  lemma ImageAligned(p: Pass, mode: Mode, n: nat)
    requires InRom(p, mode) && p.romAddress == |p.items|
    ensures Aligned(p, mode, AlignStep(p, mode, n), Pow2(n))
  {
    var q, unit := Flush(p), Max1(Pow2(n) / 4);
    FlushFills(p);
    AlignPads(p, mode, n);
    AlignedFill(p, q, unit);
    PowerWords(n);
  }

  lemma AlignPads(p: Pass, mode: Mode, n: nat)
    requires InRom(p, mode) && p.romAddress == |p.items|
    ensures var q, r := Flush(p), AlignStep(p, mode, n);
      OnlyImage(p, r) && r.items == q.items + seq(Padding(|q.items|, Max1(Pow2(n) / 4)), _ => Raw(0))
  {
    FlushCounts(p);
    assert Flush(p).items + seq(0, _ => Raw(0)) == Flush(p).items;
  }

  lemma AlignedFill(p: Pass, q: Pass, unit: nat)
    requires unit > 0 && FillsUp(p, 4, q.items)
    ensures FillsUp(p, 4 * unit, q.items + seq(Padding(|q.items|, unit), _ => Raw(0)))
  {
    var pad := Padding(|q.items|, unit);
    PadRoundsAny(|q.items|, unit);
    FourTimes(|q.items|, unit, |q.items| + pad);
    RoundTwice(|Image(p)|, unit, 4 * |q.items|, 4 * (|q.items| + pad));
    FillMore(p, q, pad, 4 * unit);
  }

  lemma FillMore(p: Pass, q: Pass, pad: nat, unit: nat)
    requires FillsUp(p, 4, q.items) && unit > 0 && RoundsUp(|Image(p)|, unit, 4 * (|q.items| + pad))
    ensures FillsUp(p, unit, q.items + seq(pad, _ => Raw(0)))
  {
    EmitZerosImage(q, pad);
    assert EmitZeros(q, pad).items == q.items + seq(pad, _ => Raw(0));
    var first := 4 * |q.items| - |Image(p)|;
    assert Knowns(Zeros(first)) + Knowns(Zeros(4 * pad)) == Knowns(Zeros(first + 4 * pad));
  }

  lemma CommReserved(p: Pass, mode: Mode, name: string, size: nat, align: nat)
    requires p.romAddress == |p.items| && name !in p.labels
    ensures Reserved(p, mode, CommStep(p, mode, Some(name), size, align), name, size, align)
  {
    if mode.Rom? {
      PadRoundsAny(p.bssOffset, Max1(align));
    } else {
      PadRoundsAny(p.romAddress, Max1(align / 4));
    }
  }

  lemma InstructionEmitted(p: Pass, source: Source)
    requires p.romAddress == |p.items|
    ensures OneInstruction(p, InstructionStep(p, source), source)
  {
    FlushFills(p);
    assert Front(InstructionStep(p, source).items) == Flush(p).items;
  }

  lemma LabelEmitted(p: Pass, mode: Mode, name: Option<string>, rest: Option<Source>)
    requires p.romAddress == |p.items| && p.dataOffset == |p.dataBytes|
    ensures Labelled(p, mode, LabelStep(p, mode, name, rest), name, rest)
  {
    FlushFills(p);
    if !BadName(p, name) && rest.Some? {
      LabelThenInstruction(p, mode, name.value, rest.value);
    }
  }

  lemma LabelThenInstruction(p: Pass, mode: Mode, name: string, source: Source)
    requires p.romAddress == |p.items| && p.dataOffset == |p.dataBytes| && name !in p.labels
    ensures Labelled(p, mode, LabelStep(p, mode, Some(name), Some(source)), Some(name), Some(source))
  {
    FlushFills(p);
    var q := Flush(p);
    InstructionBehind(q, q.(labels := q.labels[name := Here(q, mode)]), source);
  }

  lemma InstructionBehind(q: Pass, r: Pass, source: Source)
    requires q.pendingBytes == [] && r == q.(labels := r.labels) && q.romAddress == |q.items|
    ensures var s := InstructionStep(r, source);
      && s == r.(items := q.items + [Deferred(source)], romAddress := |q.items| + 1, textStart := s.textStart)
      && Front(s.items) == q.items && Last(s.items) == Deferred(source)
  {
  }

  lemma TextEmitted(p: Pass, mode: Mode, text: seq<byte>)
    requires p.dataOffset == |p.dataBytes|
    ensures Verbatim(p, mode, PutBytes(p, mode, text), text)
  {
  }

  lemma LongsAnywhere(p: Pass, mode: Mode, vs: seq<LongValue>)
    requires p.romAddress == |p.items| && InBounds(p)
    ensures Emitted(p, mode, Long(vs), LongSteps(p, mode, vs))
  {
    match PlaceOf(p, mode)
    case InData =>
      DataLongs(p, vs);
      var at := DataLongsRelocated(p, vs);
    case InBss => BssLongs(p, vs);
    case InImage => if vs != [] { LongsEmitted(p, mode, vs); }
  }

  lemma ShortsAnywhere(p: Pass, mode: Mode, vs: seq<Option<int>>)
    requires p.dataOffset == |p.dataBytes|
    ensures Emitted(p, mode, Short(vs), ShortSteps(p, mode, vs))
  {
    match PlaceOf(p, mode)
    case InData => DataShorts(p, vs);
    case InBss => BssShorts(p, vs);
    case InImage => ImageShorts(p, mode, vs);
  }

  lemma BytesAnywhere(p: Pass, mode: Mode, vs: seq<Option<int>>)
    requires p.dataOffset == |p.dataBytes|
    ensures Emitted(p, mode, Bytes(vs), ByteSteps(p, mode, vs))
  {
    match PlaceOf(p, mode)
    case InData => DataBytes(p, vs);
    case InBss => BssBytes(p, vs);
    case InImage => ImageBytes(p, mode, vs);
  }

  lemma AlignAnywhere(p: Pass, mode: Mode, n: nat)
    requires p.romAddress == |p.items| && p.dataOffset == |p.dataBytes|
    ensures Emitted(p, mode, Align(n), AlignStep(p, mode, n))
  {
    match PlaceOf(p, mode)
    case InData => DataAligned(p, n);
    case InBss => PadRoundsAny(p.bssOffset, Pow2(n));
    case InImage => ImageAligned(p, mode, n);
  }

  /** Every line of every program does exactly what it says, wherever the program stands. */
  lemma LineEmits(p: Pass, mode: Mode, line: Line)
    requires p.romAddress == |p.items| && InBounds(p)
    ensures Emitted(p, mode, line, Step(p, mode, line))
  {
    match line
    case Enter(section) =>
    case Comm(name, size, align) => if !BadName(p, name) { CommReserved(p, mode, name.value, size, align); }
    case Align(n) => AlignAnywhere(p, mode, n);
    case Long(vs) => LongsAnywhere(p, mode, vs);
    case Short(vs) => ShortsAnywhere(p, mode, vs);
    case Bytes(vs) => BytesAnywhere(p, mode, vs);
    case Ascii(text) => TextEmitted(p, mode, text);
    case Zero(n) => TextEmitted(p, mode, Zeros(n));
    case Label(name, rest) => LabelEmitted(p, mode, name, rest);
    case Instruction(source) => InstructionEmitted(p, source);
    case Ignored =>
  }

  /** Each line of a program does what it says to what the lines before it left. */
  lemma ProgramEmits(mode: Mode, lines: seq<Line>, n: nat)
    requires n < |lines|
    ensures Emitted(Lines(mode, lines[..n]), mode, lines[n], Lines(mode, lines[..n + 1]))
  {
    LinesCounted(mode, lines[..n], 0);
    OneMoreLine(mode, lines, n);
    LineEmits(Lines(mode, lines[..n]), mode, lines[n]);
  }

  lemma OneMoreLine(mode: Mode, lines: seq<Line>, n: nat)
    requires n < |lines|
    ensures Lines(mode, lines[..n + 1]) == Step(Lines(mode, lines[..n]), mode, lines[n])
  {
    assert Front(lines[..n + 1]) == lines[..n] && Last(lines[..n + 1]) == lines[n];
  }

  // ---------------------------------------------------------------------------
  // Where `.text` starts
  // ---------------------------------------------------------------------------

  /** The line puts words into the image while in `.text`; `.comm` does not count. */
  predicate MarksText(p: Pass, line: Line, r: Pass) {
    p.section.Text? && !line.Comm? && |r.items| > |p.items|
  }

  lemma {:induction false} EmitWordsMark(p: Pass, bytes: seq<byte>)
    requires |bytes| % 4 == 0 && p.romAddress == |p.items|
    ensures EmitWords(p, bytes).textStart == if bytes == [] then p.textStart else MarkTextStart(p).textStart
    ensures bytes != [] ==> |EmitWords(p, bytes).items| > |p.items|
    decreases |bytes|
  {
    if bytes != [] {
      EmitWordsMark(Emit(p, Raw(WordOf(bytes[0], bytes[1], bytes[2], bytes[3]))), bytes[4..]);
    }
  }

  lemma FlushMarks(p: Pass)
    requires p.romAddress == |p.items|
    ensures var r := Flush(p);
      && r.romAddress == |r.items| && (r.items == p.items || |r.items| > |p.items|)
      && r.textStart == if |r.items| > |p.items| then MarkTextStart(p).textStart else p.textStart
  {
    FlushCounts(p);
    if p.pendingBytes != [] { EmitWordsMark(p, Padded(p.pendingBytes)); }
  }

  /** What `.text` starts with is what the first such line puts there. */
  ghost predicate StartsText(p: Pass, line: Line, r: Pass) {
    r.textStart == if p.textStart.None? && MarksText(p, line, r) then Some(|p.items|) else p.textStart
  }

  lemma {:induction false} LongsMark(p: Pass, mode: Mode, vs: seq<LongValue>)
    requires p.romAddress == |p.items|
    ensures StartsText(p, Long(vs), LongSteps(p, mode, vs)) && |LongSteps(p, mode, vs).items| >= |p.items|
    ensures LongSteps(p, mode, vs).romAddress == |LongSteps(p, mode, vs).items|
    decreases |vs|
  {
    if vs != [] {
      OneLongMarks(p, mode, vs[0]);
      LongsMark(LongStep(p, mode, vs[0]), mode, vs[1..]);
    }
  }

  lemma OneLongMarks(p: Pass, mode: Mode, v: LongValue)
    requires p.romAddress == |p.items|
    ensures var r := LongStep(p, mode, v);
      && StartsText(p, Long([v]), r) && r.romAddress == |r.items| >= |p.items| && r.section == p.section
      && (InRom(p, mode) ==> |r.items| > |p.items|)
  {
    var p0 := if v.Malformed? then p.(errors := p.errors + 1) else p;
    if InRom(p, mode) {
      FlushMarks(p0);
      FlushCounts(p0);
    }
  }

  lemma AlignMarks(p: Pass, mode: Mode, n: nat)
    requires p.romAddress == |p.items|
    ensures StartsText(p, Align(n), AlignStep(p, mode, n))
  {
    if InRom(p, mode) {
      FlushMarks(p);
      FlushCounts(p);
      var q, pad := Flush(p), Padding(|Flush(p).items|, Max1(Pow2(n) / 4));
      if pad > 0 {
        assert |EmitZeros(MarkTextStart(q), pad).items| == |q.items| + pad;
      }
    }
  }

  lemma {:induction false} ShortsMark(p: Pass, mode: Mode, vs: seq<Option<int>>)
    ensures ShortSteps(p, mode, vs).textStart == p.textStart && ShortSteps(p, mode, vs).items == p.items
    decreases |vs|
  {
    if vs != [] { ShortsMark(ShortStep(p, mode, vs[0]), mode, vs[1..]); }
  }

  lemma {:induction false} BytesMark(p: Pass, mode: Mode, vs: seq<Option<int>>)
    ensures ByteSteps(p, mode, vs).textStart == p.textStart && ByteSteps(p, mode, vs).items == p.items
    decreases |vs|
  {
    if vs != [] { BytesMark(ByteStep(p, mode, vs[0]), mode, vs[1..]); }
  }

  lemma InstructionMarks(p: Pass, source: Source)
    requires p.romAddress == |p.items|
    ensures StartsText(p, Instruction(source), InstructionStep(p, source))
  {
    FlushMarks(p);
    FlushCounts(p);
    assert |InstructionStep(p, source).items| == |Flush(p).items| + 1;
  }

  lemma LabelMarks(p: Pass, mode: Mode, name: Option<string>, rest: Option<Source>)
    requires p.romAddress == |p.items|
    ensures StartsText(p, Label(name, rest), LabelStep(p, mode, name, rest))
  {
    FlushMarks(p);
    FlushCounts(p);
    if !BadName(p, name) && rest.Some? {
      var q := Flush(p);
      var r := q.(labels := q.labels[name.value := Here(q, mode)]);
      assert Flush(r) == r && LabelStep(p, mode, name, rest) == Emit(r, Deferred(rest.value));
    }
  }

  /** The start of `.text` is noted by the first line that puts words into the image in `.text`, as the word it puts first. */
  lemma TextStartIs(p: Pass, mode: Mode, line: Line)
    requires p.romAddress == |p.items|
    ensures StartsText(p, line, Step(p, mode, line))
  {
    match line
    case Enter(section) =>
    case Comm(name, size, align) =>
    case Align(n) => AlignMarks(p, mode, n);
    case Long(vs) => LongsMark(p, mode, vs);
    case Short(vs) => ShortsMark(p, mode, vs);
    case Bytes(vs) => BytesMark(p, mode, vs);
    case Ascii(text) =>
    case Zero(n) =>
    case Label(name, rest) => LabelMarks(p, mode, name, rest);
    case Instruction(source) => InstructionMarks(p, source);
    case Ignored =>
  }

  ghost predicate MarksAt(mode: Mode, lines: seq<Line>, n: nat)
    requires n < |lines|
  {
    MarksText(Lines(mode, lines[..n]), lines[n], Lines(mode, lines[..n + 1]))
  }

  /** Line `n` is the first that puts words into the image in `.text`. */
  ghost predicate FirstMark(mode: Mode, lines: seq<Line>, n: nat)
    requires n < |lines|
  {
    MarksAt(mode, lines, n) && forall m: nat :: m < n ==> !MarksAt(mode, lines, m)
  }

  lemma MarksAlike(mode: Mode, lines: seq<Line>, m: nat)
    requires m + 1 < |lines|
    ensures MarksAt(mode, lines, m) <==> MarksAt(mode, Front(lines), m)
  {
    assert lines[..m] == Front(lines)[..m] && lines[..m + 1] == Front(lines)[..m + 1];
  }

  /** For every program: before closing, the start of `.text` is where the first such line begins, and unknown if there is none. */
  lemma {:induction false} TextStartOfProgram(mode: Mode, lines: seq<Line>)
    ensures var start := Lines(mode, lines).textStart;
      && (start.None? <==> forall n: nat :: n < |lines| ==> !MarksAt(mode, lines, n))
      && (start.Some? ==> exists n: nat :: n < |lines| && FirstMark(mode, lines, n) && start.value == |Lines(mode, lines[..n]).items|)
    decreases |lines|
  {
    if lines != [] {
      var k := |lines| - 1;
      var front := Front(lines);
      TextStartOfProgram(mode, front);
      LinesCounted(mode, front, 0);
      assert lines[..k] == front && lines[..k + 1] == lines;
      TextStartIs(Lines(mode, front), mode, Last(lines));
      forall m: nat | m < k ensures MarksAt(mode, lines, m) <==> MarksAt(mode, front, m) {
        MarksAlike(mode, lines, m);
      }
      if Lines(mode, front).textStart.Some? {
        var n: nat :| n < |front| && FirstMark(mode, front, n) && Lines(mode, front).textStart.value == |Lines(mode, front[..n]).items|;
        assert lines[..n] == front[..n];
        assert FirstMark(mode, lines, n);
      } else if MarksAt(mode, lines, k) {
        assert FirstMark(mode, lines, k);
      }
    }
  }

  /** One byte of `.text` that still waits when `.data` begins is put into the image there, and goes unnoticed. */
  lemma TextStartMissed(name: string)
    ensures var p := Lines(Rom, [Bytes([Some(1)]), Enter(Data), Label(Some(name), None)]);
      p.textStart == None && p.items == [Raw(1)]
  {
    var a, b := [Bytes([Some(1)])], [Bytes([Some(1)]), Enter(Data)];
    var c := [Bytes([Some(1)]), Enter(Data), Label(Some(name), None)];
    assert Front(a) == [] && Front(b) == a && Front(c) == b && [Some(1)][1..] == [];
    assert ByteSteps(Start(), Rom, [Some(1)]) == ByteStep(Start(), Rom, Some(1));
    var q := Lines(Rom, b);
    assert q == Start().(pendingBytes := [1], section := Data);
    assert Padded([1]) == [1, 0, 0, 0];
    assert [1, 0, 0, 0][4..] == [];
    assert EmitWords(q, [1, 0, 0, 0]) == Emit(q, Raw(WordOf(1, 0, 0, 0)));
  }

  // ---------------------------------------------------------------------------
  // Which programs are in error
  // ---------------------------------------------------------------------------

  function Refused(vs: seq<Option<int>>): nat {
    if vs == [] then 0 else (if vs[0].None? then 1 else 0) + Refused(vs[1..])
  }

  function Malformeds(vs: seq<LongValue>): nat {
    if vs == [] then 0 else (if vs[0].Malformed? then 1 else 0) + Malformeds(vs[1..])
  }

  /** One error for each refused value, and one for a bad or repeated name. */
  function Mistakes(p: Pass, line: Line): nat {
    match line
    case Comm(name, _, _) => if BadName(p, name) then 1 else 0
    case Label(name, _) => if BadName(p, name) then 1 else 0
    case Long(vs) => Malformeds(vs)
    case Short(vs) => Refused(vs)
    case Bytes(vs) => Refused(vs)
    case _ => 0
  }

  lemma LongErr(p: Pass, mode: Mode, v: LongValue)
    ensures var r := LongStep(p, mode, v);
      r.errors == p.errors + (if v.Malformed? then 1 else 0) && r.labels == p.labels
  {
    FlushSame(if v.Malformed? then p.(errors := p.errors + 1) else p);
  }

  lemma {:induction false} LongsErr(p: Pass, mode: Mode, vs: seq<LongValue>)
    ensures LongSteps(p, mode, vs).errors == p.errors + Malformeds(vs) && LongSteps(p, mode, vs).labels == p.labels
    decreases |vs|
  {
    if vs != [] {
      LongErr(p, mode, vs[0]);
      LongsErr(LongStep(p, mode, vs[0]), mode, vs[1..]);
    }
  }

  lemma {:induction false} ShortsErr(p: Pass, mode: Mode, vs: seq<Option<int>>)
    ensures ShortSteps(p, mode, vs).errors == p.errors + Refused(vs) && ShortSteps(p, mode, vs).labels == p.labels
    decreases |vs|
  {
    if vs != [] { ShortsErr(ShortStep(p, mode, vs[0]), mode, vs[1..]); }
  }

  lemma {:induction false} BytesErr(p: Pass, mode: Mode, vs: seq<Option<int>>)
    ensures ByteSteps(p, mode, vs).errors == p.errors + Refused(vs) && ByteSteps(p, mode, vs).labels == p.labels
    decreases |vs|
  {
    if vs != [] { BytesErr(ByteStep(p, mode, vs[0]), mode, vs[1..]); }
  }

  /** The name a line defines. */
  function Defined(line: Line): Option<Option<string>> {
    match line
    case Comm(name, _, _) => Some(name)
    case Label(name, _) => Some(name)
    case _ => None
  }

  lemma LabelErr(p: Pass, mode: Mode, name: Option<string>, rest: Option<Source>)
    ensures var r := LabelStep(p, mode, name, rest);
      && r.errors == p.errors + (if BadName(p, name) then 1 else 0)
      && forall x :: x in r.labels <==> x in p.labels || name == Some(x)
  {
    FlushSame(p);
    if !BadName(p, name) {
      FlushSame(Flush(p).(labels := Flush(p).labels[name.value := Here(Flush(p), mode)]));
    }
  }

  lemma CommErr(p: Pass, mode: Mode, name: Option<string>, size: nat, align: nat)
    ensures var r := CommStep(p, mode, name, size, align);
      && r.errors == p.errors + (if BadName(p, name) then 1 else 0)
      && forall x :: x in r.labels <==> x in p.labels || name == Some(x)
  {
  }

  lemma ErrorsGrow(p: Pass, mode: Mode, line: Line)
    ensures Step(p, mode, line).errors == p.errors + Mistakes(p, line)
    ensures forall x :: x in Step(p, mode, line).labels <==> x in p.labels || Defined(line) == Some(Some(x))
  {
    match line
    case Long(vs) => LongsErr(p, mode, vs);
    case Short(vs) => ShortsErr(p, mode, vs);
    case Bytes(vs) => BytesErr(p, mode, vs);
    case Label(name, rest) => LabelErr(p, mode, name, rest);
    case Comm(name, size, align) => CommErr(p, mode, name, size, align);
    case Align(n) => FlushSame(p);
    case Instruction(source) => FlushSame(p);
    case _ =>
  }

  /** A name is in the symbol table after the lines exactly when one of them defines it. */
  lemma {:induction false} LabelsAre(mode: Mode, lines: seq<Line>, x: string)
    ensures x in Lines(mode, lines).labels <==> exists i :: 0 <= i < |lines| && Defined(lines[i]) == Some(Some(x))
    decreases |lines|
  {
    if lines != [] {
      LabelsAre(mode, Front(lines), x);
      ErrorsGrow(Lines(mode, Front(lines)), mode, Last(lines));
      assert Last(lines) == lines[|lines| - 1];
      assert forall i :: 0 <= i < |lines| - 1 ==> Front(lines)[i] == lines[i];
    }
  }

  /** Line `n` has no refused value, and the name it defines, if any, is good and not defined before. */
  ghost predicate CleanLine(lines: seq<Line>, n: nat)
    requires n < |lines|
  {
    && (match lines[n]
        case Long(vs) => forall i :: 0 <= i < |vs| ==> !vs[i].Malformed?
        case Short(vs) => forall i :: 0 <= i < |vs| ==> vs[i].Some?
        case Bytes(vs) => forall i :: 0 <= i < |vs| ==> vs[i].Some?
        case _ => true)
    && (Defined(lines[n]).Some? ==>
          Defined(lines[n]).value.Some? && forall i :: 0 <= i < n ==> Defined(lines[i]) != Defined(lines[n]))
  }

  lemma {:induction false} NoneRefused(vs: seq<Option<int>>)
    ensures Refused(vs) == 0 <==> forall i :: 0 <= i < |vs| ==> vs[i].Some?
    decreases |vs|
  {
    if vs != [] { NoneRefused(vs[1..]); }
  }

  lemma {:induction false} NoneMalformed(vs: seq<LongValue>)
    ensures Malformeds(vs) == 0 <==> forall i :: 0 <= i < |vs| ==> !vs[i].Malformed?
    decreases |vs|
  {
    if vs != [] { NoneMalformed(vs[1..]); }
  }

  lemma MistakesMean(mode: Mode, lines: seq<Line>, n: nat)
    requires n < |lines|
    ensures Mistakes(Lines(mode, lines[..n]), lines[n]) == 0 <==> CleanLine(lines, n)
  {
    match lines[n]
    case Long(vs) => NoneMalformed(vs);
    case Short(vs) => NoneRefused(vs);
    case Bytes(vs) => NoneRefused(vs);
    case Comm(name, _, _) => NameIsNew(mode, lines, n, name);
    case Label(name, _) => NameIsNew(mode, lines, n, name);
    case _ =>
  }

  lemma NameIsNew(mode: Mode, lines: seq<Line>, n: nat, name: Option<string>)
    requires n < |lines| && Defined(lines[n]) == Some(name)
    ensures BadName(Lines(mode, lines[..n]), name) <==> name.None? || exists i :: 0 <= i < n && Defined(lines[i]) == Some(name)
  {
    if name.Some? {
      LabelsAre(mode, lines[..n], name.value);
      assert forall i :: 0 <= i < n ==> lines[..n][i] == lines[i];
    }
  }

  /** The lines of a program are accepted without an error exactly when every value is good and every name is good and defined once. */
  lemma {:induction false} ErrorsIff(mode: Mode, lines: seq<Line>)
    ensures Lines(mode, lines).errors == 0 <==> forall n: nat :: n < |lines| ==> CleanLine(lines, n)
    decreases |lines|
  {
    if lines != [] {
      var k := |lines| - 1;
      ErrorsIff(mode, Front(lines));
      OneMoreLine(mode, lines, k);
      assert lines[..k] == Front(lines) && lines[..k + 1] == lines;
      ErrorsGrow(Lines(mode, Front(lines)), mode, Last(lines));
      MistakesMean(mode, lines, k);
      forall n: nat | n < k ensures CleanLine(lines, n) <==> CleanLine(Front(lines), n) {
        assert forall i :: 0 <= i <= n ==> Front(lines)[i] == lines[i];
      }
    }
  }

  /** The whole pass is accepted exactly when its lines are, and a start routine, if there is one, has something to jump to. */
  lemma PassAccepted(mode: Mode, lines: seq<Line>)
    ensures var p, r := Flush(Lines(mode, lines)), FirstPass(mode, lines);
      r.errors == 0 <==>
        && (forall n: nat :: n < |lines| ==> CleanLine(lines, n))
        && (mode.Rom? && (p.dataBytes != [] || p.bssOffset > 0) ==>
              p.textStart.Some? || exists i :: 0 <= i < |lines| && Defined(lines[i]) == Some(Some("main")))
  {
    ErrorsIff(mode, lines);
    LabelsAre(mode, lines, "main");
    FlushSame(Lines(mode, lines));
  }

  // ---------------------------------------------------------------------------
  // Closing, and the words that stand for labels
  // ---------------------------------------------------------------------------

  /** The final address of a label: as it was defined, but from the placeholder range behind the data, on a word boundary. */
  lemma FinalAddress(mode: Mode, lines: seq<Line>, name: string)
    requires name in Lines(mode, lines).labels && name != ".start"
    ensures var p, r := Lines(mode, lines), FirstPass(mode, lines);
      var a := p.labels[name];
      && name in r.labels
      && if mode.Rom? && 0x0B55_0000 <= a < 0x0B60_0000 then
           r.labels[name] >= 0x0400_0000 + (a - 0x0B55_0000)
           && RoundsUp(|p.dataBytes|, 4, r.labels[name] - 0x0400_0000 - (a - 0x0B55_0000))
         else r.labels[name] == a
  {
    LinesCounted(mode, lines, 0);
    ClosedAddress(Lines(mode, lines), mode, name);
    WholeWords(|Lines(mode, lines).dataBytes|);
  }

  lemma ClosedAddress(p: Pass, mode: Mode, name: string)
    requires name in p.labels && name != ".start"
    ensures var r := Close(p, mode);
      name in r.labels && r.labels[name] == if mode.Rom? then FixBss(p.labels[name], p.dataOffset) else p.labels[name]
  {
    FlushSame(p);
  }

  lemma WholeWords(x: nat)
    ensures RoundsUp(x, 4, (x + 3) / 4 * 4)
  {
  }

  /** Nothing but the lines' own words is in the image when there is nothing to set up in RAM, or the program runs there. */
  lemma NothingInjected(mode: Mode, lines: seq<Line>)
    requires mode.Ram? || (Lines(mode, lines).dataBytes == [] && Lines(mode, lines).bssOffset == 0)
    ensures FillsUp(Lines(mode, lines), 4, FirstPass(mode, lines).items)
    ensures FirstPass(mode, lines).labels.Keys == Lines(mode, lines).labels.Keys
  {
    LinesCounted(mode, lines, 0);
    FlushFills(Lines(mode, lines));
  }

  /** The word for a label is its 32-bit address plus the offset, exactly; for an unknown label it is 0 and an error. */
  lemma AddressWord(e: LabelExpr, labels: Labels)
    ensures Resolved(RawAddress(e), labels).Some? <==> e.name in labels
    ensures var w := WordFor(RawAddress(e), labels);
      if e.name !in labels then w == 0
      else
        var a := labels[e.name] + e.offset;
        if a >= 0x0100_0000 then (w - a) % 0x1_0000_0000 == 0 else w >= 0xFFF0_0000 && (w - 4 * a) % 0x10_0000 == 0
  {
    if e.name in labels { PhysicalExact(labels[e.name] + e.offset); }
  }
}
