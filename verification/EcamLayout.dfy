/** What an enumeration leaves behind, whatever the hardware answers: grants and
    windows that nest as the bridges do, bus intervals that hold exactly the buses
    behind a bridge, and registers that decode to them. */
module EcamLayout {
  import opened Machine
  import opened Ecam

  /** The part of the machine one stretch of the scan may use: functions `from..to` of `bus`, buses
      `firstBus..endBus` behind it, and the bytes lo..hi. */
  datatype Span = Span(bus: nat, from: nat, to: nat, firstBus: nat, endBus: nat, lo: nat, hi: nat)

  function Position(f: Bdf): nat { 8 * f.dev + f.fn }

  predicate InScope(sp: Span, f: Bdf) {
    || (f.bus == sp.bus && sp.from <= Position(f) < sp.to)
    || sp.firstBus <= f.bus < sp.endBus
  }

  predicate Holds(g: Bridge, bus: nat) { g.secondary <= bus <= g.subordinate }

  /** Bridge `g` lies behind bridge `h`, with its buses and its window. */
  predicate Inside(g: Bridge, h: Bridge) {
    && Holds(h, g.f.bus)
    && h.secondary < g.secondary && g.subordinate <= h.subordinate
    && h.lo <= g.lo && g.hi <= h.hi
  }

  /** Bridges `g` and `h` are unrelated: neither interval holds the other's bridge and both windows and intervals are apart, `g` first. */
  predicate Apart(g: Bridge, h: Bridge) {
    && g.subordinate < h.secondary && g.hi <= h.lo
    && !Holds(h, g.f.bus) && !Holds(g, h.f.bus) && g.f != h.f
  }

  /** A BAR is in the window of a bridge whose interval holds its bus, and outside every other window. */
  predicate BarFits(b: Bar, g: Bridge) {
    if Holds(g, b.f.bus) then g.lo <= b.lo && b.lo + b.len <= g.hi
    else b.lo + b.len <= g.lo || g.hi <= b.lo
  }

  predicate BarSound(sp: Span, b: Bar) {
    && InScope(sp, b.f)
    && b.index < 4 && b.len > 0 && b.len % 4096 == 0 && b.lo % 4096 == 0
    && sp.lo <= b.lo && b.lo + b.len <= sp.hi
  }

  predicate BridgeSound(sp: Span, g: Bridge) {
    && InScope(sp, g.f)
    && g.f.bus < g.secondary
    && sp.firstBus <= g.secondary <= g.subordinate < sp.endBus
    && sp.lo <= g.lo <= g.hi <= sp.hi
    && g.lo % 0x1_0000 == 0 && g.hi % 0x1_0000 == 0
  }

  /** Everything granted in a stretch: `bars` in address order, `bridges` in the order they were finished. */
  ghost predicate Layout(sp: Span, bars: seq<Bar>, bridges: seq<Bridge>) {
    && sp.bus < sp.firstBus <= sp.endBus && sp.lo <= sp.hi && sp.from <= sp.to
    && (forall i :: 0 <= i < |bars| ==> BarSound(sp, bars[i]))
    && (forall i, j :: 0 <= i < j < |bars| ==> bars[i].lo + bars[i].len <= bars[j].lo)
    && (forall i :: 0 <= i < |bridges| ==> BridgeSound(sp, bridges[i]))
    && (forall i, j :: 0 <= i < j < |bridges| ==> Inside(bridges[i], bridges[j]) || Apart(bridges[i], bridges[j]))
    && (forall i, j :: 0 <= i < |bars| && 0 <= j < |bridges| ==> BarFits(bars[i], bridges[j]))
    && |bridges| == sp.endBus - sp.firstBus
    && (forall n: nat :: sp.firstBus <= n < sp.endBus ==> Numbered(bridges, n))
  }

  /** Some bridge gave out bus number `n`. */
  ghost predicate Numbered(bridges: seq<Bridge>, n: nat) {
    exists i :: 0 <= i < |bridges| && bridges[i].secondary == n
  }

  /** The spans `x` and `y` are consecutive stretches of one bus, and `sp` both together. */
  predicate Consecutive(x: Span, y: Span, sp: Span) {
    && x.bus == y.bus && x.to <= y.from && x.endBus == y.firstBus && x.hi <= y.lo
    && sp == Span(x.bus, x.from, y.to, x.firstBus, y.endBus, x.lo, y.hi)
  }

  /** Two stretches of the same bus, one after the other. */
  lemma JoinLayouts(x: Span, bars: seq<Bar>, bridges: seq<Bridge>, y: Span, bars': seq<Bar>, bridges': seq<Bridge>)
    requires Layout(x, bars, bridges) && Layout(y, bars', bridges')
    requires x.bus == y.bus && x.to <= y.from && x.endBus == y.firstBus && x.hi <= y.lo
    ensures Layout(Span(x.bus, x.from, y.to, x.firstBus, y.endBus, x.lo, y.hi), bars + bars', bridges + bridges')
  {
    var sp := Span(x.bus, x.from, y.to, x.firstBus, y.endBus, x.lo, y.hi);
    JoinBars(x, bars, bridges, y, bars', bridges', sp);
    JoinBridges(x, bars, bridges, y, bars', bridges', sp);
    JoinFits(x, bars, bridges, y, bars', bridges', sp);
    JoinNumbers(x, bars, bridges, y, bars', bridges', sp);
  }

  lemma JoinBars(x: Span, bars: seq<Bar>, bridges: seq<Bridge>, y: Span, bars': seq<Bar>, bridges': seq<Bridge>, sp: Span)
    requires Layout(x, bars, bridges) && Layout(y, bars', bridges') && Consecutive(x, y, sp)
    ensures forall i :: 0 <= i < |bars + bars'| ==> BarSound(sp, (bars + bars')[i])
    ensures forall i, j :: 0 <= i < j < |bars + bars'| ==> (bars + bars')[i].lo + (bars + bars')[i].len <= (bars + bars')[j].lo
  {
    var b := bars + bars';
    forall i | 0 <= i < |b| ensures BarSound(sp, b[i]) {
      assert if i < |bars| then BarSound(x, bars[i]) else BarSound(y, bars'[i - |bars|]);
    }
    forall i, j | 0 <= i < j < |b| ensures b[i].lo + b[i].len <= b[j].lo {
      assert i < |bars| ==> BarSound(x, bars[i]);
      assert j >= |bars| ==> BarSound(y, bars'[j - |bars|]);
    }
  }

  lemma JoinBridges(x: Span, bars: seq<Bar>, bridges: seq<Bridge>, y: Span, bars': seq<Bar>, bridges': seq<Bridge>, sp: Span)
    requires Layout(x, bars, bridges) && Layout(y, bars', bridges') && Consecutive(x, y, sp)
    ensures var g := bridges + bridges';
      && (forall i :: 0 <= i < |g| ==> BridgeSound(sp, g[i]))
      && (forall i, j :: 0 <= i < j < |g| ==> Inside(g[i], g[j]) || Apart(g[i], g[j]))
  {
    var g := bridges + bridges';
    forall i | 0 <= i < |g| ensures BridgeSound(sp, g[i]) {
      assert if i < |bridges| then BridgeSound(x, bridges[i]) else BridgeSound(y, bridges'[i - |bridges|]);
    }
    forall i, j | 0 <= i < j < |g| ensures Inside(g[i], g[j]) || Apart(g[i], g[j]) {
      assert i < |bridges| ==> BridgeSound(x, bridges[i]);
      assert j >= |bridges| ==> BridgeSound(y, bridges'[j - |bridges|]);
    }
  }

  lemma JoinFits(x: Span, bars: seq<Bar>, bridges: seq<Bridge>, y: Span, bars': seq<Bar>, bridges': seq<Bridge>, sp: Span)
    requires Layout(x, bars, bridges) && Layout(y, bars', bridges') && Consecutive(x, y, sp)
    ensures var b, g := bars + bars', bridges + bridges';
      forall i, j :: 0 <= i < |b| && 0 <= j < |g| ==> BarFits(b[i], g[j])
  {
    var b, g := bars + bars', bridges + bridges';
    forall i, j | 0 <= i < |b| && 0 <= j < |g| ensures BarFits(b[i], g[j]) {
      assert if i < |bars| then BarSound(x, bars[i]) else BarSound(y, bars'[i - |bars|]);
      assert if j < |bridges| then BridgeSound(x, bridges[j]) else BridgeSound(y, bridges'[j - |bridges|]);
    }
  }

  lemma JoinNumbers(x: Span, bars: seq<Bar>, bridges: seq<Bridge>, y: Span, bars': seq<Bar>, bridges': seq<Bridge>, sp: Span)
    requires Layout(x, bars, bridges) && Layout(y, bars', bridges') && Consecutive(x, y, sp)
    ensures forall n: nat :: sp.firstBus <= n < sp.endBus ==> Numbered(bridges + bridges', n)
  {
    var g := bridges + bridges';
    forall n: nat | sp.firstBus <= n < sp.endBus ensures Numbered(g, n) {
      if n < x.endBus {
        assert Numbered(bridges, n);
        var i :| 0 <= i < |bridges| && bridges[i].secondary == n;
        assert g[i].secondary == n;
      } else {
        assert Numbered(bridges', n);
        var i :| 0 <= i < |bridges'| && bridges'[i].secondary == n;
        assert g[|bridges| + i].secondary == n;
      }
    }
  }

  /** A finished bridge `g` around the stretch scanned behind it. */
  lemma WrapLayout(x: Span, bars: seq<Bar>, bridges: seq<Bridge>, g: Bridge, sp: Span)
    requires Layout(x, bars, bridges)
    requires x.bus == g.secondary && x.firstBus == g.secondary + 1 && x.endBus == g.subordinate + 1
    requires x.lo == g.lo && x.hi <= g.hi && g.lo % 0x1_0000 == 0 && g.hi % 0x1_0000 == 0
    requires sp.bus == g.f.bus < g.secondary == sp.firstBus && sp.endBus == x.endBus
    requires sp.from <= Position(g.f) < sp.to && sp.lo <= g.lo && sp.hi == g.hi
    ensures Layout(sp, bars, bridges + [g])
  {
    var gs := bridges + [g];
    forall i | 0 <= i < |bars| ensures BarSound(sp, bars[i]) && Holds(g, bars[i].f.bus) && BarFits(bars[i], g) {
      assert BarSound(x, bars[i]);
    }
    forall i | 0 <= i < |gs| ensures BridgeSound(sp, gs[i]) {
      assert i < |bridges| ==> BridgeSound(x, bridges[i]);
    }
    forall i, j | 0 <= i < j < |gs| ensures Inside(gs[i], gs[j]) || Apart(gs[i], gs[j]) {
      assert BridgeSound(x, bridges[i]);
    }
    forall n: nat | sp.firstBus <= n < sp.endBus ensures Numbered(gs, n) {
      if n == g.secondary {
        assert gs[|bridges|].secondary == n;
      } else {
        assert Numbered(bridges, n);
        var i :| 0 <= i < |bridges| && bridges[i].secondary == n;
        assert gs[i].secondary == n;
      }
    }
  }

  // ---------------------------------------------------------------------------
  // Register contents
  // ---------------------------------------------------------------------------

  /** The value last written to a register. */
  function LastWrite(log: seq<Access>, f: Bdf, off: nat): Option<u32> {
    if log == [] then None
    else match Last(log)
      case Write(g, o, v) => if g == f && o == off then Some(v) else LastWrite(Front(log), f, off)
      case Read(_, _, _) => LastWrite(Front(log), f, off)
  }

  ghost predicate Untouched(log: seq<Access>, log': seq<Access>, f: Bdf, off: nat) {
    log <= log' && forall i :: |log| <= i < |log'| ==> log'[i].Read? || log'[i].f != f || log'[i].off != off
  }

  lemma {:induction false} LastWriteKept(log: seq<Access>, log': seq<Access>, f: Bdf, off: nat)
    requires Untouched(log, log', f, off)
    ensures LastWrite(log', f, off) == LastWrite(log, f, off)
    decreases |log'|
  {
    if |log'| > |log| {
      assert Last(log').Read? || Last(log').f != f || Last(log').off != off;
      assert log <= Front(log');
      LastWriteKept(log, Front(log'), f, off);
    } else {
      assert log == log';
    }
  }

  lemma {:induction false} LastWriteIsWritten(log: seq<Access>, f: Bdf, off: nat)
    ensures LastWrite(log, f, off).Some? ==> Write(f, off, LastWrite(log, f, off).value) in log
  {
    if log != [] {
      LastWriteIsWritten(Front(log), f, off);
      assert forall a :: a in Front(log) ==> a in log;
      assert Last(log) in log;
    }
  }

  predicate Commands(a: Access) { a.Write? && a.off == OFF_COMMAND }

  /** A write to a command register enables one of `bridges`, whose window is not empty. */
  ghost predicate Enables(a: Access, bridges: seq<Bridge>) {
    Commands(a) ==> exists i :: 0 <= i < |bridges| && bridges[i].f == a.f && bridges[i].lo < bridges[i].hi
  }

  predicate BarProgrammed(log: seq<Access>, b: Bar) {
    LastWrite(log, b.f, OffBar(b.index)) == Some(MIN_BAR_POS + b.lo)
  }

  /** The window a base/limit register stands for. */
  function Decode(limitBase: u32): (nat, nat) {
    (limitBase % 0x1_0000 * 0x1_0000, limitBase / 0x1_0000 * 0x1_0000 + 0x1_0000)
  }

  /** The registers of a finished bridge: its bus interval, and its window unless that is empty. */
  predicate BridgeProgrammed(log: seq<Access>, g: Bridge) {
    BusesProgrammed(log, g.f, g.secondary, g.subordinate) && WindowProgrammed(log, g.f, g.lo, g.hi)
  }

  /** The table row of a finished bridge. */
  predicate RowSound(mapa: seq<Row>, g: Bridge) {
    && g.row < |mapa|
    && mapa[g.row].start == MIN_BAR_POS + g.lo && mapa[g.row].end == MIN_BAR_POS + g.hi
    && mapa[g.row].size == g.hi - g.lo && mapa[g.row].f == g.f
  }

  ghost predicate Programmed(s: State, bars: seq<Bar>, bridges: seq<Bridge>) {
    && (forall i :: 0 <= i < |bars| ==> BarProgrammed(s.log, bars[i]))
    && (forall i :: 0 <= i < |bridges| ==> BridgeProgrammed(s.log, bridges[i]))
    && (forall i :: 0 <= i < |bridges| ==> bridges[i].row < s.size && RowSound(s.mapa, bridges[i]))
  }

  /** What one stretch of the scan did to the state. */
  ghost predicate Stretch(sp: Span, s: State, r: State, bars: seq<Bar>, bridges: seq<Bridge>) {
    && r.Wf() && s.size <= r.size && |s.mapa| == |r.mapa| && r.mapa[..s.size] == s.mapa[..s.size]
    && r.offset == r.total == sp.hi && r.nextBus == sp.endBus
    && s.log <= r.log && (forall i :: |s.log| <= i < |r.log| ==> InScope(sp, r.log[i].f) && Enables(r.log[i], bridges))
    && r.bars == s.bars + bars && r.bridges == s.bridges + bridges
    && Layout(sp, bars, bridges) && Programmed(r, bars, bridges)
    && (forall i :: 0 <= i < |bridges| ==> s.size <= bridges[i].row)
  }

  /** What an earlier stretch programmed, a later one leaves alone. */
  lemma ProgrammedKept(x: Span, r: State, bars: seq<Bar>, bridges: seq<Bridge>, y: Span, r': State)
    requires r.Wf() && r'.Wf() && r.size <= r'.size && r'.mapa[..r.size] == r.mapa[..r.size]
    requires Layout(x, bars, bridges) && Programmed(r, bars, bridges)
    requires x.bus == y.bus < x.firstBus && x.to <= y.from && x.endBus == y.firstBus
    requires r.log <= r'.log && forall i :: |r.log| <= i < |r'.log| ==> InScope(y, r'.log[i].f)
    ensures Programmed(r', bars, bridges)
  {
    forall i | 0 <= i < |bars| ensures BarProgrammed(r'.log, bars[i]) {
      assert BarSound(x, bars[i]);
      LastWriteKept(r.log, r'.log, bars[i].f, OffBar(bars[i].index));
    }
    forall i | 0 <= i < |bridges| ensures BridgeProgrammed(r'.log, bridges[i]) && RowSound(r'.mapa, bridges[i]) {
      var g := bridges[i];
      assert BridgeSound(x, g) && BridgeProgrammed(r.log, g) && RowSound(r.mapa, g);
      LastWriteKept(r.log, r'.log, g.f, OFF_PSS);
      LastWriteKept(r.log, r'.log, g.f, OFF_LIMIT_BASE);
      LastWriteKept(r.log, r'.log, g.f, OFF_COMMAND);
      assert r'.mapa[g.row] == r'.mapa[..r.size][g.row] == r.mapa[..r.size][g.row];
    }
  }

  lemma EnablesMore(a: Access, bridges: seq<Bridge>, bridges': seq<Bridge>)
    ensures Enables(a, bridges) || Enables(a, bridges') ==> Enables(a, bridges + bridges')
  {
    var g := bridges + bridges';
    if Commands(a) && Enables(a, bridges) {
      var i :| 0 <= i < |bridges| && bridges[i].f == a.f && bridges[i].lo < bridges[i].hi;
      assert g[i] == bridges[i];
    } else if Commands(a) && Enables(a, bridges') {
      var i :| 0 <= i < |bridges'| && bridges'[i].f == a.f && bridges'[i].lo < bridges'[i].hi;
      assert g[|bridges| + i] == bridges'[i];
    }
  }

  lemma JoinStretches(x: Span, s: State, r: State, bars: seq<Bar>, bridges: seq<Bridge>,
                      y: Span, r': State, bars': seq<Bar>, bridges': seq<Bridge>)
    requires s.Wf() && Stretch(x, s, r, bars, bridges) && Stretch(y, r, r', bars', bridges')
    requires x.bus == y.bus && x.to <= y.from && x.endBus == y.firstBus && x.hi == y.lo
    ensures Stretch(Span(x.bus, x.from, y.to, x.firstBus, y.endBus, x.lo, y.hi), s, r', bars + bars', bridges + bridges')
  {
    JoinLayouts(x, bars, bridges, y, bars', bridges');
    ProgrammedKept(x, r, bars, bridges, y, r');
    assert r'.mapa[..s.size] == r'.mapa[..r.size][..s.size] == r.mapa[..r.size][..s.size];
    assert r'.bars == s.bars + (bars + bars');
    assert r'.bridges == s.bridges + (bridges + bridges');
    var sp := Span(x.bus, x.from, y.to, x.firstBus, y.endBus, x.lo, y.hi);
    forall i | |s.log| <= i < |r'.log| ensures InScope(sp, r'.log[i].f) && Enables(r'.log[i], bridges + bridges') {
      assert i < |r.log| ==> r'.log[i] == r.log[i];
      EnablesMore(r'.log[i], bridges, bridges');
    }
    assert Programmed(r', bars + bars', bridges + bridges');
  }

  // ---------------------------------------------------------------------------
  // One endpoint
  // ---------------------------------------------------------------------------

  /** Where the cursors stand: exact, page-aligned, and not past the last address. */
  predicate Exact(s: State) { s.offset == s.total && s.total % 4096 == 0 && s.total < ADDRESS_ROOM }

  predicate Granted(f: Bdf, index: nat, lo: nat, hi: nat, b: Bar) {
    b.f == f && index <= b.index < 4 && b.len > 0 && b.len % 4096 == 0 && b.lo % 4096 == 0 && lo <= b.lo && b.lo + b.len <= hi
  }

  /** The wrapped sum the code adds is the number of whole pages. */
  lemma PagesExact(offset: u32, v: u32)
    requires v > 0 && offset % 4096 == 0 && offset + PageUp(v) < ADDRESS_ROOM
    ensures Add32(offset, if v <= 4096 then 4096 else Add32(v, 4095) / 4096 * 4096) == offset + PageUp(v)
    ensures (offset + PageUp(v)) % 4096 == 0 && PageUp(v) > 0
  {
    assert v > 4096 ==> Add32(v, 4095) == v + 4095;
    assert v <= 4096 ==> PageUp(v) == 4096;
  }

  lemma SizeBarExact(hw: Hardware, s: State, f: Bdf, i: nat)
    requires Exact(s) && SizeBar(hw, s, f, i).total < ADDRESS_ROOM
    ensures var r := SizeBar(hw, s, f, i);
      && Exact(r) && s.log <= r.log
      && (forall k :: |s.log| <= k < |r.log| ==> r.log[k].f == f && r.log[k].off == OffBar(i))
      && (r.bars == s.bars ||
           (var b := Bar(f, i, s.total, r.total - s.total);
            r.bars == s.bars + [b] && BarProgrammed(r.log, b) && b.len > 0))
  {
    var (s1, v) := Read32(hw, Write32(s, f, OffBar(i), 0xFFFF_FFFF), f, OffBar(i));
    if v != 0 {
      var s2 := Write32(s1, f, OffBar(i), BarAddress(s1));
      assert Last(s2.log) == Write(f, OffBar(i), MIN_BAR_POS + s.total);
      PagesExact(s.offset, v);
    }
  }

  /** `bars` are grants of BARs `i` and up of `f`, in order, made between `s` and `r`. */
  ghost predicate BarsBetween(f: Bdf, i: nat, s: State, r: State, bars: seq<Bar>) {
    && Exact(r) && s.log <= r.log && s.total <= r.total
    && (forall k :: |s.log| <= k < |r.log| ==> r.log[k].f == f && OffBar(i) <= r.log[k].off)
    && r.bars == s.bars + bars
    && (forall k :: 0 <= k < |bars| ==> Granted(f, i, s.total, r.total, bars[k]))
    && (forall k :: 0 <= k < |bars| ==> BarProgrammed(r.log, bars[k]))
    && (forall j, k :: 0 <= j < k < |bars| ==> bars[j].lo + bars[j].len <= bars[k].lo)
  }

  lemma ConsBar(f: Bdf, i: nat, s: State, s1: State, r: State, bars: seq<Bar>) returns (all: seq<Bar>)
    requires i < 4 && Exact(s) && Exact(s1) && s.log <= s1.log && s.total <= s1.total && BarsBetween(f, i + 1, s1, r, bars)
    requires forall k :: |s.log| <= k < |s1.log| ==> s1.log[k].f == f && s1.log[k].off == OffBar(i)
    requires s1.bars == s.bars || (var b := Bar(f, i, s.total, s1.total - s.total);
               s1.bars == s.bars + [b] && BarProgrammed(s1.log, b) && b.len > 0)
    ensures BarsBetween(f, i, s, r, all)
  {
    all := bars;
    if s1.bars != s.bars {
      var b := Bar(f, i, s.total, s1.total - s.total);
      LastWriteKept(s1.log, r.log, f, OffBar(i));
      all := [b] + bars;
      assert r.bars == s.bars + all;
    }
    forall k | 0 <= k < |all| ensures Granted(f, i, s.total, r.total, all[k]) && BarProgrammed(r.log, all[k]) {
      var p := k - (|all| - |bars|);
      assert p >= 0 ==> all[k] == bars[p] && Granted(f, i + 1, s1.total, r.total, bars[p]);
    }
  }

  lemma {:induction false} SizeBarsExact(hw: Hardware, s: State, f: Bdf, i: nat) returns (bars: seq<Bar>)
    requires i <= 4 && Exact(s) && SizeBars(hw, s, f, i).total < ADDRESS_ROOM
    ensures BarsBetween(f, i, s, SizeBars(hw, s, f, i), bars)
    decreases 4 - i
  {
    if i == 4 {
      bars := [];
    } else {
      var s1 := SizeBar(hw, s, f, i);
      SizeBarExact(hw, s, f, i);
      bars := SizeBarsExact(hw, s1, f, i + 1);
      bars := ConsBar(f, i, s, s1, SizeBars(hw, s1, f, i + 1), bars);
    }
  }

  lemma EndpointStretch(hw: Hardware, s: State, f: Bdf) returns (bars: seq<Bar>)
    requires s.Wf() && s.size < MAX_DEVICES && f.bus < s.nextBus && Exact(s)
    requires Endpoint(hw, s, f).total < ADDRESS_ROOM
    ensures var r := Endpoint(hw, s, f);
      Exact(r) && Stretch(Span(f.bus, Position(f), Position(f) + 1, s.nextBus, r.nextBus, s.total, r.total), s, r, bars, [])
  {
    bars := SizeBarsExact(hw, s, f, 0);
    var r := Endpoint(hw, s, f);
    var sp := Span(f.bus, Position(f), Position(f) + 1, s.nextBus, r.nextBus, s.total, r.total);
    forall i | 0 <= i < |bars| ensures BarSound(sp, bars[i]) {
      assert Granted(f, 0, s.total, r.total, bars[i]);
    }
    assert Layout(sp, bars, []);
    assert r.bridges == s.bridges + [];
  }

  // ---------------------------------------------------------------------------
  // One bridge, and the whole scan
  // ---------------------------------------------------------------------------

  /** The record of the bridge `f` finished in state `s`. */
  function Finished(s: State, f: Bdf, idx: nat, sec: nat, lo: nat): Bridge
    requires 1 <= s.nextBus
  {
    Bridge(f, idx, sec, s.nextBus - 1, lo, if s.total > lo then BlockUp(s.total) else s.total)
  }

  lemma AlignWindowExact(s: State, start: u32, lo: nat)
    requires Exact(s) && lo <= s.total && lo % 0x1_0000 == 0 && start == MIN_BAR_POS + lo
    requires AlignWindow(s, start, lo).total < ADDRESS_ROOM
    ensures Exact(AlignWindow(s, start, lo)) && AlignWindow(s, start, lo).total % 0x1_0000 == 0
  {
    assert Sub32(start, MIN_BAR_POS) == lo;
    assert Align64K(s.offset) == BlockUp(s.total);
    BlockIsPages(s.total);
  }

  lemma BlockIsPages(x: nat)
    ensures BlockUp(x) % 4096 == 0
  {
    var b := (x + 0xFFFF) / 0x1_0000;
    assert BlockUp(x) == 4096 * (16 * b);
  }

  lemma FieldsOf(top: nat, primary: nat, sec: nat, sub: nat)
    requires top < 0x100 && primary < 0x100 && sec < 0x100 && sub < 0x100
    ensures BusFields(top, primary, sec, sub) / 0x100 % 0x100 == sec
    ensures BusFields(top, primary, sec, sub) / 0x1_0000 % 0x100 == sub
  {
    var v := BusFields(top, primary, sec, sub);
    assert v / 0x100 == top * 0x1_0000 + sub * 0x100 + sec;
    assert v / 0x1_0000 == top * 0x100 + sub;
  }

  predicate BusesProgrammed(log: seq<Access>, f: Bdf, sec: nat, sub: nat) {
    var pss := LastWrite(log, f, OFF_PSS);
    pss.Some? && pss.value / 0x100 % 0x100 == sec && pss.value / 0x1_0000 % 0x100 == sub
  }

  lemma ProgramBusesExact(hw: Hardware, s: State, f: Bdf, sec: nat)
    requires 1 <= sec < s.nextBus <= 256
    ensures BusesProgrammed(ProgramBuses(hw, s, f, sec).log, f, sec, s.nextBus - 1)
  {
    var pss := hw(s.log, f, OFF_PSS);
    FieldsOf(pss / 0x100_0000, pss % 256, sec, s.nextBus - 1);
    var log := ProgramBuses(hw, s, f, sec).log;
    assert Last(log) == Write(f, OFF_PSS, BusFields(pss / 0x100_0000, pss % 256, sec, s.nextBus - 1));
  }

  /** A window that is not empty is enabled; its register holds it, or 0 if it is empty. */
  predicate WindowProgrammed(log: seq<Access>, f: Bdf, lo: nat, hi: nat) {
    var window := LastWrite(log, f, OFF_LIMIT_BASE);
    && window.Some?
    && if lo < hi then
         Decode(window.value) == (MIN_BAR_POS + lo, MIN_BAR_POS + hi) && LastWrite(log, f, OFF_COMMAND) == Some(3)
       else window.value == 0
  }

  lemma CursorSpan(from: nat, to: nat)
    requires from <= to < ADDRESS_ROOM
    ensures Add32(MIN_BAR_POS, to) == MIN_BAR_POS + to && Sub32(MIN_BAR_POS + to, MIN_BAR_POS + from) == to - from
  {
  }

  lemma ProgramWindowExact(s: State, f: Bdf, idx: nat, lo: nat)
    requires s.Wf() && idx < s.size && Exact(s) && lo <= s.total
    requires lo % 0x1_0000 == 0 && s.total % 0x1_0000 == 0 && s.mapa[idx].start == MIN_BAR_POS + lo
    ensures var r := ProgramWindow(s, f, idx);
      && WindowProgrammed(r.log, f, lo, s.total)
      && r.mapa[idx] == s.mapa[idx].(end := MIN_BAR_POS + s.total, size := s.total - lo)
      && s.log <= r.log && (forall k :: |s.log| <= k < |r.log| ==> r.log[k].f == f && r.log[k].off != OFF_PSS)
      && (forall k :: |s.log| <= k < |r.log| && Commands(r.log[k]) ==> lo < s.total)
  {
    CursorSpan(lo, s.total);
    WindowWrites(s, f, idx);
    if lo < s.total {
      WindowDecodes(MIN_BAR_POS + lo, MIN_BAR_POS + s.total);
    }
  }

  /** What is written when a window is programmed: its register, and before it the command if it is not empty. */
  lemma WindowWrites(s: State, f: Bdf, idx: nat)
    requires s.Wf() && idx < s.size
    ensures var r := ProgramWindow(s, f, idx);
      var (start, end) := (s.mapa[idx].start, BarAddress(s));
      && r.mapa[idx] == s.mapa[idx].(end := end, size := Sub32(end, start))
      && r.log == s.log + (if end > start then [Write(f, OFF_COMMAND, 3)] else []) + [Write(f, OFF_LIMIT_BASE, LimitBase(start, end))]
      && LastWrite(r.log, f, OFF_LIMIT_BASE) == Some(LimitBase(start, end))
      && (end > start ==> LastWrite(r.log, f, OFF_COMMAND) == Some(3))
  {
    var r := ProgramWindow(s, f, idx);
    var start, end := s.mapa[idx].start, BarAddress(s);
    assert Last(r.log) == Write(f, OFF_LIMIT_BASE, LimitBase(start, end));
    if end > start {
      assert Front(r.log) == s.log + [Write(f, OFF_COMMAND, 3)] && Last(Front(r.log)) == Write(f, OFF_COMMAND, 3);
    }
  }

  /** `r` is `s` with bridge `g` finished. */
  ghost predicate Closed(s: State, r: State, g: Bridge)
    requires g.row < |s.mapa|
  {
    && r.Wf() && Exact(r) && r.total == g.hi && g.hi % 0x1_0000 == 0 && s.total <= r.total
    && r.size == s.size && r.nextBus == s.nextBus && r.bars == s.bars && r.bridges == s.bridges + [g]
    && g.row < |r.mapa| && r.mapa == s.mapa[g.row := r.mapa[g.row]]
    && RowSound(r.mapa, g) && BridgeProgrammed(r.log, g)
    && s.log <= r.log && (forall k :: |s.log| <= k < |r.log| ==> r.log[k].f == g.f && (Commands(r.log[k]) ==> g.lo < g.hi))
  }

  lemma CloseBridgeExact(hw: Hardware, s: State, f: Bdf, idx: nat, sec: nat, lo: nat)
    requires s.Wf() && Exact(s) && idx < s.size && 1 <= sec < s.nextBus
    requires lo <= s.total && lo % 0x1_0000 == 0
    requires s.mapa[idx].start == MIN_BAR_POS + lo && s.mapa[idx].f == f
    requires CloseBridge(hw, s, f, idx, sec, lo).total < ADDRESS_ROOM
    ensures Closed(s, CloseBridge(hw, s, f, idx, sec, lo), Finished(s, f, idx, sec, lo))
  {
    AlignWindowExact(s, s.mapa[idx].start, lo);
    RegistersClosed(hw, AlignWindow(s, s.mapa[idx].start, lo), f, idx, sec, lo);
  }

  /** The registers and the row of a bridge whose window is aligned. */
  lemma RegistersClosed(hw: Hardware, s: State, f: Bdf, idx: nat, sec: nat, lo: nat)
    requires s.Wf() && Exact(s) && idx < s.size && 1 <= sec < s.nextBus
    requires lo <= s.total && lo % 0x1_0000 == 0 && s.total % 0x1_0000 == 0
    requires s.mapa[idx].start == MIN_BAR_POS + lo && s.mapa[idx].f == f
    ensures var r := ProgramWindow(ProgramBuses(hw, s, f, sec), f, idx);
      && BusesProgrammed(r.log, f, sec, s.nextBus - 1) && WindowProgrammed(r.log, f, lo, s.total)
      && r.mapa[idx] == s.mapa[idx].(end := MIN_BAR_POS + s.total, size := s.total - lo)
      && s.log <= r.log && (forall k :: |s.log| <= k < |r.log| ==> r.log[k].f == f && (Commands(r.log[k]) ==> lo < s.total))
  {
    var s2 := ProgramBuses(hw, s, f, sec);
    ProgramBusesExact(hw, s, f, sec);
    ProgramWindowExact(s2, f, idx, lo);
    LastWriteKept(s2.log, ProgramWindow(s2, f, idx).log, f, OFF_PSS);
  }

  /** A block-aligned window reads back from its base/limit register as exactly that window. */
  lemma WindowDecodes(start: u32, end: u32)
    requires start < end && start % 0x1_0000 == 0 && end % 0x1_0000 == 0
    ensures Decode(LimitBase(start, end)) == (start, end)
  {
    var a, b := start / 0x1_0000, end / 0x1_0000 - 1;
    assert start == 0x1_0000 * a && end == 0x1_0000 * b + 0x1_0000 && a < 0x1_0000;
    assert LimitBase(start, end) == a + 0x1_0000 * b by { assert (end - 1) / 0x1_0000 == b; }
  }

  /** `s2` is `s` with bridge `f` opened. */
  ghost predicate Opened(s: State, s2: State, f: Bdf) {
    && s.Wf() && s2.Wf() && Exact(s2) && s2.size == s.size + 1 && s2.nextBus == s.nextBus + 1
    && s.total <= s2.total && s2.total % 0x1_0000 == 0
    && s2.bars == s.bars && s2.bridges == s.bridges
    && s2.mapa[..s.size] == s.mapa[..s.size]
    && s2.mapa[s.size].start == MIN_BAR_POS + s2.total && s2.mapa[s.size].f == f
    && s.log <= s2.log && (forall k :: |s.log| <= k < |s2.log| ==> s2.log[k].f == f && !Commands(s2.log[k]))
  }

  lemma OpenBridgeExact(hw: Hardware, s: State, f: Bdf)
    requires s.Wf() && s.size < MAX_DEVICES && Exact(s) && s.mapa[s.size].f == f
    requires OpenBridge(hw, s, f).total < ADDRESS_ROOM
    ensures Opened(s, OpenBridge(hw, s, f), f)
  {
    assert Align64K(s.offset) == BlockUp(s.total);
    BlockIsPages(s.total);
  }

  lemma {:induction false} BusScanStretch(hw: Hardware, s: State, bus: nat) returns (bars: seq<Bar>, bridges: seq<Bridge>)
    requires s.Wf() && bus < s.nextBus && Exact(s)
    requires BusScan(hw, s, bus).total < ADDRESS_ROOM
    ensures var r := BusScan(hw, s, bus);
      Exact(r) && Stretch(Span(bus, 0, 256, s.nextBus, r.nextBus, s.total, r.total), s, r, bars, bridges)
    decreases MAX_DEVICES - s.size, 2 + 9 * 32 + 9
  {
    bars, bridges := ScanStretch(hw, s, bus, 0, 0);
  }

  lemma {:induction false} BehindStretch(hw: Hardware, s: State, f: Bdf) returns (bars: seq<Bar>, bridges: seq<Bridge>)
    requires s.Wf() && s.size < MAX_DEVICES && f.bus < s.nextBus && Exact(s) && s.mapa[s.size].f == f
    requires Behind(hw, s, f).total < ADDRESS_ROOM
    ensures var r := Behind(hw, s, f);
      Exact(r) && Stretch(Span(f.bus, Position(f), Position(f) + 1, s.nextBus, r.nextBus, s.total, r.total), s, r, bars, bridges)
    decreases MAX_DEVICES - s.size, 0
  {
    var s2 := OpenBridge(hw, s, f);
    OpenBridgeExact(hw, s, f);
    bars, bridges := BusScanStretch(hw, s2, s.nextBus);
    bridges := CloseStretch(hw, s, s2, BusScan(hw, s2, s.nextBus), f, bars, bridges);
  }

  /** A bridge opened in `s`, the stretch behind it from `s2` to `s3`, and finishing it. */
  lemma CloseStretch(hw: Hardware, s: State, s2: State, s3: State, f: Bdf, bars: seq<Bar>, bridges: seq<Bridge>)
    returns (all: seq<Bridge>)
    requires Opened(s, s2, f) && f.bus < s.nextBus && s3.Wf() && Exact(s3)
    requires Stretch(Span(s.nextBus, 0, 256, s2.nextBus, s3.nextBus, s2.total, s3.total), s2, s3, bars, bridges)
    requires CloseBridge(hw, s3, f, s.size, s.nextBus, s2.total).total < ADDRESS_ROOM
    ensures var r := CloseBridge(hw, s3, f, s.size, s.nextBus, s2.total);
      Exact(r) && Stretch(Span(f.bus, Position(f), Position(f) + 1, s.nextBus, r.nextBus, s.total, r.total), s, r, bars, all)
  {
    var idx := s.size;
    OpenedRow(s, s2, s3, f, bars, bridges);
    CloseBridgeExact(hw, s3, f, idx, s.nextBus, s2.total);
    var g := Finished(s3, f, idx, s.nextBus, s2.total);
    ClosedStretch(s, s2, s3, CloseBridge(hw, s3, f, idx, s.nextBus, s2.total), bars, bridges, g);
    all := bridges + [g];
  }

  /** The row of an open bridge is still as it was when the stretch behind it is done. */
  lemma OpenedRow(s: State, s2: State, s3: State, f: Bdf, bars: seq<Bar>, bridges: seq<Bridge>)
    requires Opened(s, s2, f) && s3.Wf()
    requires Stretch(Span(s.nextBus, 0, 256, s2.nextBus, s3.nextBus, s2.total, s3.total), s2, s3, bars, bridges)
    ensures s.size < s3.size && s2.total <= s3.total && s.nextBus < s3.nextBus
    ensures s3.mapa[s.size].start == MIN_BAR_POS + s2.total && s3.mapa[s.size].f == f
  {
    assert s3.mapa[s.size] == s3.mapa[..s2.size][s.size] == s2.mapa[s.size];
  }

  lemma ClosedStretch(s: State, s2: State, s3: State, r: State, bars: seq<Bar>, bridges: seq<Bridge>, g: Bridge)
    requires Opened(s, s2, g.f) && g.f.bus < s.nextBus && s3.Wf() && g.row == s.size < s3.size
    requires Stretch(Span(s.nextBus, 0, 256, s2.nextBus, s3.nextBus, s2.total, s3.total), s2, s3, bars, bridges)
    requires Closed(s3, r, g) && g.secondary == s.nextBus && g.subordinate == s3.nextBus - 1 && g.lo == s2.total
    ensures Stretch(Span(g.f.bus, Position(g.f), Position(g.f) + 1, s.nextBus, r.nextBus, s.total, r.total), s, r, bars, bridges + [g])
  {
    WrapStretch(s, s2, s3, r, bars, bridges, g);
  }

  /** Opening bridge `g` in `s`, the stretch behind it from `s2` to `s3`, and finishing it in `r`. */
  lemma WrapStretch(s: State, s2: State, s3: State, r: State, bars: seq<Bar>, bridges: seq<Bridge>, g: Bridge)
    requires s.Wf() && s2.Wf() && s3.Wf() && r.Wf() && Exact(r)
    requires s2.size == s.size + 1 && s2.nextBus == s.nextBus + 1 && s.total <= s2.total && s2.bars == s.bars && s2.bridges == s.bridges
    requires s2.mapa[..s.size] == s.mapa[..s.size] && g.row == s.size < s3.size && r.mapa == s3.mapa[g.row := r.mapa[g.row]]
    requires s.log <= s2.log && forall k :: |s.log| <= k < |s2.log| ==> s2.log[k].f == g.f && !Commands(s2.log[k])
    requires s3.log <= r.log && forall k :: |s3.log| <= k < |r.log| ==> r.log[k].f == g.f && (Commands(r.log[k]) ==> g.lo < g.hi)
    requires Stretch(Span(s.nextBus, 0, 256, s2.nextBus, s3.nextBus, s2.total, s3.total), s2, s3, bars, bridges)
    requires g.f.bus < g.secondary == s.nextBus && g.subordinate == s3.nextBus - 1
    requires g.lo == s2.total && s3.total <= g.hi == r.total && g.lo % 0x1_0000 == 0 && g.hi % 0x1_0000 == 0
    requires r.size == s3.size && r.nextBus == s3.nextBus && r.bars == s3.bars && r.bridges == s3.bridges + [g]
    requires BridgeProgrammed(r.log, g) && RowSound(r.mapa, g)
    ensures Stretch(Span(g.f.bus, Position(g.f), Position(g.f) + 1, s.nextBus, r.nextBus, s.total, r.total), s, r, bars, bridges + [g])
  {
    var x := Span(s.nextBus, 0, 256, s2.nextBus, s3.nextBus, s2.total, s3.total);
    var sp := Span(g.f.bus, Position(g.f), Position(g.f) + 1, s.nextBus, r.nextBus, s.total, r.total);
    WrapLayout(x, bars, bridges, g, sp);
    ClosedProgrammed(x, s3, bars, bridges, r, g);
    assert r.bridges == s.bridges + (bridges + [g]);
    assert r.mapa[..s.size] == s3.mapa[..s.size] == s3.mapa[..s2.size][..s.size] == s2.mapa[..s.size];
    forall i | |s.log| <= i < |r.log| ensures InScope(sp, r.log[i].f) && Enables(r.log[i], bridges + [g]) {
      EnablesMore(r.log[i], bridges, [g]);
      if i < |s2.log| {
        assert r.log[i] == s2.log[i];
      } else if i < |s3.log| {
        assert r.log[i] == s3.log[i];
        assert InScope(x, s3.log[i].f);
      } else {
        assert [g][0] == g;
      }
    }
  }

  /** Finishing bridge `g` leaves what is programmed behind it alone. */
  lemma ClosedProgrammed(x: Span, s: State, bars: seq<Bar>, bridges: seq<Bridge>, r: State, g: Bridge)
    requires s.Wf() && r.Wf() && r.size == s.size && Layout(x, bars, bridges) && Programmed(s, bars, bridges)
    requires x.bus == g.secondary && x.firstBus == g.secondary + 1 && g.f.bus < g.secondary
    requires s.log <= r.log && forall k :: |s.log| <= k < |r.log| ==> r.log[k].f == g.f
    requires g.row < s.size && r.mapa == s.mapa[g.row := r.mapa[g.row]]
    requires forall i :: 0 <= i < |bridges| ==> bridges[i].row != g.row
    requires BridgeProgrammed(r.log, g) && RowSound(r.mapa, g)
    ensures Programmed(r, bars, bridges + [g])
  {
    forall i | 0 <= i < |bars| ensures BarProgrammed(r.log, bars[i]) {
      assert BarSound(x, bars[i]);
      LastWriteKept(s.log, r.log, bars[i].f, OffBar(bars[i].index));
    }
    forall i | 0 <= i < |bridges| ensures BridgeProgrammed(r.log, bridges[i]) && RowSound(r.mapa, bridges[i]) {
      var h := bridges[i];
      assert BridgeSound(x, h) && BridgeProgrammed(s.log, h) && RowSound(s.mapa, h);
      LastWriteKept(s.log, r.log, h.f, OFF_PSS);
      LastWriteKept(s.log, r.log, h.f, OFF_LIMIT_BASE);
      LastWriteKept(s.log, r.log, h.f, OFF_COMMAND);
    }
  }

  /** Reads of `f`, and a row not yet counted, before a stretch that starts at `f`. */
  lemma QuietThen(s: State, s1: State, f: Bdf, sp: Span, r: State, bars: seq<Bar>, bridges: seq<Bridge>)
    requires s.Wf() && s1.Wf() && s1.size == s.size && s1.bars == s.bars && s1.bridges == s.bridges
    requires s1.mapa[..s.size] == s.mapa[..s.size]
    requires s.log <= s1.log && forall i :: |s.log| <= i < |s1.log| ==> s1.log[i].f == f && !Commands(s1.log[i])
    requires Stretch(sp, s1, r, bars, bridges) && InScope(sp, f)
    ensures Stretch(sp, s, r, bars, bridges)
  {
    forall i | |s.log| <= i < |r.log| ensures InScope(sp, r.log[i].f) && Enables(r.log[i], bridges) {
      if i < |s1.log| { assert r.log[i] == s1.log[i]; }
    }
  }

  lemma Nothing(s: State, bus: nat, from: nat, to: nat)
    requires s.Wf() && bus < s.nextBus && Exact(s) && from <= to
    ensures Stretch(Span(bus, from, to, s.nextBus, s.nextBus, s.total, s.total), s, s, [], [])
  {
    assert s.bars + [] == s.bars && s.bridges + [] == s.bridges;
  }

  lemma IdentifyExact(hw: Hardware, s: State, f: Bdf)
    requires s.Wf() && s.size < MAX_DEVICES
    ensures var r := Identify(hw, s, f).0;
      && r == s.(mapa := r.mapa, log := r.log) && r.mapa[s.size].f == f
      && s.log <= r.log && (forall i :: |s.log| <= i < |r.log| ==> r.log[i].f == f && !Commands(r.log[i]))
  {
  }

  /** One turn of the inner loop is a stretch of one function. */
  lemma {:induction false} VisitStretch(hw: Hardware, s: State, f: Bdf) returns (bars: seq<Bar>, bridges: seq<Bridge>)
    requires s.Wf() && f.bus < s.nextBus && Exact(s)
    requires Visit(hw, s, f).s.total < ADDRESS_ROOM
    ensures var r := Visit(hw, s, f).s;
      Exact(r) && Stretch(Span(f.bus, Position(f), Position(f) + 1, s.nextBus, r.nextBus, s.total, r.total), s, r, bars, bridges)
    decreases MAX_DEVICES - s.size, 1
  {
    bars, bridges := [], [];
    var (s0, vendorDevice) := Read32(hw, s, f, OFF_VENDOR);
    var r := Visit(hw, s, f).s;
    var sp := Span(f.bus, Position(f), Position(f) + 1, s.nextBus, r.nextBus, s.total, r.total);
    if Absent(vendorDevice) || s0.size >= MAX_DEVICES {
      Nothing(s0, f.bus, Position(f), Position(f) + 1);
      QuietThen(s, s0, f, sp, s0, [], []);
    } else {
      var (s1, classCode) := Identify(hw, s0, f);
      IdentifyExact(hw, s0, f);
      if HeaderType(classCode) == 0 {
        bars := EndpointStretch(hw, s1, f);
      } else if HeaderType(classCode) == 1 {
        bars, bridges := BehindStretch(hw, s1, f);
      } else {
        Nothing(s1, f.bus, Position(f), Position(f) + 1);
      }
      QuietThen(s, s1, f, sp, r, bars, bridges);
    }
  }

  /** The rest of the scan after one turn of the inner loop. */
  function Resume(hw: Hardware, next: Next, bus: nat, dev: nat, fn: nat): State
    requires next.s.Wf() && dev < 32 && fn < 8
  {
    match next
    case Stop(s1) => s1
    case NextDevice(s1) => Scan(hw, s1, bus, dev + 1, 0)
    case NextFunction(s1) => Scan(hw, s1, bus, dev, fn + 1)
  }

  lemma {:induction false} ResumeStretch(hw: Hardware, next: Next, bus: nat, dev: nat, fn: nat)
    returns (bars: seq<Bar>, bridges: seq<Bridge>, from: nat, r: State)
    requires next.s.Wf() && dev < 32 && fn < 8 && bus < next.s.nextBus && Exact(next.s)
    requires Resume(hw, next, bus, dev, fn).total < ADDRESS_ROOM
    ensures 8 * dev + fn < from && r == Resume(hw, next, bus, dev, fn) && Exact(r)
    ensures Stretch(Span(bus, from, 256, next.s.nextBus, r.nextBus, next.s.total, r.total), next.s, r, bars, bridges)
    decreases MAX_DEVICES - next.s.size, 1 + 9 * (32 - dev) + (8 - fn), 2
  {
    match next
    case Stop(s1) =>
      from, r, bars, bridges := 256, s1, [], [];
      Nothing(s1, bus, from, 256);
    case NextDevice(s1) =>
      from, r := 8 * (dev + 1), Scan(hw, s1, bus, dev + 1, 0);
      bars, bridges := ScanStretch(hw, s1, bus, dev + 1, 0);
    case NextFunction(s1) =>
      from, r := 8 * dev + fn + 1, Scan(hw, s1, bus, dev, fn + 1);
      bars, bridges := ScanStretch(hw, s1, bus, dev, fn + 1);
  }

  /** Any scan, from any point, whatever the hardware answers, as long as the grants fit the address room. */
  lemma {:induction false} ScanStretch(hw: Hardware, s: State, bus: nat, dev: nat, fn: nat)
    returns (bars: seq<Bar>, bridges: seq<Bridge>)
    requires s.Wf() && dev <= 32 && fn <= 8 && (dev == 32 ==> fn == 0) && bus < s.nextBus && Exact(s)
    requires Scan(hw, s, bus, dev, fn).total < ADDRESS_ROOM
    ensures var r := Scan(hw, s, bus, dev, fn);
      Exact(r) && Stretch(Span(bus, 8 * dev + fn, 256, s.nextBus, r.nextBus, s.total, r.total), s, r, bars, bridges)
    decreases MAX_DEVICES - s.size, 2 + 9 * (32 - dev) + (8 - fn), 1
  {
    if dev == 32 {
      bars, bridges := [], [];
      Nothing(s, bus, 256, 256);
    } else if fn == 8 {
      bars, bridges := ScanStretch(hw, s, bus, dev + 1, 0);
    } else {
      bars, bridges := TurnStretch(hw, s, bus, dev, fn);
    }
  }

  /** One turn of the inner loop and the scan after it. */
  lemma {:induction false} TurnStretch(hw: Hardware, s: State, bus: nat, dev: nat, fn: nat)
    returns (bars: seq<Bar>, bridges: seq<Bridge>)
    requires s.Wf() && dev < 32 && fn < 8 && bus < s.nextBus && Exact(s)
    requires Resume(hw, Visit(hw, s, Bdf(bus, dev, fn)), bus, dev, fn).total < ADDRESS_ROOM
    ensures var r := Resume(hw, Visit(hw, s, Bdf(bus, dev, fn)), bus, dev, fn);
      Exact(r) && Stretch(Span(bus, 8 * dev + fn, 256, s.nextBus, r.nextBus, s.total, r.total), s, r, bars, bridges)
    decreases MAX_DEVICES - s.size, 2 + 9 * (32 - dev) + (8 - fn), 0
  {
    var f := Bdf(bus, dev, fn);
    var next := Visit(hw, s, f);
    var s1 := next.s;
    var r := Resume(hw, next, bus, dev, fn);
    bars, bridges := VisitStretch(hw, s, f);
    var rest, restBridges, from, end := ResumeStretch(hw, next, bus, dev, fn);
    JoinStretches(Span(bus, Position(f), Position(f) + 1, s.nextBus, s1.nextBus, s.total, s1.total), s, s1, bars, bridges,
                  Span(bus, from, 256, s1.nextBus, r.nextBus, s1.total, r.total), r, rest, restBridges);
    bars, bridges := bars + rest, bridges + restBridges;
  }

  // ---------------------------------------------------------------------------
  // The finished enumeration
  // ---------------------------------------------------------------------------

  /** Everything an enumeration that fits the address room has granted and programmed. */
  lemma Enumerated(hw: Hardware, mapa: seq<Row>)
    requires |mapa| == MAX_DEVICES && Enumerate(hw, mapa).total < ADDRESS_ROOM
    ensures var r := Enumerate(hw, mapa);
      && Layout(Span(0, 0, 256, 1, r.nextBus, 0, r.total), r.bars, r.bridges) && Programmed(r, r.bars, r.bridges)
      && Exact(r) && forall a :: a in r.log ==> Enables(a, r.bridges)
  {
    var r := Enumerate(hw, mapa);
    var bars, bridges := BusScanStretch(hw, Start(mapa), 0);
    assert r.bars == [] + bars == bars && r.bridges == [] + bridges == bridges;
    forall a | a in r.log ensures Enables(a, r.bridges) {
      var i :| 0 <= i < |r.log| && r.log[i] == a;
      assert 0 <= i && Enables(r.log[i], bridges);
    }
  }

  /** A bridge has 3 in its command register when its window is not empty, and is never enabled when it is. */
  lemma EnabledIffNonempty(hw: Hardware, mapa: seq<Row>, k: nat)
    requires |mapa| == MAX_DEVICES && Enumerate(hw, mapa).total < ADDRESS_ROOM && k < |Enumerate(hw, mapa).bridges|
    ensures var r := Enumerate(hw, mapa);
      var g := r.bridges[k];
      LastWrite(r.log, g.f, OFF_COMMAND) == if g.lo < g.hi then Some(3) else None
  {
    var r := Enumerate(hw, mapa);
    var g := r.bridges[k];
    Enumerated(hw, mapa);
    assert BridgeProgrammed(r.log, g);
    LastWriteIsWritten(r.log, g.f, OFF_COMMAND);
    if LastWrite(r.log, g.f, OFF_COMMAND).Some? {
      assert Enables(Write(g.f, OFF_COMMAND, LastWrite(r.log, g.f, OFF_COMMAND).value), r.bridges);
      var j :| 0 <= j < |r.bridges| && r.bridges[j].f == g.f && r.bridges[j].lo < r.bridges[j].hi;
      OneBridgeEach(Span(0, 0, 256, 1, r.nextBus, 0, r.total), r.bars, r.bridges, j, k);
    }
  }

  /** No function is recorded as a bridge twice. */
  lemma OneBridgeEach(sp: Span, bars: seq<Bar>, bridges: seq<Bridge>, i: nat, j: nat)
    requires Layout(sp, bars, bridges) && i < |bridges| && j < |bridges| && bridges[i].f == bridges[j].f
    ensures i == j
  {
    NestedOrApart(sp, bars, bridges, i, j);
    assert BridgeSound(sp, bridges[i]) && BridgeSound(sp, bridges[j]);
  }

  /** The guard on bus 256 never fires: the scan behind any bridge, on any bus reached, is the scan itself. */
  lemma GuardNeverFires(hw: Hardware, s: State, f: Bdf)
    requires s.Wf() && s.size < MAX_DEVICES
    ensures var s2 := OpenBridge(hw, s, f);
      && s.nextBus < 256 && (s.nextBus % 0x100, (s2.nextBus - 1) % 0x100) == (s.nextBus, s2.nextBus - 1)
      && Behind(hw, s, f) == CloseBridge(hw, Scan(hw, s2, s.nextBus, 0, 0), f, s.size, s.nextBus, s2.total)
  {
  }

  /** For any hardware: one bus number per finished bridge and at most 64 of them, so no number is cut by the 8-bit bus fields. */
  lemma BusNumbersCountBridges(hw: Hardware, mapa: seq<Row>)
    requires |mapa| == MAX_DEVICES
    ensures var r := Enumerate(hw, mapa);
      r.nextBus - 1 == |r.bridges| <= r.size <= MAX_DEVICES && (r.nextBus - 1) % 0x100 == r.nextBus - 1 < 256
  {
  }

  /** Bus `n` lies behind bridge `k`: numbered by it, or by a bridge that sits on a bus behind it. */
  ghost predicate Below(bridges: seq<Bridge>, k: nat, n: nat)
    requires k < |bridges|
    decreases n
  {
    || n == bridges[k].secondary
    || exists j :: 0 <= j < |bridges| && bridges[j].secondary == n && bridges[j].f.bus < n && Below(bridges, k, bridges[j].f.bus)
  }

  /** The interval of a bridge holds exactly the buses behind it. */
  lemma {:induction false} IntervalIsSubtree(sp: Span, bars: seq<Bar>, bridges: seq<Bridge>, k: nat, n: nat)
    requires Layout(sp, bars, bridges) && k < |bridges| && (n == sp.bus || sp.firstBus <= n < sp.endBus)
    ensures Below(bridges, k, n) <==> Holds(bridges[k], n)
    decreases n
  {
    assert BridgeSound(sp, bridges[k]);
    if n == sp.bus {
      forall j | 0 <= j < |bridges| ensures bridges[j].secondary != n { assert BridgeSound(sp, bridges[j]); }
    } else {
      assert Numbered(bridges, n);
      var j :| 0 <= j < |bridges| && bridges[j].secondary == n;
      forall i | 0 <= i < |bridges| && bridges[i].secondary == n ensures i == j {
        NestedOrApart(sp, bars, bridges, i, j);
      }
      assert BridgeSound(sp, bridges[j]);
      IntervalIsSubtree(sp, bars, bridges, k, bridges[j].f.bus);
      if j != k {
        NestedOrApart(sp, bars, bridges, j, k);
      }
    }
  }

  /** Two bridges are nested, buses and windows alike, or apart in both; which one, is told by the bus either sits on. */
  lemma NestedOrApart(sp: Span, bars: seq<Bar>, bridges: seq<Bridge>, i: nat, j: nat)
    requires Layout(sp, bars, bridges) && i < |bridges| && j < |bridges|
    ensures i != j ==> Inside(bridges[i], bridges[j]) || Inside(bridges[j], bridges[i]) || Apart(bridges[i], bridges[j]) || Apart(bridges[j], bridges[i])
  {
    if i > j {
      assert Inside(bridges[j], bridges[i]) || Apart(bridges[j], bridges[i]);
    }
  }

  /** Every grant is page aligned and disjoint from every other; it lies in the window of each bridge above it and in no other window. */
  lemma GrantsAreSound(hw: Hardware, mapa: seq<Row>, i: nat, j: nat, k: nat)
    requires |mapa| == MAX_DEVICES && Enumerate(hw, mapa).total < ADDRESS_ROOM
    requires var r := Enumerate(hw, mapa); i < |r.bars| && j < |r.bars| && k < |r.bridges|
    ensures var r := Enumerate(hw, mapa);
      var (b, c, g) := (r.bars[i], r.bars[j], r.bridges[k]);
      && b.lo % 4096 == 0 && b.len % 4096 == 0 && b.len > 0 && b.lo + b.len <= r.total
      && (i != j ==> b.lo + b.len <= c.lo || c.lo + c.len <= b.lo)
      && LastWrite(r.log, b.f, OffBar(b.index)) == Some(MIN_BAR_POS + b.lo)
      && (if Below(r.bridges, k, b.f.bus) then g.lo <= b.lo && b.lo + b.len <= g.hi
          else b.lo + b.len <= g.lo || g.hi <= b.lo)
  {
    var r := Enumerate(hw, mapa);
    Enumerated(hw, mapa);
    var sp := Span(0, 0, 256, 1, r.nextBus, 0, r.total);
    assert BarSound(sp, r.bars[i]) && BarFits(r.bars[i], r.bridges[k]) && BarProgrammed(r.log, r.bars[i]);
    IntervalIsSubtree(sp, r.bars, r.bridges, k, r.bars[i].f.bus);
  }

  /** Every finished bridge has its interval and its window in its registers, the window decoding to exactly
      the bytes handed out behind it, and a row that says the same. */
  lemma BridgesAreSound(hw: Hardware, mapa: seq<Row>, k: nat, n: nat)
    requires |mapa| == MAX_DEVICES && Enumerate(hw, mapa).total < ADDRESS_ROOM
    requires k < |Enumerate(hw, mapa).bridges| && n < Enumerate(hw, mapa).nextBus
    ensures var r := Enumerate(hw, mapa);
      var g := r.bridges[k];
      && BusesProgrammed(r.log, g.f, g.secondary, g.subordinate)
      && (Below(r.bridges, k, n) <==> g.secondary <= n <= g.subordinate)
      && WindowProgrammed(r.log, g.f, g.lo, g.hi)
      && RowSound(r.mapa, g)
  {
    var r := Enumerate(hw, mapa);
    Enumerated(hw, mapa);
    IntervalIsSubtree(Span(0, 0, 256, 1, r.nextBus, 0, r.total), r.bars, r.bridges, k, n);
    assert BridgeProgrammed(r.log, r.bridges[k]);
  }

  /** Windows and intervals of two bridges nest together, along the bridge tree, or are both disjoint. */
  lemma BridgesNest(hw: Hardware, mapa: seq<Row>, i: nat, j: nat)
    requires |mapa| == MAX_DEVICES && Enumerate(hw, mapa).total < ADDRESS_ROOM
    requires var r := Enumerate(hw, mapa); i < |r.bridges| && j < |r.bridges| && i != j
    ensures var r := Enumerate(hw, mapa);
      var (g, h) := (r.bridges[i], r.bridges[j]);
      if Below(r.bridges, j, g.f.bus) then
        h.secondary < g.secondary <= g.subordinate <= h.subordinate && h.lo <= g.lo && g.hi <= h.hi
      else if Below(r.bridges, i, h.f.bus) then
        g.secondary < h.secondary <= h.subordinate <= g.subordinate && g.lo <= h.lo && h.hi <= g.hi
      else
        || (g.subordinate < h.secondary && g.hi <= h.lo)
        || (h.subordinate < g.secondary && h.hi <= g.lo)
  {
    var r := Enumerate(hw, mapa);
    Enumerated(hw, mapa);
    var sp := Span(0, 0, 256, 1, r.nextBus, 0, r.total);
    assert BridgeSound(sp, r.bridges[i]) && BridgeSound(sp, r.bridges[j]);
    IntervalIsSubtree(sp, r.bars, r.bridges, j, r.bridges[i].f.bus);
    IntervalIsSubtree(sp, r.bars, r.bridges, i, r.bridges[j].f.bus);
    NestedOrApart(sp, r.bars, r.bridges, i, j);
  }

  // ---------------------------------------------------------------------------
  // How far the grants reach
  // ---------------------------------------------------------------------------

  /** The cursor passes a 64 KB boundary `limit` only together with a grant. */
  ghost predicate Covered(s: State, limit: nat) {
    s.total <= limit || exists i :: 0 <= i < |s.bars| && limit < s.bars[i].lo + s.bars[i].len
  }

  /** From `s` to `r` nothing was granted, and the cursor was at most aligned. */
  predicate OnlyAligned(s: State, r: State) {
    r.bars == s.bars && (r.total == s.total || r.total == BlockUp(s.total))
  }

  lemma AlignedCovered(s: State, r: State, limit: nat)
    requires limit % 0x1_0000 == 0 && Covered(s, limit) && OnlyAligned(s, r)
    ensures Covered(r, limit)
  {
    if s.total <= limit {
      BlockBelow(s.total, limit);
    } else {
      var i :| 0 <= i < |s.bars| && limit < s.bars[i].lo + s.bars[i].len;
      assert limit < r.bars[i].lo + r.bars[i].len;
    }
  }

  lemma BlockBelow(x: nat, limit: nat)
    requires x <= limit && limit % 0x1_0000 == 0
    ensures BlockUp(x) <= limit
  {
    assert (x + 0xFFFF) / 0x1_0000 <= (limit + 0xFFFF) / 0x1_0000 == limit / 0x1_0000;
  }

  lemma {:induction false} SizeBarsCovered(hw: Hardware, s: State, f: Bdf, i: nat, limit: nat)
    requires i <= 4 && Covered(s, limit)
    ensures Covered(SizeBars(hw, s, f, i), limit)
    decreases 4 - i
  {
    if i < 4 {
      SizeBarCovered(hw, s, f, i, limit);
      SizeBarsCovered(hw, SizeBar(hw, s, f, i), f, i + 1, limit);
    }
  }

  lemma SizeBarCovered(hw: Hardware, s: State, f: Bdf, i: nat, limit: nat)
    requires Covered(s, limit)
    ensures Covered(SizeBar(hw, s, f, i), limit)
  {
    var r := SizeBar(hw, s, f, i);
    if s.total <= limit < r.total {
      assert limit < Last(r.bars).lo + Last(r.bars).len;
      assert r.bars[|r.bars| - 1] == Last(r.bars);
    } else if limit < s.total {
      var k :| 0 <= k < |s.bars| && limit < s.bars[k].lo + s.bars[k].len;
      assert r.bars[k] == s.bars[k];
    }
  }

  lemma {:induction false} VisitCovered(hw: Hardware, s: State, f: Bdf, limit: nat)
    requires s.Wf() && limit % 0x1_0000 == 0 && Covered(s, limit)
    ensures Covered(Visit(hw, s, f).s, limit)
    decreases MAX_DEVICES - s.size, 1
  {
    var (s0, vendorDevice) := Read32(hw, s, f, OFF_VENDOR);
    AlignedCovered(s, s0, limit);
    if !Absent(vendorDevice) && s0.size < MAX_DEVICES {
      var (s1, classCode) := Identify(hw, s0, f);
      AlignedCovered(s0, s1, limit);
      if HeaderType(classCode) == 0 {
        SizeBarsCovered(hw, s1, f, 0, limit);
        AlignedCovered(SizeBars(hw, s1, f, 0), Endpoint(hw, s1, f), limit);
      } else if HeaderType(classCode) == 1 {
        BehindCovered(hw, s1, f, limit);
      }
    }
  }

  lemma {:induction false} BehindCovered(hw: Hardware, s: State, f: Bdf, limit: nat)
    requires s.Wf() && s.size < MAX_DEVICES && limit % 0x1_0000 == 0 && Covered(s, limit)
    ensures Covered(Behind(hw, s, f), limit)
    decreases MAX_DEVICES - s.size, 0
  {
    var s2 := OpenBridge(hw, s, f);
    AlignedCovered(s, s2, limit);
    if s.nextBus < 256 {
      ScanCovered(hw, s2, s.nextBus, 0, 0, limit);
    }
    AlignedCovered(BusScan(hw, s2, s.nextBus), Behind(hw, s, f), limit);
  }

  lemma {:induction false} ScanCovered(hw: Hardware, s: State, bus: nat, dev: nat, fn: nat, limit: nat)
    requires s.Wf() && dev <= 32 && fn <= 8 && limit % 0x1_0000 == 0 && Covered(s, limit)
    ensures Covered(Scan(hw, s, bus, dev, fn), limit)
    decreases MAX_DEVICES - s.size, 2 + 9 * (32 - dev) + (8 - fn)
  {
    if dev == 32 {
    } else if fn == 8 {
      ScanCovered(hw, s, bus, dev + 1, 0, limit);
    } else {
      VisitCovered(hw, s, Bdf(bus, dev, fn), limit);
      match Visit(hw, s, Bdf(bus, dev, fn))
      case Stop(s1) =>
      case NextDevice(s1) => ScanCovered(hw, s1, bus, dev + 1, 0, limit);
      case NextFunction(s1) => ScanCovered(hw, s1, bus, dev, fn + 1, limit);
    }
  }

  /** The total handed out says how far the grants reach: no farther than a 64 KB boundary exactly when it does not exceed it. */
  lemma ReachIff(hw: Hardware, mapa: seq<Row>, limit: nat)
    requires |mapa| == MAX_DEVICES && limit % 0x1_0000 == 0 && limit < ADDRESS_ROOM
    ensures var r := Enumerate(hw, mapa);
      r.total <= limit <==> forall i :: 0 <= i < |r.bars| ==> r.bars[i].lo + r.bars[i].len <= limit
  {
    var r := Enumerate(hw, mapa);
    ScanCovered(hw, Start(mapa), 0, 0, 0, limit);
    if r.total <= limit {
      Enumerated(hw, mapa);
      forall i | 0 <= i < |r.bars| ensures r.bars[i].lo + r.bars[i].len <= limit {
        assert BarSound(Span(0, 0, 256, 1, r.nextBus, 0, r.total), r.bars[i]);
      }
    }
  }

  /** No grant runs into the configuration space exactly when at most the room in front of it was handed out; the code does not check. */
  lemma ConfigurationSpaceIff(hw: Hardware, mapa: seq<Row>)
    requires |mapa| == MAX_DEVICES
    ensures var r := Enumerate(hw, mapa);
      r.total <= BAR_SPACE <==> forall i :: 0 <= i < |r.bars| ==> MIN_BAR_POS + r.bars[i].lo + r.bars[i].len <= 0xE000_0000
  {
    ReachIff(hw, mapa, BAR_SPACE);
    var r := Enumerate(hw, mapa);
    assert forall i :: 0 <= i < |r.bars| ==>
      (MIN_BAR_POS + r.bars[i].lo + r.bars[i].len <= 0xE000_0000 <==> r.bars[i].lo + r.bars[i].len <= BAR_SPACE);
  }

  /** The 32-bit cursor ends at the address it stands for exactly when fewer than 2^30 bytes were handed out. */
  lemma CursorExactIff(hw: Hardware, mapa: seq<Row>)
    requires |mapa| == MAX_DEVICES
    ensures var r := Enumerate(hw, mapa);
      BarAddress(r) == MIN_BAR_POS + r.total <==> r.total < ADDRESS_ROOM
  {
    if Enumerate(hw, mapa).total < ADDRESS_ROOM {
      Enumerated(hw, mapa);
    }
  }

  /** One endpoint on bus 0 whose first two BARs answer 2^30 and 4096. */
  function LargeDevice(log: seq<Access>, f: Bdf, off: nat): u32 {
    if off == OffBar(0) then 0x4000_0000 else if off == OffBar(1) then 0x1000 else 0
  }

  /** Past that bound the code does wrap: the second BAR of that device is programmed to address 0. */
  lemma WrappedGrant(mapa: seq<Row>)
    requires |mapa| == MAX_DEVICES
    ensures var r := Enumerate(LargeDevice, mapa);
      && r.bars == [Bar(Bdf(0, 0, 0), 0, 0, 0x4000_0000), Bar(Bdf(0, 0, 0), 1, 0x4000_0000, 0x1000)]
      && LastWrite(r.log, Bdf(0, 0, 0), OffBar(1)) == Some(0)
  {
    var f := Bdf(0, 0, 0);
    var s1 := LargeDeviceFound(mapa);
    LargeDeviceBars(s1, f);
    assert Scan(LargeDevice, Start(mapa), 0, 0, 0) == Endpoint(LargeDevice, s1, f);
  }

  lemma LargeDeviceFound(mapa: seq<Row>) returns (s1: State)
    requires |mapa| == MAX_DEVICES
    ensures s1.Wf() && s1.size == 0 && s1.offset == s1.total == 0 && s1.bars == []
    ensures Visit(LargeDevice, Start(mapa), Bdf(0, 0, 0)) == Stop(Endpoint(LargeDevice, s1, Bdf(0, 0, 0)))
  {
    var f, s := Bdf(0, 0, 0), Start(mapa);
    var s0 := Read32(LargeDevice, s, f, OFF_VENDOR).0;
    s1 := Identify(LargeDevice, s0, f).0;
    EndpointFound(LargeDevice, s, f);
  }

  /** A turn of the inner loop that finds an endpoint. */
  lemma EndpointFound(hw: Hardware, s: State, f: Bdf)
    requires s.Wf() && s.size < MAX_DEVICES && !Absent(hw(s.log, f, OFF_VENDOR))
    requires var s0 := Read32(hw, s, f, OFF_VENDOR).0; HeaderType(Identify(hw, s0, f).1) == 0
    ensures var s0 := Read32(hw, s, f, OFF_VENDOR).0;
      Visit(hw, s, f) == Stop(Endpoint(hw, Identify(hw, s0, f).0, f))
  {
  }

  lemma LargeDeviceBars(s: State, f: Bdf)
    requires s.offset == s.total == 0 && s.bars == []
    ensures var r := SizeBars(LargeDevice, s, f, 0);
      && r.bars == [Bar(f, 0, 0, 0x4000_0000), Bar(f, 1, 0x4000_0000, 0x1000)]
      && LastWrite(r.log, f, OffBar(1)) == Some(0)
  {
    var b := LargeDeviceGrants(s, f);
    LargeDeviceRest(b, f);
  }

  lemma LargeDeviceGrants(s: State, f: Bdf) returns (b: State)
    requires s.offset == s.total == 0 && s.bars == []
    ensures SizeBars(LargeDevice, s, f, 0) == SizeBars(LargeDevice, b, f, 2)
    ensures b.bars == [Bar(f, 0, 0, 0x4000_0000), Bar(f, 1, 0x4000_0000, 0x1000)]
    ensures b.log != [] && Last(b.log) == Write(f, OffBar(1), 0)
  {
    var a := SizeBar(LargeDevice, s, f, 0);
    assert a.offset == 0x4000_0000 && a.total == 0x4000_0000;
    b := SizeBar(LargeDevice, a, f, 1);
    assert SizeBars(LargeDevice, a, f, 1) == SizeBars(LargeDevice, b, f, 2);
  }

  lemma LargeDeviceRest(b: State, f: Bdf)
    ensures var r := SizeBars(LargeDevice, b, f, 2);
      r.bars == b.bars && LastWrite(r.log, f, OffBar(1)) == LastWrite(b.log, f, OffBar(1))
  {
    var c := SizeBar(LargeDevice, b, f, 2);
    var d := SizeBar(LargeDevice, c, f, 3);
    assert SizeBars(LargeDevice, c, f, 3) == SizeBars(LargeDevice, d, f, 4) == d;
    LastWriteKept(b.log, d.log, f, OffBar(1));
  }
}
