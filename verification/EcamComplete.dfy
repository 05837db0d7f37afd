/** What an enumeration finds: on hardware that answers as a fixed tree of functions does, exactly the functions that the
    scanning rule of each bus leads to, each once, with all that their BARs ask for. */
module EcamComplete {
  import opened Machine
  import opened Ecam
  import opened EcamLayout

  /** A configuration-space function: identifiers, header type, class, and for an endpoint what its BARs answer to ones. */
  datatype Device = Device(vendor: nat, id: nat, multi: bool, header: nat, class24: nat, bars: seq<u32>)

  type Topology = Bdf -> Option<Device>

  predicate DeviceSound(d: Device) {
    d.vendor < 0xFFFF && d.id < 0x1_0000 && d.header < 0x80 && d.class24 < 0x100_0000 && |d.bars| == 4
  }

  function ClassWord(d: Device): nat { (if d.multi then 0x8000_0000 else 0) + d.header * 0x100_0000 + d.class24 }

  /** What one function answers after any history: nothing there reads as all ones in the vendor field. */
  predicate AnswersAs(hw: Hardware, log: seq<Access>, f: Bdf, device: Option<Device>) {
    match device
    case None => hw(log, f, 0x00) % 0x1_0000 == 0xFFFF
    case Some(d) =>
      && DeviceSound(d) && hw(log, f, 0x00) == d.id * 0x1_0000 + d.vendor && hw(log, f, 0x08) == ClassWord(d)
      && (d.header == 0 && log != [] ==>
            forall i :: 0 <= i < 4 && Last(log) == Write(f, 0x10 + 4 * i, 0xFFFF_FFFF) ==> hw(log, f, 0x10 + 4 * i) == d.bars[i])
  }

  ghost predicate Answers(hw: Hardware, topo: Topology) {
    forall log, f :: AnswersAs(hw, log, f, topo(f))
  }

  predicate IsEndpoint(topo: Topology, f: Bdf) { topo(f).Some? && topo(f).value.header == 0 }

  predicate IsBridge(topo: Topology, f: Bdf) { topo(f).Some? && topo(f).value.header == 1 }

  // ---------------------------------------------------------------------------
  // The rule by which a bus is scanned
  // ---------------------------------------------------------------------------

  /** After `g` the next function of its device is looked at: a bridge, multifunction if it is function 0. */
  predicate PassesOn(topo: Topology, g: Bdf) {
    IsBridge(topo, g) && (g.fn == 0 ==> topo(g).value.multi)
  }

  /** Every lower function of its device leads on to `f`. */
  ghost predicate Reaches(topo: Topology, f: Bdf) {
    forall k: nat :: k < f.fn ==> PassesOn(topo, Bdf(f.bus, f.dev, k))
  }

  /** Nothing behind `g` on its bus is looked at: an endpoint, or on a bus other than 0 a hole in device 0. */
  predicate EndsBus(topo: Topology, g: Bdf) {
    IsEndpoint(topo, g) || (topo(g).None? && g.bus != 0 && g.dev == 0)
  }

  predicate Earlier(g: Bdf, f: Bdf) { g.bus == f.bus && g.dev < f.dev && g.fn < 8 }

  /** No function reached in an earlier device ends the bus. */
  ghost predicate BusGoesOn(topo: Topology, f: Bdf) {
    forall g {:trigger Earlier(g, f)} :: Earlier(g, f) && Reaches(topo, g) ==> !EndsBus(topo, g)
  }

  /** `f` is an endpoint or a bridge that the scan of its bus comes to. */
  ghost predicate Found(topo: Topology, f: Bdf) {
    && f.dev < 32 && f.fn < 8 && Reaches(topo, f) && BusGoesOn(topo, f)
    && (IsEndpoint(topo, f) || IsBridge(topo, f))
  }

  /** Functions `from..to` of a bus and all of the buses lo..hi. */
  datatype Part = Part(bus: nat, from: nat, to: nat, lo: nat, hi: nat)

  predicate InPart(w: Part, f: Bdf) {
    (f.bus == w.bus && w.from <= Position(f) < w.to) || w.lo <= f.bus < w.hi
  }

  ghost predicate Due(topo: Topology, w: Part, f: Bdf) { InPart(w, f) && Found(topo, f) }

  // ---------------------------------------------------------------------------
  // What a stretch of the scan recorded
  // ---------------------------------------------------------------------------

  ghost predicate HasRow(topo: Topology, r: State, from: nat, f: Bdf)
    requires r.Wf() && topo(f).Some?
  {
    exists k :: from <= k < r.size && r.mapa[k].f == f && r.mapa[k].classCode == ClassWord(topo(f).value)
  }

  ghost predicate HasBridge(r: State, from: nat, f: Bdf) {
    exists k :: from <= k < |r.bridges| && r.bridges[k].f == f
  }

  /** BAR `i` of `f` was granted the whole pages it asks for. */
  predicate GrantFor(b: Bar, f: Bdf, i: nat, v: u32) {
    b.f == f && b.index == i && b.len % 4096 == 0 && v <= b.len < v + 4096
  }

  ghost predicate HasGrant(r: State, from: nat, f: Bdf, i: nat, v: u32) {
    exists k :: from <= k < |r.bars| && GrantFor(r.bars[k], f, i, v)
  }

  /** Every BAR of `f` that answers was granted. */
  ghost predicate HasGrants(topo: Topology, r: State, from: nat, f: Bdf)
    requires topo(f).Some? && |topo(f).value.bars| == 4
  {
    forall i :: 0 <= i < 4 && topo(f).value.bars[i] != 0 ==> HasGrant(r, from, f, i, topo(f).value.bars[i])
  }

  ghost predicate Recorded(topo: Topology, s: State, r: State, f: Bdf)
    requires r.Wf() && topo(f).Some? && |topo(f).value.bars| == 4
  {
    && HasRow(topo, r, s.size, f)
    && (IsBridge(topo, f) ==> HasBridge(r, |s.bridges|, f))
    && (IsEndpoint(topo, f) ==> HasGrants(topo, r, |s.bars|, f))
  }

  ghost predicate Asked(topo: Topology, b: Bar) {
    && IsEndpoint(topo, b.f) && |topo(b.f).value.bars| == 4 && b.index < 4
    && topo(b.f).value.bars[b.index] != 0 && GrantFor(b, b.f, b.index, topo(b.f).value.bars[b.index])
  }

  predicate Grown(s: State, r: State) {
    && s.Wf() && r.Wf() && s.size <= r.size && r.mapa[..s.size] == s.mapa[..s.size]
    && s.bridges <= r.bridges && s.bars <= r.bars && s.nextBus <= r.nextBus
  }

  /** What was added in `w` is due there, each row for another function. */
  ghost predicate OnlyDue(topo: Topology, w: Part, s: State, r: State)
    requires Grown(s, r)
  {
    && (forall k :: s.size <= k < r.size ==> Due(topo, w, r.mapa[k].f))
    && (forall j, k :: s.size <= j < k < r.size ==> r.mapa[j].f != r.mapa[k].f)
    && (forall k :: |s.bridges| <= k < |r.bridges| ==> Due(topo, w, r.bridges[k].f) && IsBridge(topo, r.bridges[k].f))
    && (forall k :: |s.bars| <= k < |r.bars| ==> Due(topo, w, r.bars[k].f) && Asked(topo, r.bars[k]))
  }

  ghost predicate AllSound(topo: Topology) { forall f :: topo(f).Some? ==> DeviceSound(topo(f).value) }

  /** Between `s` and `r` exactly what is due in `w` was recorded. */
  ghost predicate Complete(topo: Topology, w: Part, s: State, r: State) {
    && AllSound(topo) && Grown(s, r) && OnlyDue(topo, w, s, r)
    && forall f {:trigger Due(topo, w, f)} :: Due(topo, w, f) ==> Recorded(topo, s, r, f)
  }

  lemma AnswersSound(hw: Hardware, topo: Topology)
    requires Answers(hw, topo)
    ensures AllSound(topo)
  {
    forall f | topo(f).Some? ensures DeviceSound(topo(f).value) { assert AnswersAs(hw, [], f, topo(f)); }
  }

  /** Records stay when more is added. */
  lemma RecordedLater(topo: Topology, s: State, m: State, r: State, f: Bdf)
    requires Grown(s, m) && Grown(m, r) && topo(f).Some? && |topo(f).value.bars| == 4
    ensures Recorded(topo, s, m, f) ==> Recorded(topo, s, r, f)
    ensures Recorded(topo, m, r, f) ==> Recorded(topo, s, r, f)
  {
    if Recorded(topo, s, m, f) {
      var k :| s.size <= k < m.size && m.mapa[k].f == f && m.mapa[k].classCode == ClassWord(topo(f).value);
      assert r.mapa[k] == r.mapa[..m.size][k] == m.mapa[k];
      if IsBridge(topo, f) {
        var j :| |s.bridges| <= j < |m.bridges| && m.bridges[j].f == f;
        assert r.bridges[j] == m.bridges[j];
      }
      if IsEndpoint(topo, f) {
        forall i | 0 <= i < 4 && topo(f).value.bars[i] != 0 ensures HasGrant(r, |s.bars|, f, i, topo(f).value.bars[i]) {
          assert HasGrant(m, |s.bars|, f, i, topo(f).value.bars[i]);
          var j :| |s.bars| <= j < |m.bars| && GrantFor(m.bars[j], f, i, topo(f).value.bars[i]);
          assert r.bars[j] == m.bars[j];
        }
      }
    } else if Recorded(topo, m, r, f) && IsEndpoint(topo, f) {
      forall i | 0 <= i < 4 && topo(f).value.bars[i] != 0 ensures HasGrant(r, |s.bars|, f, i, topo(f).value.bars[i]) {
        assert HasGrant(r, |m.bars|, f, i, topo(f).value.bars[i]);
      }
    }
  }

  /** `x` and then `y`, with nothing due in between, make `w`. */
  ghost predicate Joins(topo: Topology, x: Part, y: Part, w: Part) {
    && x.bus == y.bus == w.bus < x.lo && x.from <= x.to <= y.from <= y.to && x.hi == y.lo && x.lo <= x.hi <= y.hi
    && w == Part(x.bus, x.from, y.to, x.lo, y.hi)
    && forall f: Bdf :: f.bus == x.bus && x.to <= Position(f) < y.from ==> !Found(topo, f)
  }

  lemma GrownThen(s: State, m: State, r: State)
    requires Grown(s, m) && Grown(m, r)
    ensures Grown(s, r)
  {
    assert r.mapa[..s.size] == r.mapa[..m.size][..s.size] == m.mapa[..s.size];
  }

  lemma OnlyDueThen(topo: Topology, x: Part, y: Part, w: Part, s: State, m: State, r: State)
    requires Joins(topo, x, y, w) && Grown(s, m) && Grown(m, r) && Grown(s, r) && OnlyDue(topo, x, s, m) && OnlyDue(topo, y, m, r)
    ensures OnlyDue(topo, w, s, r)
  {
    forall k | s.size <= k < r.size
      ensures if k < m.size then r.mapa[k] == m.mapa[k] && Due(topo, x, r.mapa[k].f) else Due(topo, y, r.mapa[k].f)
    {
      assert k < m.size ==> r.mapa[k] == r.mapa[..m.size][k] == m.mapa[..m.size][k];
    }
    forall j, k | s.size <= j < k < r.size ensures r.mapa[j].f != r.mapa[k].f {
      if j < m.size <= k {
        assert Due(topo, x, r.mapa[j].f) && Due(topo, y, r.mapa[k].f);
      }
    }
    forall k | |s.bridges| <= k < |r.bridges| ensures Due(topo, w, r.bridges[k].f) && IsBridge(topo, r.bridges[k].f) {
      assert k < |m.bridges| ==> r.bridges[k] == m.bridges[k];
    }
    forall k | |s.bars| <= k < |r.bars| ensures Due(topo, w, r.bars[k].f) && Asked(topo, r.bars[k]) {
      assert k < |m.bars| ==> r.bars[k] == m.bars[k];
    }
  }

  lemma CompleteThen(topo: Topology, x: Part, y: Part, w: Part, s: State, m: State, r: State)
    requires Joins(topo, x, y, w) && Complete(topo, x, s, m) && Complete(topo, y, m, r)
    ensures Complete(topo, w, s, r)
  {
    GrownThen(s, m, r);
    OnlyDueThen(topo, x, y, w, s, m, r);
    forall f | Due(topo, w, f) ensures Recorded(topo, s, r, f) {
      RecordedLater(topo, s, m, r, f);
      assert Due(topo, x, f) || Due(topo, y, f);
    }
  }

  lemma NothingDue(topo: Topology, w: Part, s: State, r: State)
    requires AllSound(topo) && Grown(s, r) && r.size == s.size && r.bridges == s.bridges && r.bars == s.bars
    requires forall f :: !Due(topo, w, f)
    ensures Complete(topo, w, s, r)
  {
  }

  lemma OnePosition(f: Bdf, g: Bdf)
    requires f.bus == g.bus && f.fn < 8 && g.fn < 8 && Position(f) == Position(g)
    ensures f == g
  {
  }

  // ---------------------------------------------------------------------------
  // Endpoints
  // ---------------------------------------------------------------------------

  lemma SizeBarAsks(hw: Hardware, topo: Topology, s: State, f: Bdf, i: nat)
    requires Answers(hw, topo) && IsEndpoint(topo, f) && i < 4 && AllSound(topo)
    ensures var r, v := SizeBar(hw, s, f, i), topo(f).value.bars[i];
      if v == 0 then r.bars == s.bars
      else |r.bars| == |s.bars| + 1 && s.bars <= r.bars && GrantFor(r.bars[|s.bars|], f, i, v)
  {
    var log := s.log + [Write(f, OffBar(i), 0xFFFF_FFFF)];
    assert AnswersAs(hw, log, f, topo(f));
    assert Last(log) == Write(f, 0x10 + 4 * i, 0xFFFF_FFFF);
  }

  /** From BAR `i` on, exactly the BARs that answer are granted. */
  lemma {:induction false} SizeBarsAsk(hw: Hardware, topo: Topology, s: State, f: Bdf, i: nat)
    requires Answers(hw, topo) && IsEndpoint(topo, f) && i <= 4 && AllSound(topo)
    ensures var r := SizeBars(hw, s, f, i);
      && s.bars <= r.bars
      && (forall k :: |s.bars| <= k < |r.bars| ==> r.bars[k].f == f && Asked(topo, r.bars[k]))
      && forall j :: i <= j < 4 && topo(f).value.bars[j] != 0 ==> HasGrant(r, |s.bars|, f, j, topo(f).value.bars[j])
    decreases 4 - i
  {
    if i < 4 {
      var m, r := SizeBar(hw, s, f, i), SizeBars(hw, s, f, i);
      SizeBarAsks(hw, topo, s, f, i);
      SizeBarsAsk(hw, topo, m, f, i + 1);
      forall k | |s.bars| <= k < |r.bars| ensures r.bars[k].f == f && Asked(topo, r.bars[k]) {
        assert k < |m.bars| ==> r.bars[k] == m.bars[k];
      }
      forall j | i <= j < 4 && topo(f).value.bars[j] != 0 ensures HasGrant(r, |s.bars|, f, j, topo(f).value.bars[j]) {
        if j == i {
          assert r.bars[|s.bars|] == m.bars[|s.bars|];
        } else {
          assert HasGrant(r, |m.bars|, f, j, topo(f).value.bars[j]);
        }
      }
    }
  }

  lemma EndpointComplete(hw: Hardware, topo: Topology, s: State, f: Bdf)
    requires Answers(hw, topo) && s.Wf() && s.size < MAX_DEVICES && Found(topo, f) && IsEndpoint(topo, f)
    requires s.mapa[s.size].f == f && s.mapa[s.size].classCode == ClassWord(topo(f).value)
    ensures Complete(topo, Part(f.bus, Position(f), Position(f) + 1, s.nextBus, s.nextBus), s, Endpoint(hw, s, f))
  {
    AnswersSound(hw, topo);
    SizeBarsAsk(hw, topo, s, f, 0);
    var w, r := Part(f.bus, Position(f), Position(f) + 1, s.nextBus, s.nextBus), Endpoint(hw, s, f);
    assert r.mapa[s.size].f == f && r.mapa[s.size].classCode == ClassWord(topo(f).value);
    assert Due(topo, w, f);
    forall g | Due(topo, w, g) ensures g == f { OnePosition(f, g); }
    assert HasRow(topo, r, s.size, f);
  }

  // ---------------------------------------------------------------------------
  // Bridges, and the scan
  // ---------------------------------------------------------------------------

  /** The scan of a bus stands at function `fn` of device `dev`: nothing before ended the bus, and the device leads there. */
  ghost predicate ScanAt(topo: Topology, bus: nat, dev: nat, fn: nat) {
    dev < 32 ==> Reaches(topo, Bdf(bus, dev, fn)) && BusGoesOn(topo, Bdf(bus, dev, fn))
  }

  lemma {:induction false} BehindComplete(hw: Hardware, topo: Topology, s: State, f: Bdf)
    requires Answers(hw, topo) && s.Wf() && s.size < MAX_DEVICES && f.bus < s.nextBus && Found(topo, f) && IsBridge(topo, f)
    requires s.mapa[s.size].f == f && s.mapa[s.size].classCode == ClassWord(topo(f).value)
    requires Behind(hw, s, f).size < MAX_DEVICES
    ensures var r := Behind(hw, s, f);
      Complete(topo, Part(f.bus, Position(f), Position(f) + 1, s.nextBus, r.nextBus), s, r)
    decreases MAX_DEVICES - s.size, 0
  {
    var s2, s3 := BehindParts(hw, s, f);
    BusComplete(hw, topo, s2, s.nextBus);
    BridgeAround(hw, topo, s, s2, s3, f);
  }

  /** A bus from its first function. */
  lemma {:induction false} BusComplete(hw: Hardware, topo: Topology, s: State, bus: nat)
    requires Answers(hw, topo) && s.Wf() && bus < s.nextBus && Scan(hw, s, bus, 0, 0).size < MAX_DEVICES
    ensures var r := Scan(hw, s, bus, 0, 0); Complete(topo, Part(bus, 0, 256, s.nextBus, r.nextBus), s, r)
    decreases MAX_DEVICES - s.size, 2 + 9 * 32 + 9, 3
  {
    ScanComplete(hw, topo, s, bus, 0, 0);
  }

  lemma BehindParts(hw: Hardware, s: State, f: Bdf) returns (s2: State, s3: State)
    requires s.Wf() && s.size < MAX_DEVICES
    ensures s2 == OpenBridge(hw, s, f) && s2.Wf() && s2.size == s.size + 1 && s.nextBus < s2.nextBus
    ensures s3 == Scan(hw, s2, s.nextBus, 0, 0) && s3.size <= Behind(hw, s, f).size
    ensures s3.Wf() && s.size < s3.size && Behind(hw, s, f) == CloseBridge(hw, s3, f, s.size, s.nextBus, s2.total)
  {
    s2 := OpenBridge(hw, s, f);
    s3 := Scan(hw, s2, s.nextBus, 0, 0);
    GuardNeverFires(hw, s, f);
  }

  /** A bridge opened, the buses behind it scanned, and the bridge finished. */
  lemma BridgeAround(hw: Hardware, topo: Topology, s: State, s2: State, s3: State, f: Bdf)
    requires s.Wf() && s.size < MAX_DEVICES && f.bus < s.nextBus && Found(topo, f) && IsBridge(topo, f)
    requires s.mapa[s.size].f == f && s.mapa[s.size].classCode == ClassWord(topo(f).value)
    requires s2 == OpenBridge(hw, s, f) && Complete(topo, Part(s.nextBus, 0, 256, s2.nextBus, s3.nextBus), s2, s3)
    ensures var r := CloseBridge(hw, s3, f, s.size, s.nextBus, s2.total);
      Complete(topo, Part(f.bus, Position(f), Position(f) + 1, s.nextBus, r.nextBus), s, r)
  {
    var r := CloseBridge(hw, s3, f, s.size, s.nextBus, s2.total);
    var x, w := Part(s.nextBus, 0, 256, s2.nextBus, s3.nextBus), Part(f.bus, Position(f), Position(f) + 1, s.nextBus, r.nextBus);
    BridgeRows(hw, topo, s, s2, s3, r, f);
    forall g ensures Due(topo, w, g) <==> g == f || Due(topo, x, g) {
      if g.bus == f.bus && Position(g) == Position(f) && Found(topo, g) { OnePosition(f, g); }
    }
    AroundOnlyDue(topo, x, w, s, s2, s3, r, f);
    forall g | Due(topo, w, g) ensures Recorded(topo, s, r, g) {
      if g == f {
        assert r.mapa[s.size].f == f;
        assert r.bridges[|s3.bridges|].f == f;
      } else {
        AroundRecorded(topo, s, s2, s3, r, f, g);
      }
    }
  }

  /** What opening and finishing a bridge does to the rows and the history. */
  ghost predicate Around(s: State, s2: State, s3: State, r: State, f: Bdf) {
    && s.Wf() && s2.Wf() && s3.Wf() && r.Wf() && Grown(s, r) && s2.size == s.size + 1 <= s3.size == r.size
    && s2.bars == s.bars && s2.bridges == s.bridges && r.bars == s3.bars
    && |r.bridges| == |s3.bridges| + 1 && s3.bridges <= r.bridges && r.bridges[|s3.bridges|].f == f
    && r.mapa[s.size].f == f && r.mapa[s.size].classCode == s.mapa[s.size].classCode
    && forall k :: s.size < k < r.size ==> r.mapa[k] == s3.mapa[k]
  }

  lemma BridgeRows(hw: Hardware, topo: Topology, s: State, s2: State, s3: State, r: State, f: Bdf)
    requires s.Wf() && s.size < MAX_DEVICES && s.mapa[s.size].f == f && s2 == OpenBridge(hw, s, f) && Grown(s2, s3)
    requires r == CloseBridge(hw, s3, f, s.size, s.nextBus, s2.total)
    ensures Around(s, s2, s3, r, f)
  {
    assert s3.mapa[s.size] == s3.mapa[..s2.size][s.size] == s2.mapa[s.size];
    assert r.mapa[..s.size] == s3.mapa[..s.size] == s3.mapa[..s2.size][..s.size] == s2.mapa[..s.size];
    assert r.mapa[s.size].f == s3.mapa[s.size].f && r.mapa[s.size].classCode == s3.mapa[s.size].classCode;
  }

  lemma AroundOnlyDue(topo: Topology, x: Part, w: Part, s: State, s2: State, s3: State, r: State, f: Bdf)
    requires Around(s, s2, s3, r, f) && Grown(s2, s3) && OnlyDue(topo, x, s2, s3) && IsBridge(topo, f)
    requires x == Part(s.nextBus, 0, 256, s2.nextBus, s3.nextBus) && f.bus < s.nextBus < s2.nextBus
    requires forall g :: Due(topo, w, g) <==> g == f || Due(topo, x, g)
    ensures OnlyDue(topo, w, s, r)
  {
    forall k | s.size < k < r.size ensures Due(topo, x, r.mapa[k].f) && r.mapa[k].f != f {
      assert r.mapa[k] == s3.mapa[k] && Due(topo, x, s3.mapa[k].f);
    }
    forall k | |s.bridges| <= k < |r.bridges| ensures Due(topo, w, r.bridges[k].f) && IsBridge(topo, r.bridges[k].f) {
      assert k < |s3.bridges| ==> r.bridges[k] == s3.bridges[k];
    }
  }

  lemma AroundRecorded(topo: Topology, s: State, s2: State, s3: State, r: State, f: Bdf, g: Bdf)
    requires Around(s, s2, s3, r, f) && topo(g).Some? && |topo(g).value.bars| == 4
    requires Recorded(topo, s2, s3, g)
    ensures Recorded(topo, s, r, g)
  {
    var k :| s2.size <= k < s3.size && s3.mapa[k].f == g && s3.mapa[k].classCode == ClassWord(topo(g).value);
    assert r.mapa[k] == s3.mapa[k];
    if IsBridge(topo, g) {
      var j :| |s2.bridges| <= j < |s3.bridges| && s3.bridges[j].f == g;
      assert r.bridges[j] == s3.bridges[j];
    }
    if IsEndpoint(topo, g) {
      forall i | 0 <= i < 4 && topo(g).value.bars[i] != 0 ensures HasGrant(r, |s.bars|, g, i, topo(g).value.bars[i]) {
        assert HasGrant(s3, |s2.bars|, g, i, topo(g).value.bars[i]);
      }
    }
  }

  /** How one turn of the inner loop ends says what `f` means for the rest of its bus. */
  ghost predicate EndsAsRuled(topo: Topology, f: Bdf, next: Next) {
    match next
    case Stop(_) => EndsBus(topo, f)
    case NextDevice(_) => !EndsBus(topo, f) && !PassesOn(topo, f)
    case NextFunction(_) => PassesOn(topo, f)
  }

  lemma ReadsKind(hw: Hardware, topo: Topology, s: State, f: Bdf)
    requires Answers(hw, topo)
    ensures var vendor := hw(s.log, f, OFF_VENDOR);
      && (Absent(vendor) <==> topo(f).None?)
      && (topo(f).Some? ==> forall log ::
            var c := hw(log, f, OFF_CLASS);
            c == ClassWord(topo(f).value) && HeaderType(c) == topo(f).value.header && MultiFunction(c) == topo(f).value.multi)
  {
    assert AnswersAs(hw, s.log, f, topo(f));
    forall log | topo(f).Some?
      ensures var c := hw(log, f, OFF_CLASS);
        c == ClassWord(topo(f).value) && HeaderType(c) == topo(f).value.header && MultiFunction(c) == topo(f).value.multi
    {
      assert AnswersAs(hw, log, f, topo(f));
      ClassFields(topo(f).value);
    }
  }

  lemma ClassFields(d: Device)
    requires DeviceSound(d)
    ensures ClassWord(d) < 0x1_0000_0000 && HeaderType(ClassWord(d)) == d.header && MultiFunction(ClassWord(d)) == d.multi
  {
    assert ClassWord(d) / 0x100_0000 == (if d.multi then 0x80 else 0) + d.header;
  }

  lemma {:induction false} VisitComplete(hw: Hardware, topo: Topology, s: State, f: Bdf)
    requires Answers(hw, topo) && s.Wf() && f.bus < s.nextBus && f.dev < 32 && f.fn < 8
    requires ScanAt(topo, f.bus, f.dev, f.fn) && Visit(hw, s, f).s.size < MAX_DEVICES
    ensures var next := Visit(hw, s, f);
      && EndsAsRuled(topo, f, next)
      && Complete(topo, Part(f.bus, Position(f), Position(f) + 1, s.nextBus, next.s.nextBus), s, next.s)
    decreases MAX_DEVICES - s.size, 1
  {
    AnswersSound(hw, topo);
    ReadsKind(hw, topo, s, f);
    var w := Part(f.bus, Position(f), Position(f) + 1, s.nextBus, Visit(hw, s, f).s.nextBus);
    var s0 := Read32(hw, s, f, OFF_VENDOR).0;
    if topo(f).None? {
      NotFoundHere(topo, w, s, s0, f);
    } else {
      var s1 := Identify(hw, s0, f).0;
      IdentifyExact(hw, s0, f);
      assert s1.mapa[s.size].f == f && s1.mapa[s.size].classCode == ClassWord(topo(f).value);
      if IsEndpoint(topo, f) {
        EndpointComplete(hw, topo, s1, f);
        SameBefore(topo, w, s, s1, Visit(hw, s, f).s);
      } else if IsBridge(topo, f) {
        BehindComplete(hw, topo, s1, f);
        SameBefore(topo, w, s, s1, Visit(hw, s, f).s);
      } else {
        NotFoundHere(topo, w, s, s1, f);
      }
    }
  }

  lemma NotFoundHere(topo: Topology, w: Part, s: State, r: State, f: Bdf)
    requires AllSound(topo) && Grown(s, r) && r.size == s.size && r.bridges == s.bridges && r.bars == s.bars
    requires f.fn < 8 && w == Part(f.bus, Position(f), Position(f) + 1, s.nextBus, s.nextBus)
    requires !IsEndpoint(topo, f) && !IsBridge(topo, f)
    ensures Complete(topo, w, s, r)
  {
    forall g ensures !Due(topo, w, g) {
      if Due(topo, w, g) { OnePosition(f, g); }
    }
    NothingDue(topo, w, s, r);
  }

  /** Reading, and writing the row not yet counted, records nothing. */
  lemma SameBefore(topo: Topology, w: Part, s: State, s1: State, r: State)
    requires s.Wf() && s1.Wf() && s1.size == s.size && s1.bridges == s.bridges && s1.bars == s.bars && s1.nextBus == s.nextBus
    requires s1.mapa[..s.size] == s.mapa[..s.size] && Complete(topo, w, s1, r)
    ensures Complete(topo, w, s, r)
  {
    forall f | Due(topo, w, f) ensures Recorded(topo, s, r, f) {
      assert Recorded(topo, s1, r, f);
    }
  }

  /** What the end of a turn at `f` leaves: where the scan goes on, and that nothing in between is found. */
  lemma Onward(topo: Topology, f: Bdf, next: Next) returns (from: nat)
    requires f.dev < 32 && f.fn < 8 && ScanAt(topo, f.bus, f.dev, f.fn) && EndsAsRuled(topo, f, next)
    ensures Position(f) < from <= 256
    ensures from == (if next.Stop? then 256 else if next.NextDevice? then 8 * (f.dev + 1) else Position(f) + 1)
    ensures forall g: Bdf :: g.bus == f.bus && Position(f) < Position(g) < from ==> !Found(topo, g)
    ensures next.NextDevice? ==> ScanAt(topo, f.bus, f.dev + 1, 0)
    ensures next.NextFunction? ==> ScanAt(topo, f.bus, f.dev, f.fn + 1)
  {
    from := if next.Stop? then 256 else if next.NextDevice? then 8 * (f.dev + 1) else Position(f) + 1;
    forall g: Bdf | g.bus == f.bus && Position(f) < Position(g) < from ensures !Found(topo, g) {
      NotReached(topo, f, g, next);
    }
    if next.NextDevice? {
      DeviceDone(topo, f);
    } else if next.NextFunction? {
      var g := Bdf(f.bus, f.dev, f.fn + 1);
      forall k: nat | k < g.fn ensures PassesOn(topo, Bdf(g.bus, g.dev, k)) {
        assert k < f.fn ==> PassesOn(topo, Bdf(f.bus, f.dev, k));
      }
      GoesOnAlike(topo, f, g);
    }
  }

  lemma GoesOnAlike(topo: Topology, f: Bdf, g: Bdf)
    requires BusGoesOn(topo, f) && f.bus == g.bus && f.dev == g.dev
    ensures BusGoesOn(topo, g)
  {
    forall h | Earlier(h, g) && Reaches(topo, h) ensures !EndsBus(topo, h) { assert Earlier(h, f); }
  }

  lemma NotReached(topo: Topology, f: Bdf, g: Bdf, next: Next)
    requires f.dev < 32 && f.fn < 8 && ScanAt(topo, f.bus, f.dev, f.fn) && EndsAsRuled(topo, f, next) && !next.NextFunction?
    requires g.bus == f.bus && Position(f) < Position(g) && (next.NextDevice? ==> Position(g) < 8 * (f.dev + 1))
    ensures !Found(topo, g)
  {
    if g.dev == f.dev {
      assert Reaches(topo, g) ==> PassesOn(topo, Bdf(g.bus, g.dev, f.fn));
    } else if g.fn < 8 {
      assert Earlier(f, g) && Reaches(topo, f);
    }
  }

  lemma DeviceDone(topo: Topology, f: Bdf)
    requires f.dev < 32 && f.fn < 8 && ScanAt(topo, f.bus, f.dev, f.fn) && !EndsBus(topo, f) && !PassesOn(topo, f)
    ensures ScanAt(topo, f.bus, f.dev + 1, 0)
  {
    var n := Bdf(f.bus, f.dev + 1, 0);
    forall g | Earlier(g, n) ensures Reaches(topo, g) ==> !EndsBus(topo, g) {
      if g.dev < f.dev {
        assert Earlier(g, f);
      } else if g.fn < f.fn {
        assert PassesOn(topo, Bdf(f.bus, f.dev, g.fn));
      } else if g.fn > f.fn {
        assert Reaches(topo, g) ==> PassesOn(topo, Bdf(g.bus, g.dev, f.fn));
      }
    }
  }

  /** A device of eight bridges that all lead on. */
  lemma EightDone(topo: Topology, bus: nat, dev: nat)
    requires dev < 32 && ScanAt(topo, bus, dev, 8)
    ensures ScanAt(topo, bus, dev + 1, 0)
  {
    var n := Bdf(bus, dev + 1, 0);
    forall g | Earlier(g, n) && Reaches(topo, g) ensures !EndsBus(topo, g) {
      if g.dev < dev {
        assert Earlier(g, Bdf(bus, dev, 8));
      } else {
        assert PassesOn(topo, Bdf(bus, dev, g.fn));
      }
    }
  }

  /** The rest of a bus, from any point the scan stands at. */
  lemma {:induction false} ScanComplete(hw: Hardware, topo: Topology, s: State, bus: nat, dev: nat, fn: nat)
    requires Answers(hw, topo) && s.Wf() && dev <= 32 && fn <= 8 && (dev == 32 ==> fn == 0) && bus < s.nextBus
    requires ScanAt(topo, bus, dev, fn) && Scan(hw, s, bus, dev, fn).size < MAX_DEVICES
    ensures var r := Scan(hw, s, bus, dev, fn); Complete(topo, Part(bus, 8 * dev + fn, 256, s.nextBus, r.nextBus), s, r)
    decreases MAX_DEVICES - s.size, 2 + 9 * (32 - dev) + (8 - fn), 1
  {
    if dev == 32 {
      NoMore(hw, topo, bus, s);
    } else if fn == 8 {
      EightDone(topo, bus, dev);
      ScanComplete(hw, topo, s, bus, dev + 1, 0);
    } else {
      TurnComplete(hw, topo, s, bus, dev, fn);
    }
  }

  lemma {:induction false} TurnComplete(hw: Hardware, topo: Topology, s: State, bus: nat, dev: nat, fn: nat)
    requires Answers(hw, topo) && s.Wf() && dev < 32 && fn < 8 && bus < s.nextBus && ScanAt(topo, bus, dev, fn)
    requires Resume(hw, Visit(hw, s, Bdf(bus, dev, fn)), bus, dev, fn).size < MAX_DEVICES
    ensures var r := Resume(hw, Visit(hw, s, Bdf(bus, dev, fn)), bus, dev, fn);
      Complete(topo, Part(bus, 8 * dev + fn, 256, s.nextBus, r.nextBus), s, r)
    decreases MAX_DEVICES - s.size, 2 + 9 * (32 - dev) + (8 - fn), 0
  {
    var f := Bdf(bus, dev, fn);
    ResumeGrows(hw, Visit(hw, s, f), bus, dev, fn);
    VisitComplete(hw, topo, s, f);
    ResumeComplete(hw, topo, s, Visit(hw, s, f), f);
  }

  lemma ResumeGrows(hw: Hardware, next: Next, bus: nat, dev: nat, fn: nat)
    requires next.s.Wf() && dev < 32 && fn < 8
    ensures next.s.size <= Resume(hw, next, bus, dev, fn).size && next.s.nextBus <= Resume(hw, next, bus, dev, fn).nextBus
  {
  }

  /** A turn at `f` that was complete, and then the rest of its bus. */
  lemma {:induction false} ResumeComplete(hw: Hardware, topo: Topology, s: State, next: Next, f: Bdf)
    requires Answers(hw, topo) && s.Wf() && next.s.Wf() && f.dev < 32 && f.fn < 8 && f.bus < s.nextBus <= next.s.nextBus
    requires s.size <= next.s.size && ScanAt(topo, f.bus, f.dev, f.fn) && EndsAsRuled(topo, f, next)
    requires Complete(topo, Part(f.bus, Position(f), Position(f) + 1, s.nextBus, next.s.nextBus), s, next.s)
    requires Resume(hw, next, f.bus, f.dev, f.fn).size < MAX_DEVICES
    ensures var r := Resume(hw, next, f.bus, f.dev, f.fn);
      Complete(topo, Part(f.bus, Position(f), 256, s.nextBus, r.nextBus), s, r)
    decreases MAX_DEVICES - s.size, 1 + 9 * (32 - f.dev) + (8 - f.fn), 3
  {
    var from := Onward(topo, f, next);
    match next
    case Stop(m) =>
      NoMore(hw, topo, f.bus, m);
      TurnJoins(topo, f, from, s, m, m);
    case NextDevice(m) => ScanOn(hw, topo, s, m, f, from, f.dev + 1, 0);
    case NextFunction(m) => ScanOn(hw, topo, s, m, f, from, f.dev, f.fn + 1);
  }

  lemma {:induction false} ScanOn(hw: Hardware, topo: Topology, s: State, m: State, f: Bdf, from: nat, dev: nat, fn: nat)
    requires Answers(hw, topo) && s.Wf() && m.Wf() && f.bus < s.nextBus <= m.nextBus && s.size <= m.size
    requires dev <= 32 && fn <= 8 && (dev == 32 ==> fn == 0) && ScanAt(topo, f.bus, dev, fn)
    requires from == 8 * dev + fn <= 256 && Position(f) < from
    requires forall g: Bdf :: g.bus == f.bus && Position(f) < Position(g) < from ==> !Found(topo, g)
    requires Complete(topo, Part(f.bus, Position(f), Position(f) + 1, s.nextBus, m.nextBus), s, m)
    requires Scan(hw, m, f.bus, dev, fn).size < MAX_DEVICES
    ensures var r := Scan(hw, m, f.bus, dev, fn); Complete(topo, Part(f.bus, Position(f), 256, s.nextBus, r.nextBus), s, r)
    decreases MAX_DEVICES - s.size, 2 + 9 * (32 - dev) + (8 - fn), 2
  {
    ScanComplete(hw, topo, m, f.bus, dev, fn);
    TurnJoins(topo, f, from, s, m, Scan(hw, m, f.bus, dev, fn));
  }

  lemma NoMore(hw: Hardware, topo: Topology, bus: nat, s: State)
    requires Answers(hw, topo) && s.Wf()
    ensures Complete(topo, Part(bus, 256, 256, s.nextBus, s.nextBus), s, s)
  {
    AnswersSound(hw, topo);
    NothingDue(topo, Part(bus, 256, 256, s.nextBus, s.nextBus), s, s);
  }

  /** One turn at `f`, and the rest of its bus from position `from` on. */
  lemma TurnJoins(topo: Topology, f: Bdf, from: nat, s: State, m: State, r: State)
    requires s.Wf() && f.bus < s.nextBus && s.nextBus <= m.nextBus <= r.nextBus && Position(f) < from <= 256
    requires Complete(topo, Part(f.bus, Position(f), Position(f) + 1, s.nextBus, m.nextBus), s, m)
    requires Complete(topo, Part(f.bus, from, 256, m.nextBus, r.nextBus), m, r)
    requires forall g: Bdf :: g.bus == f.bus && Position(f) < Position(g) < from ==> !Found(topo, g)
    ensures Complete(topo, Part(f.bus, Position(f), 256, s.nextBus, r.nextBus), s, r)
  {
    CompleteThen(topo, Part(f.bus, Position(f), Position(f) + 1, s.nextBus, m.nextBus), Part(f.bus, from, 256, m.nextBus, r.nextBus),
                 Part(f.bus, Position(f), 256, s.nextBus, r.nextBus), s, m, r);
  }

  /** On hardware that answers as a tree of functions does, an enumeration that leaves room in the table records exactly
      the endpoints and bridges that the scanning rule leads to on bus 0 and on every bus given out: each has one row, with its class, each
      bridge its record, and each BAR that answers its pages. */
  lemma EnumerationComplete(hw: Hardware, topo: Topology, mapa: seq<Row>)
    requires |mapa| == MAX_DEVICES && Answers(hw, topo) && Enumerate(hw, mapa).size < MAX_DEVICES
    ensures var r := Enumerate(hw, mapa);
      Complete(topo, Part(0, 0, 256, 1, r.nextBus), Start(mapa), r)
  {
    ScanComplete(hw, topo, Start(mapa), 0, 0, 0);
  }

  /** The same, function by function: on bus 0 and on every bus given out, a row, a bridge record and a grant are there
      exactly for what the rule finds, and no function has two rows. */
  lemma RecordedIffFound(hw: Hardware, topo: Topology, mapa: seq<Row>, f: Bdf, i: nat)
    requires |mapa| == MAX_DEVICES && Answers(hw, topo) && Enumerate(hw, mapa).size < MAX_DEVICES
    requires f.bus < Enumerate(hw, mapa).nextBus && i < 4
    ensures var r := Enumerate(hw, mapa);
      && (Found(topo, f) <==> exists k :: 0 <= k < r.size && r.mapa[k].f == f)
      && (Found(topo, f) && IsBridge(topo, f) <==> exists k :: 0 <= k < |r.bridges| && r.bridges[k].f == f)
      && (Found(topo, f) && IsEndpoint(topo, f) && DeviceSound(topo(f).value) && topo(f).value.bars[i] != 0
          <==> exists k :: 0 <= k < |r.bars| && r.bars[k].f == f && r.bars[k].index == i)
      && forall j, k :: 0 <= j < k < r.size ==> r.mapa[j].f != r.mapa[k].f
  {
    var r, w := Enumerate(hw, mapa), Part(0, 0, 256, 1, Enumerate(hw, mapa).nextBus);
    EnumerationComplete(hw, topo, mapa);
    if Found(topo, f) {
      assert Due(topo, w, f);
      RecordMeans(topo, Start(mapa), r, f, i);
    }
    forall k | 0 <= k < |r.bridges| && r.bridges[k].f == f ensures Found(topo, f) && IsBridge(topo, f) {
      assert Due(topo, w, r.bridges[k].f);
    }
    forall k | 0 <= k < |r.bars| && r.bars[k].f == f && r.bars[k].index == i
      ensures Found(topo, f) && IsEndpoint(topo, f) && topo(f).value.bars[i] != 0
    {
      assert Asked(topo, r.bars[k]) && Due(topo, w, r.bars[k].f);
    }
  }

  lemma RecordMeans(topo: Topology, s: State, r: State, f: Bdf, i: nat)
    requires r.Wf() && s.size == 0 && s.bars == [] && s.bridges == [] && i < 4
    requires topo(f).Some? && |topo(f).value.bars| == 4 && Recorded(topo, s, r, f)
    ensures exists k :: 0 <= k < r.size && r.mapa[k].f == f
    ensures IsBridge(topo, f) ==> exists k :: 0 <= k < |r.bridges| && r.bridges[k].f == f
    ensures IsEndpoint(topo, f) && topo(f).value.bars[i] != 0 ==> exists k :: 0 <= k < |r.bars| && r.bars[k].f == f && r.bars[k].index == i
  {
    var k :| 0 <= k < r.size && r.mapa[k].f == f;
    if IsEndpoint(topo, f) && topo(f).value.bars[i] != 0 {
      assert HasGrant(r, 0, f, i, topo(f).value.bars[i]);
      var j :| 0 <= j < |r.bars| && GrantFor(r.bars[j], f, i, topo(f).value.bars[i]);
    }
  }

  // ---------------------------------------------------------------------------
  // The rows of endpoints and the first numbering of a bridge
  // ---------------------------------------------------------------------------

  lemma EndpointSpan(hw: Hardware, s: State, f: Bdf)
    requires s.Wf() && s.size < MAX_DEVICES && Exact(s) && s.mapa[s.size].start == 0xC000_0000 + s.total
    requires Endpoint(hw, s, f).total < ADDRESS_ROOM
    ensures var r := Endpoint(hw, s, f);
      r.mapa[s.size] == s.mapa[s.size].(end := 0xC000_0000 + r.total, size := r.total - s.total)
  {
    var bars := SizeBarsExact(hw, s, f, 0);
    CursorSpan(s.total, SizeBars(hw, s, f, 0).total);
  }

  lemma IdentifiedRow(hw: Hardware, s: State, f: Bdf)
    requires s.Wf() && s.size < MAX_DEVICES && Exact(s)
    ensures var r := Identify(hw, s, f).0;
      && r.mapa[s.size].start == 0xC000_0000 + s.total && r.mapa[s.size].f == f && r.mapa[s.size].classCode == Identify(hw, s, f).1
      && r.size == s.size && r.total == s.total && Exact(r)
  {
  }

  /** The row of an endpoint: from the cursor before it to the cursor after it, with its class and its place. */
  lemma EndpointRow(hw: Hardware, s: State, f: Bdf, s0: State, s1: State, classCode: u32)
    requires s.Wf() && s.size < MAX_DEVICES && Exact(s) && !Absent(hw(s.log, f, OFF_VENDOR)) && HeaderType(classCode) == 0
    requires s0 == Read32(hw, s, f, OFF_VENDOR).0 && (s1, classCode) == Identify(hw, s0, f)
    requires Visit(hw, s, f).s.total < ADDRESS_ROOM
    ensures var r := Visit(hw, s, f).s;
      && r.size == s.size + 1
      && r.mapa[s.size] == Row(0xC000_0000 + s.total, 0xC000_0000 + r.total, r.total - s.total, classCode, f)
  {
    EndpointFound(hw, s, f);
    IdentifiedRow(hw, s0, f);
    EndpointSpan(hw, s1, f);
  }

  /** When the scan goes behind a bridge, the bridge sits on its own bus and answers for exactly the new one. */
  lemma FirstNumbering(hw: Hardware, s: State, f: Bdf)
    requires s.Wf() && s.size < MAX_DEVICES && f.bus < 256
    ensures var r := OpenBridge(hw, s, f);
      && r.log != [] && Last(r.log).Write? && Last(r.log).f == f && Last(r.log).off == 0x10
      && var v := Last(r.log).val;
         && v % 0x100 == f.bus && v / 0x100 % 0x100 == s.nextBus && v / 0x1_0000 % 0x100 == s.nextBus
         && exists log :: v / 0x100_0000 == hw(log, f, 0x10) / 0x100_0000
  {
    var s1 := s.(offset := Align64K(s.offset), total := BlockUp(s.total));
    var s2 := SetRow(s1, s1.mapa[s.size].(start := BarAddress(s1)));
    var pss := hw(s2.log, f, OFF_PSS);
    FieldsOf(pss / 0x100_0000, f.bus, s.nextBus, s.nextBus);
    OuterFields(pss / 0x100_0000, f.bus, s.nextBus, s.nextBus);
    assert Last(OpenBridge(hw, s, f).log) == Write(f, OFF_PSS, BusFields(pss / 0x100_0000, f.bus, s.nextBus, s.nextBus));
  }

  /** The last numbering keeps the outer bytes as the bridge answers them. */
  lemma LastNumbering(hw: Hardware, s: State, f: Bdf, sec: nat)
    requires 1 <= sec < s.nextBus <= 256
    ensures var log := ProgramBuses(hw, s, f, sec).log;
      && log != [] && Last(log).Write? && Last(log).f == f && Last(log).off == 0x10
      && var v, was := Last(log).val, hw(s.log, f, 0x10);
         && v % 0x100 == was % 0x100 && v / 0x100_0000 == was / 0x100_0000
         && v / 0x100 % 0x100 == sec && v / 0x1_0000 % 0x100 == s.nextBus - 1
  {
    var pss := hw(s.log, f, OFF_PSS);
    FieldsOf(pss / 0x100_0000, pss % 256, sec, s.nextBus - 1);
    OuterFields(pss / 0x100_0000, pss % 256, sec, s.nextBus - 1);
    assert sec % 256 == sec && (s.nextBus - 1) % 256 == s.nextBus - 1;
    assert Last(ProgramBuses(hw, s, f, sec).log) == Write(f, OFF_PSS, BusFields(pss / 0x100_0000, pss % 256, sec, s.nextBus - 1));
  }

  lemma OuterFields(top: nat, primary: nat, sec: nat, sub: nat)
    requires top < 0x100 && primary < 0x100 && sec < 0x100 && sub < 0x100
    ensures BusFields(top, primary, sec, sub) % 0x100 == primary && BusFields(top, primary, sec, sub) / 0x100_0000 == top
  {
    var v := BusFields(top, primary, sec, sub);
    assert v == 0x100 * (top * 0x1_0000 + sub * 0x100 + sec) + primary;
  }

  /** A window begins on the first 64 KB boundary from the cursor on. */
  lemma WindowBegins(hw: Hardware, s: State, f: Bdf)
    requires s.Wf() && s.size < MAX_DEVICES
    ensures var lo := OpenBridge(hw, s, f).total; lo % 0x1_0000 == 0 && s.total <= lo < s.total + 0x1_0000
  {
  }

  /** It ends on the first such boundary behind what was handed out, or is empty when nothing was. */
  lemma WindowEnds(hw: Hardware, s: State, f: Bdf, idx: nat, sec: nat, lo: nat)
    requires s.Wf() && idx < s.size && lo <= s.total
    ensures var hi := CloseBridge(hw, s, f, idx, sec, lo).total;
      if s.total == lo then hi == lo else hi % 0x1_0000 == 0 && s.total <= hi < s.total + 0x1_0000
  {
  }
}
