/** The translation look-aside buffer: the clocked step of the table as a
    function on its registers, and what that step keeps. */
module Tlb {
  import opened Machine

  datatype Entry = Entry(valid: bool, vpn: nat, pcid: nat, frame: u32, age: nat)

  /** What the pins carry at one rising edge of the clock. */
  datatype Pins = Pins(reset: bool, lookupEn: bool, writeEn: bool, pcid: u32, virtAddr: u32, writePhys: u32)

  function Vpn(virtAddr: u32): nat { virtAddr / 4096 }

  function PcidLow(pcid: u32): nat { pcid % 256 }

  /** Bit 3 of a frame word marks a page shared by every process context. */
  predicate Global(frame: u32) { frame / 8 % 2 == 1 }

  predicate Matches(e: Entry, vpn: nat, pcid: nat) {
    e.valid && e.vpn == vpn && (e.pcid == pcid || Global(e.frame))
  }

  /** The last matching index below `n`; the look-up loop has no exit, so later matches overwrite earlier ones. */
  function LastMatch(t: seq<Entry>, vpn: nat, pcid: nat, n: nat): (r: Option<nat>)
    requires n <= |t|
    ensures r.None? ==> forall i :: 0 <= i < n ==> !Matches(t[i], vpn, pcid)
    ensures r.Some? ==> r.value < n && Matches(t[r.value], vpn, pcid) && forall i :: r.value < i < n ==> !Matches(t[i], vpn, pcid)
  {
    if n == 0 then None
    else if Matches(t[n - 1], vpn, pcid) then Some(n - 1)
    else LastMatch(t, vpn, pcid, n - 1)
  }

  function Find(t: seq<Entry>, pins: Pins): Option<nat> {
    if pins.lookupEn then LastMatch(t, Vpn(pins.virtAddr), PcidLow(pins.pcid), |t|) else None
  }

  /** The first invalid index below `n`. */
  function FirstFree(t: seq<Entry>, n: nat): (r: Option<nat>)
    requires n <= |t|
    ensures r.None? ==> forall i :: 0 <= i < n ==> t[i].valid
    ensures r.Some? ==> r.value < n && !t[r.value].valid && forall i :: 0 <= i < r.value ==> t[i].valid
  {
    if n == 0 then None
    else if FirstFree(t, n - 1).Some? then FirstFree(t, n - 1)
    else if !t[n - 1].valid then Some(n - 1)
    else None
  }

  /** The minimum search of the write path: the smallest age found so far, below `start`, and its first index. */
  function MinAge(t: seq<Entry>, start: nat, n: nat): (r: (nat, nat))
    requires n <= |t|
    ensures r.0 <= start && (|t| > 0 ==> r.1 < |t|)
    ensures forall i :: 0 <= i < n ==> r.0 <= t[i].age
    ensures r.0 < start ==> r.1 < n && t[r.1].age == r.0 && forall i :: 0 <= i < r.1 ==> r.0 < t[i].age
  {
    if n == 0 then (start, 0)
    else
      var (age, idx) := MinAge(t, start, n - 1);
      if t[n - 1].age < age then (t[n - 1].age, n - 1) else (age, idx)
  }

  /** The slot a write replaces, with the age it had. */
  function Victim(t: seq<Entry>, ageBits: nat): (r: (nat, nat))
    requires |t| > 0
    ensures r.0 < |t|
  {
    match FirstFree(t, |t|)
    case Some(i) => (i, t[i].age)
    case None =>
      var (age, idx) := MinAge(t, Pow2(ageBits) - 1, |t|);
      (idx, age)
  }

  /** The largest age, truncated to the width of the age registers. */
  function MaxAge(n: nat, ageBits: nat): nat
    requires n > 0
  {
    (n - 1) % Pow2(ageBits)
  }

  /** Entry `e` once some other entry of age `a` has become the most recent. */
  function Aged(e: Entry, a: nat): Entry {
    if e.valid && e.age > a then e.(age := e.age - 1) else e
  }

  function Written(t: seq<Entry>, ageBits: nat, pins: Pins): seq<Entry>
    requires |t| > 0
  {
    var (target, age) := Victim(t, ageBits);
    seq(|t|, i requires 0 <= i < |t| =>
      if i == target then Entry(true, Vpn(pins.virtAddr), PcidLow(pins.pcid), pins.writePhys, MaxAge(|t|, ageBits))
      else Aged(t[i], age))
  }

  function Promoted(t: seq<Entry>, ageBits: nat, hit: nat): seq<Entry>
    requires hit < |t|
  {
    seq(|t|, i requires 0 <= i < |t| =>
      if i == hit then t[i].(age := MaxAge(|t|, ageBits)) else Aged(t[i], t[hit].age))
  }

  /** The registers after one rising edge. */
  function Step(t: seq<Entry>, ageBits: nat, pins: Pins): (r: seq<Entry>)
    requires |t| > 0
    ensures |r| == |t|
  {
    if pins.reset then seq(|t|, i requires 0 <= i < |t| => t[i].(valid := false, age := 0))
    else if pins.writeEn then Written(t, ageBits, pins)
    else match Find(t, pins)
      case Some(hit) => Promoted(t, ageBits, hit)
      case None => t
  }

  /** The registers after a reset of power-up contents `init` and then the clocks `run`. */
  function Run(init: seq<Entry>, ageBits: nat, run: seq<Pins>): (t: seq<Entry>)
    requires |init| > 0
    ensures |t| == |init|
  {
    if run == [] then seq(|init|, i requires 0 <= i < |init| => init[i].(valid := false, age := 0))
    else Step(Run(init, ageBits, Front(run)), ageBits, Last(run))
  }

  // ---------------------------------------------------------------------------
  // Ages are exactly a recency list
  // ---------------------------------------------------------------------------

  /** `order` lists the valid slots, least recently used first, and the ages say the same. */
  ghost predicate Rep(t: seq<Entry>, order: seq<nat>) {
    && |order| <= |t|
    && (forall j :: 0 <= j < |order| ==> order[j] < |t| && t[order[j]].valid && t[order[j]].age == |t| - |order| + j)
    && (forall i :: 0 <= i < |t| && t[i].valid ==> i in order)
    && (forall i :: 0 <= i < |t| && !t[i].valid ==> t[i].age == 0)
  }

  /** Slot `s` moved to the recent end, whether or not it was listed. */
  function Touch(order: seq<nat>, s: nat): (r: seq<nat>)
    ensures s in order ==> |r| == |order|
    ensures s !in order ==> r == order + [s]
  {
    Without(order, s) + [s]
  }

  function Without(order: seq<nat>, s: nat): (r: seq<nat>)
    ensures s !in order ==> r == order
    ensures s in order ==> |r| == |order| - 1
  {
    if order == [] then []
    else if order[0] == s then order[1..]
    else [order[0]] + Without(order[1..], s)
  }

  lemma {:induction false} WithoutAt(order: seq<nat>, p: nat)
    requires p < |order| && forall j :: 0 <= j < p ==> order[j] != order[p]
    ensures Without(order, order[p]) == order[..p] + order[p + 1..]
  {
    if p > 0 {
      WithoutAt(order[1..], p - 1);
    }
  }

  /** The slot a clock touches: written, or promoted by a hit. */
  function Touched(t: seq<Entry>, ageBits: nat, pins: Pins): (r: Option<nat>)
    requires |t| > 0
    ensures r.Some? ==> r.value < |t|
  {
    if pins.reset then None
    else if pins.writeEn then Some(Victim(t, ageBits).0)
    else Find(t, pins)
  }

  /** The recency list kept by hand: emptied by reset, each touched slot moved to the end. */
  function NextOrder(t: seq<Entry>, order: seq<nat>, ageBits: nat, pins: Pins): seq<nat>
    requires |t| > 0
  {
    if pins.reset then []
    else match Touched(t, ageBits, pins)
      case Some(s) => Touch(order, s)
      case None => order
  }

  function Order(init: seq<Entry>, ageBits: nat, run: seq<Pins>): seq<nat>
    requires |init| > 0
  {
    if run == [] then []
    else
      var prev := Front(run);
      NextOrder(Run(init, ageBits, prev), Order(init, ageBits, prev), ageBits, Last(run))
  }

  lemma RepInjective(t: seq<Entry>, order: seq<nat>)
    requires Rep(t, order)
    ensures Distinct(order)
  {
    forall j, k | 0 <= j < k < |order|
      ensures order[j] != order[k]
    {
      assert t[order[j]].age < t[order[k]].age;
    }
  }

  /** Where touching puts every slot of a list without repeats. */
  lemma TouchAt(order: seq<nat>, p: nat)
    requires Distinct(order) && p < |order|
    ensures Touch(order, order[p]) == order[..p] + order[p + 1..] + [order[p]]
    ensures forall i :: i in order ==> i in Touch(order, order[p])
  {
    WithoutAt(order, p);
    var o := order[..p] + order[p + 1..] + [order[p]];
    forall i | i in order
      ensures i in o
    {
      var q :| 0 <= q < |order| && order[q] == i;
      if q < p {
        assert o[q] == i;
      } else if p < q {
        assert o[q - 1] == i;
      } else {
        assert o[|order| - 1] == i;
      }
    }
  }

  /** The touched slot becomes the youngest, and only what was younger than it loses one place. */
  lemma TouchKeepsRep(t: seq<Entry>, order: seq<nat>, p: nat, t': seq<Entry>)
    requires Rep(t, order) && p < |order| && |t'| == |t|
    requires t'[order[p]].valid && t'[order[p]].age == |t| - 1
    requires forall i :: 0 <= i < |t| && i != order[p] ==> t'[i] == Aged(t[i], t[order[p]].age)
    ensures Rep(t', Touch(order, order[p]))
  {
    RepInjective(t, order);
    TouchAt(order, p);
    var o := order[..p] + order[p + 1..] + [order[p]];
    forall j | 0 <= j < |o|
      ensures o[j] < |t| && t'[o[j]].valid && t'[o[j]].age == |t| - |o| + j
    {
      if j < |o| - 1 {
        var q := if j < p then j else j + 1;
        assert o[j] == order[q];
        assert order[q] != order[p];
        assert t'[order[q]] == Aged(t[order[q]], t[order[p]].age);
      }
    }
    forall i | 0 <= i < |t|
      ensures t'[i].valid == t[i].valid && (!t[i].valid ==> t'[i].age == 0)
    {
      assert i == order[p] || t'[i] == Aged(t[i], t[order[p]].age);
    }
  }

  /** A free slot taken by a write: every listed slot loses one place, its age being above 0. */
  lemma InsertKeepsRep(t: seq<Entry>, order: seq<nat>, s: nat, t': seq<Entry>)
    requires Rep(t, order) && s < |t| && !t[s].valid && |t'| == |t|
    requires t'[s].valid && t'[s].age == |t| - 1
    requires forall i :: 0 <= i < |t| && i != s ==> t'[i] == Aged(t[i], 0)
    ensures Touch(order, s) == order + [s] && |order| < |t|
    ensures Rep(t', Touch(order, s))
  {
    RepInjective(t, order);
    Pigeonhole(order, |t|);
    assert s !in order;
    var o := Touch(order, s);
    forall j | 0 <= j < |o|
      ensures o[j] < |t| && t'[o[j]].valid && t'[o[j]].age == |t| - |o| + j
    {
      if j < |order| {
        assert o[j] == order[j];
      }
    }
    forall i | 0 <= i < |t| && t'[i].valid
      ensures i in o
    {
      if i == s { assert o[|o| - 1] == s; }
    }
  }

  /** When every slot is valid the list names them all. */
  lemma FullOrder(t: seq<Entry>, order: seq<nat>)
    requires Rep(t, order) && forall i :: 0 <= i < |t| ==> t[i].valid
    ensures |order| == |t|
  {
    var all := seq(|t|, i => i);
    forall i | 0 <= i < |t| ensures all[i] in order { assert t[i].valid; }
    Covers(all, order);
  }

  /** In a full table the minimum search returns the slot at the head of the recency list, the only one of age 0. */
  lemma FullVictim(t: seq<Entry>, order: seq<nat>, ageBits: nat)
    requires 2 <= |t| <= Pow2(ageBits) && Rep(t, order) && FirstFree(t, |t|).None?
    ensures |order| == |t|
    ensures Victim(t, ageBits) == (order[0], 0)
    ensures forall i :: 0 <= i < |t| && t[i].age == 0 ==> i == order[0]
  {
    RepInjective(t, order);
    FullOrder(t, order);
    assert t[order[0]].age == 0;
    forall i | 0 <= i < |t| && t[i].age == 0
      ensures i == order[0]
    {
      var j :| 0 <= j < |order| && order[j] == i;
      assert t[order[j]].age == j;
    }
  }

  /** Every clock keeps the ages in step with the recency list. */
  lemma StepKeepsRep(t: seq<Entry>, order: seq<nat>, ageBits: nat, pins: Pins)
    requires 2 <= |t| <= Pow2(ageBits) && Rep(t, order)
    ensures Rep(Step(t, ageBits, pins), NextOrder(t, order, ageBits, pins))
  {
    assert MaxAge(|t|, ageBits) == |t| - 1 by { SmallMod(|t| - 1, Pow2(ageBits)); }
    var t' := Step(t, ageBits, pins);
    if pins.reset {
    } else if pins.writeEn {
      match FirstFree(t, |t|)
      case Some(s) =>
        InsertKeepsRep(t, order, s, t');
      case None =>
        FullVictim(t, order, ageBits);
        TouchKeepsRep(t, order, 0, t');
    } else {
      match Find(t, pins)
      case Some(hit) =>
        var p :| 0 <= p < |order| && order[p] == hit;
        TouchKeepsRep(t, order, p, t');
      case None =>
    }
  }

  lemma SmallMod(a: nat, b: nat)
    requires a < b
    ensures a % b == a
  {
  }

  /** After reset and any run, the recency list kept by hand is what the ages encode. */
  lemma {:induction false} RunKeepsRep(init: seq<Entry>, ageBits: nat, run: seq<Pins>)
    requires 2 <= |init| <= Pow2(ageBits)
    ensures Rep(Run(init, ageBits, run), Order(init, ageBits, run))
  {
    if run != [] {
      var prev := Front(run);
      RunKeepsRep(init, ageBits, prev);
      StepKeepsRep(Run(init, ageBits, prev), Order(init, ageBits, prev), ageBits, Last(run));
    }
  }

  // ---------------------------------------------------------------------------
  // The table refines a list-based LRU cache
  // ---------------------------------------------------------------------------

  datatype Line = Line(vpn: nat, pcid: nat, frame: u32)

  predicate LineMatches(l: Line, vpn: nat, pcid: nat) {
    l.vpn == vpn && (l.pcid == pcid || Global(l.frame))
  }

  function LineOf(e: Entry): Line { Line(e.vpn, e.pcid, e.frame) }

  /** The cached lines, least recently used first. */
  function Cache(t: seq<Entry>, order: seq<nat>): (c: seq<Line>)
    requires forall j :: 0 <= j < |order| ==> order[j] < |t|
    ensures |c| == |order| && forall j :: 0 <= j < |c| ==> c[j] == LineOf(t[order[j]])
  {
    seq(|order|, j requires 0 <= j < |order| => LineOf(t[order[j]]))
  }

  /** One clock of an LRU cache of capacity `n` kept as a plain list of lines. */
  ghost predicate LruNext(n: nat, c: seq<Line>, pins: Pins, c': seq<Line>) {
    var vpn, pcid := Vpn(pins.virtAddr), PcidLow(pins.pcid);
    if pins.reset then c' == []
    else if pins.writeEn then
      c' == (if |c| < n then c else if c == [] then [] else c[1..]) + [Line(vpn, pcid, pins.writePhys)]
    else if pins.lookupEn && exists p :: 0 <= p < |c| && LineMatches(c[p], vpn, pcid) then
      exists p :: 0 <= p < |c| && LineMatches(c[p], vpn, pcid) && c' == c[..p] + c[p + 1..] + [c[p]]
    else c' == c
  }

  /** `c` is a content the list-based cache can have after `run`. */
  ghost predicate LruRun(n: nat, run: seq<Pins>, c: seq<Line>) {
    if run == [] then c == []
    else exists c0 :: LruRun(n, Front(run), c0) && LruNext(n, c0, Last(run), c)
  }

  lemma CacheMatch(t: seq<Entry>, order: seq<nat>, pins: Pins)
    requires Rep(t, order)
    ensures (exists p :: 0 <= p < |order| && LineMatches(Cache(t, order)[p], Vpn(pins.virtAddr), PcidLow(pins.pcid)))
       <==> LastMatch(t, Vpn(pins.virtAddr), PcidLow(pins.pcid), |t|).Some?
  {
    var vpn, pcid := Vpn(pins.virtAddr), PcidLow(pins.pcid);
    var m := LastMatch(t, vpn, pcid, |t|);
    if m.Some? {
      var p :| 0 <= p < |order| && order[p] == m.value;
      assert LineMatches(Cache(t, order)[p], vpn, pcid);
    }
    forall p | 0 <= p < |order| && LineMatches(Cache(t, order)[p], vpn, pcid)
      ensures m.Some?
    {
      assert Matches(t[order[p]], vpn, pcid);
    }
  }

  /** Touching position `p` moves its line to the recent end of the cache. */
  lemma CacheTouch(t: seq<Entry>, order: seq<nat>, p: nat, t': seq<Entry>)
    requires Distinct(order) && p < |order| && |t'| == |t|
    requires forall j :: 0 <= j < |order| ==> order[j] < |t|
    requires forall i :: 0 <= i < |t| && i != order[p] ==> LineOf(t'[i]) == LineOf(t[i])
    ensures forall j :: 0 <= j < |order| ==> Touch(order, order[p])[j] < |t|
    ensures var c := Cache(t, order);
            Cache(t', Touch(order, order[p])) == c[..p] + c[p + 1..] + [LineOf(t'[order[p]])]
  {
    TouchAt(order, p);
    var o := order[..p] + order[p + 1..] + [order[p]];
    forall j | 0 <= j < |o|
      ensures o[j] < |t| && (j < |o| - 1 ==> LineOf(t'[o[j]]) == LineOf(t[if j < p then order[j] else order[j + 1]]))
    {
      assert j < |o| - 1 ==> o[j] == order[if j < p then j else j + 1] != order[p];
    }
  }

  lemma CacheInsert(t: seq<Entry>, order: seq<nat>, s: nat, t': seq<Entry>)
    requires s < |t| && |t'| == |t| && s !in order
    requires forall j :: 0 <= j < |order| ==> order[j] < |t|
    requires forall i :: 0 <= i < |t| && i != s ==> LineOf(t'[i]) == LineOf(t[i])
    ensures Cache(t', order + [s]) == Cache(t, order) + [LineOf(t'[s])]
  {
  }

  /** A write changes the line of the victim's slot and of no other. */
  lemma WrittenLines(t: seq<Entry>, ageBits: nat, pins: Pins)
    requires |t| > 0
    ensures var s := Victim(t, ageBits).0;
            var t' := Written(t, ageBits, pins);
            && |t'| == |t|
            && LineOf(t'[s]) == Line(Vpn(pins.virtAddr), PcidLow(pins.pcid), pins.writePhys)
            && forall i :: 0 <= i < |t| && i != s ==> LineOf(t'[i]) == LineOf(t[i])
  {
  }

  /** A listed order that misses a slot is not full. */
  lemma FreeSlotLeavesRoom(t: seq<Entry>, order: seq<nat>, s: nat)
    requires Rep(t, order) && s < |t| && !t[s].valid
    ensures s !in order && |order| < |t|
  {
    RepInjective(t, order);
    Pigeonhole(order, |t|);
  }

  lemma InsertRefinesLru(t: seq<Entry>, order: seq<nat>, ageBits: nat, pins: Pins)
    requires Rep(t, order) && FirstFree(t, |t|).Some? && pins.writeEn && !pins.reset
    ensures var order' := order + [Victim(t, ageBits).0];
            && Touch(order, Victim(t, ageBits).0) == order'
            && LruNext(|t|, Cache(t, order), pins, Cache(Written(t, ageBits, pins), order'))
  {
    var s := FirstFree(t, |t|).value;
    WrittenLines(t, ageBits, pins);
    FreeSlotLeavesRoom(t, order, s);
    CacheInsert(t, order, s, Written(t, ageBits, pins));
  }

  lemma ReplaceRefinesLru(t: seq<Entry>, order: seq<nat>, ageBits: nat, pins: Pins)
    requires 2 <= |t| <= Pow2(ageBits) && Rep(t, order)
    requires FirstFree(t, |t|).None? && pins.writeEn && !pins.reset
    ensures forall j :: 0 <= j < |Touch(order, Victim(t, ageBits).0)| ==> Touch(order, Victim(t, ageBits).0)[j] < |t|
    ensures LruNext(|t|, Cache(t, order), pins, Cache(Written(t, ageBits, pins), Touch(order, Victim(t, ageBits).0)))
  {
    var c := Cache(t, order);
    WrittenLines(t, ageBits, pins);
    RepInjective(t, order);
    FullVictim(t, order, ageBits);
    CacheTouch(t, order, 0, Written(t, ageBits, pins));
    DropFirst(c, Line(Vpn(pins.virtAddr), PcidLow(pins.pcid), pins.writePhys));
  }

  lemma DropFirst(c: seq<Line>, x: Line)
    requires c != []
    ensures c[..0] + c[1..] + [x] == c[1..] + [x]
  {
  }

  lemma HitRefinesLru(t: seq<Entry>, order: seq<nat>, ageBits: nat, pins: Pins)
    requires 2 <= |t| && Rep(t, order) && !pins.writeEn && !pins.reset && Find(t, pins).Some?
    requires Rep(Step(t, ageBits, pins), NextOrder(t, order, ageBits, pins))
    ensures LruNext(|t|, Cache(t, order), pins, Cache(Step(t, ageBits, pins), NextOrder(t, order, ageBits, pins)))
  {
    RepInjective(t, order);
    var hit := Find(t, pins).value;
    var p :| 0 <= p < |order| && order[p] == hit;
    CacheTouch(t, order, p, Promoted(t, ageBits, hit));
    assert LineMatches(Cache(t, order)[p], Vpn(pins.virtAddr), PcidLow(pins.pcid));
  }

  lemma StepRefinesLru(t: seq<Entry>, order: seq<nat>, ageBits: nat, pins: Pins)
    requires 2 <= |t| <= Pow2(ageBits) && Rep(t, order)
    ensures Rep(Step(t, ageBits, pins), NextOrder(t, order, ageBits, pins))
    ensures LruNext(|t|, Cache(t, order), pins, Cache(Step(t, ageBits, pins), NextOrder(t, order, ageBits, pins)))
  {
    StepKeepsRep(t, order, ageBits, pins);
    if !pins.reset {
      if pins.writeEn {
        if FirstFree(t, |t|).Some? {
          InsertRefinesLru(t, order, ageBits, pins);
        } else {
          ReplaceRefinesLru(t, order, ageBits, pins);
        }
      } else if Find(t, pins).Some? {
        HitRefinesLru(t, order, ageBits, pins);
      } else {
        CacheMatch(t, order, pins);
      }
    }
  }

  /** Any run of reset, write, hit and idle clocks is a run of the list-based cache, ages giving the recency order. */
  lemma {:induction false} RunRefinesLru(init: seq<Entry>, ageBits: nat, run: seq<Pins>)
    requires 2 <= |init| <= Pow2(ageBits)
    ensures Rep(Run(init, ageBits, run), Order(init, ageBits, run))
    ensures LruRun(|init|, run, Cache(Run(init, ageBits, run), Order(init, ageBits, run)))
  {
    if run != [] {
      var prev := Front(run);
      RunRefinesLru(init, ageBits, prev);
      StepRefinesLru(Run(init, ageBits, prev), Order(init, ageBits, prev), ageBits, Last(run));
    }
  }

  /** Slot `i` is the only valid one of age `a`. */
  ghost predicate OnlyAge(t: seq<Entry>, a: nat, i: nat) {
    && i < |t| && t[i].valid && t[i].age == a
    && forall k :: 0 <= k < |t| && t[k].valid && t[k].age == a ==> k == i
  }

  ghost predicate HasOnce(t: seq<Entry>, a: nat) {
    exists i :: OnlyAge(t, a, i)
  }

  /** In every reachable state the k valid entries carry the ages n-k .. n-1, once each, and invalid entries age 0. */
  lemma AgesExact(init: seq<Entry>, ageBits: nat, run: seq<Pins>)
    requires 2 <= |init| <= Pow2(ageBits)
    ensures var t := Run(init, ageBits, run);
            var k := |Order(init, ageBits, run)|;
            && k <= |t|
            && (forall i :: 0 <= i < |t| && t[i].valid ==> |t| - k <= t[i].age < |t|)
            && (forall i :: 0 <= i < |t| && !t[i].valid ==> t[i].age == 0)
            && (forall a: nat :: |t| - k <= a < |t| ==> HasOnce(t, a))
  {
    RunKeepsRep(init, ageBits, run);
    var t, order := Run(init, ageBits, run), Order(init, ageBits, run);
    forall i | 0 <= i < |t| && t[i].valid
      ensures |t| - |order| <= t[i].age < |t|
    {
      var j :| 0 <= j < |order| && order[j] == i;
    }
    RepAgesDistinct(t, order);
    forall a: nat | |t| - |order| <= a < |t|
      ensures HasOnce(t, a)
    {
      assert OnlyAge(t, a, order[a - (|t| - |order|)]);
    }
  }

  // ---------------------------------------------------------------------------
  // The evicted entry is the one untouched for longest
  // ---------------------------------------------------------------------------

  /** The number of the clock that last wrote or hit `slot`, counting from 1; 0 if none did. */
  function LastTouch(init: seq<Entry>, ageBits: nat, run: seq<Pins>, slot: nat): (k: nat)
    requires |init| > 0
    ensures k <= |run|
  {
    if run == [] then 0
    else
      var prev := Front(run);
      if Touched(Run(init, ageBits, prev), ageBits, Last(run)) == Some(slot) then |run|
      else LastTouch(init, ageBits, prev, slot)
  }

  ghost predicate SortedBy(order: seq<nat>, time: nat -> nat) {
    forall j, k :: 0 <= j < k < |order| ==> time(order[j]) < time(order[k])
  }

  /** A list without its place `p`, and then `s`, which is later than all of it. */
  lemma MovedSorted(order: seq<nat>, p: nat, s: nat, before: nat -> nat, after: nat -> nat)
    requires Distinct(order) && SortedBy(order, before) && p < |order| && order[p] == s
    requires forall i :: i != s ==> after(i) == before(i)
    requires forall i :: before(i) < after(s)
    ensures SortedBy(order[..p] + order[p + 1..] + [s], after)
  {
    var o := order[..p] + order[p + 1..];
    forall j | 0 <= j < |o|
      ensures o[j] != s && o[j] == order[if j < p then j else j + 1]
    {
    }
    AppendedSorted(o, s, before, after);
  }

  lemma AppendedSorted(order: seq<nat>, s: nat, before: nat -> nat, after: nat -> nat)
    requires SortedBy(order, before) && s !in order
    requires forall i :: i != s ==> after(i) == before(i)
    requires forall i :: before(i) < after(s)
    ensures SortedBy(order + [s], after)
  {
    assert forall j :: 0 <= j < |order| ==> order[j] != s;
  }

  lemma TouchSorted(order: seq<nat>, s: nat, before: nat -> nat, after: nat -> nat)
    requires Distinct(order) && SortedBy(order, before)
    requires forall i :: i != s ==> after(i) == before(i)
    requires forall i :: before(i) < after(s)
    ensures SortedBy(Touch(order, s), after)
  {
    if s in order {
      var p :| 0 <= p < |order| && order[p] == s;
      WithoutAt(order, p);
      MovedSorted(order, p, s, before, after);
    } else {
      AppendedSorted(order, s, before, after);
    }
  }

  /** The recency list is sorted by the time of the last touch. */
  lemma {:induction false} OrderIsByTime(init: seq<Entry>, ageBits: nat, run: seq<Pins>)
    requires 2 <= |init| <= Pow2(ageBits)
    ensures SortedBy(Order(init, ageBits, run), s => LastTouch(init, ageBits, run, s))
  {
    if run != [] {
      var prev := Front(run);
      OrderIsByTime(init, ageBits, prev);
      RunKeepsRep(init, ageBits, prev);
      var order := Order(init, ageBits, prev);
      RepInjective(Run(init, ageBits, prev), order);
      var before := s => LastTouch(init, ageBits, prev, s);
      var after := s => LastTouch(init, ageBits, run, s);
      match Touched(Run(init, ageBits, prev), ageBits, Last(run))
      case None =>
      case Some(s) =>
        forall i: nat ensures after(i) == if i == s then |run| else before(i) { }
        TouchSorted(order, s, before, after);
    }
  }

  /** A write into a full table evicts the slot whose last touch is older than every other slot's. */
  lemma VictimUntouchedLongest(init: seq<Entry>, ageBits: nat, run: seq<Pins>, slot: nat)
    requires 2 <= |init| <= Pow2(ageBits) && slot < |init|
    requires FirstFree(Run(init, ageBits, run), |init|).None?
    ensures var victim := Victim(Run(init, ageBits, run), ageBits).0;
            slot != victim ==> LastTouch(init, ageBits, run, victim) < LastTouch(init, ageBits, run, slot)
  {
    var t, order := Run(init, ageBits, run), Order(init, ageBits, run);
    RunKeepsRep(init, ageBits, run);
    OrderIsByTime(init, ageBits, run);
    FullVictim(t, order, ageBits);
    assert t[slot].valid;
    var j :| 0 <= j < |order| && order[j] == slot;
    var time := s => LastTouch(init, ageBits, run, s);
    assert SortedBy(order, time);
    assert j > 0 ==> time(order[0]) < time(order[j]);
  }

  // ---------------------------------------------------------------------------
  // The age registers are wide enough exactly when n <= 2^ageBits
  // ---------------------------------------------------------------------------

  ghost predicate AgesDistinct(t: seq<Entry>) {
    forall i, j :: 0 <= i < j < |t| && t[i].valid && t[j].valid ==> t[i].age != t[j].age
  }

  lemma {:induction false} AgesFit(init: seq<Entry>, ageBits: nat, run: seq<Pins>)
    requires |init| > 0
    ensures forall i :: 0 <= i < |init| ==> Run(init, ageBits, run)[i].age < Pow2(ageBits)
  {
    if run != [] {
      AgesFit(init, ageBits, Front(run));
    }
  }

  ghost predicate FirstValid(t: seq<Entry>, k: nat) {
    forall i :: 0 <= i < |t| ==> (t[i].valid <==> i < k)
  }

  lemma FillOne(t: seq<Entry>, ageBits: nat, k: nat, pins: Pins)
    requires k < |t| && FirstValid(t, k)
    ensures FirstValid(Written(t, ageBits, pins), k + 1)
  {
    FirstFreeIs(t, k, |t|);
  }

  lemma {:induction false} FirstFreeIs(t: seq<Entry>, k: nat, n: nat)
    requires n <= |t| && k < |t| && FirstValid(t, k)
    ensures FirstFree(t, n) == if n <= k then None else Some(k)
  {
    if n > 0 { FirstFreeIs(t, k, n - 1); }
  }

  /** `k` writes after reset fill the first `k` slots, whatever the widths. */
  lemma {:induction false} Fill(init: seq<Entry>, ageBits: nat, run: seq<Pins>)
    requires |run| <= |init| && 0 < |init|
    requires forall j :: 0 <= j < |run| ==> run[j].writeEn && !run[j].reset
    ensures FirstValid(Run(init, ageBits, run), |run|)
  {
    if run != [] {
      Fill(init, ageBits, Front(run));
      FillOne(Run(init, ageBits, Front(run)), ageBits, |run| - 1, Last(run));
    }
  }

  /** With fewer age values than entries, filling the table leaves two valid entries of one age. */
  lemma NarrowAgesCollide(init: seq<Entry>, ageBits: nat)
    requires |init| > Pow2(ageBits)
    ensures exists run :: !AgesDistinct(Run(init, ageBits, run))
  {
    var n := |init|;
    var pins := Pins(false, false, true, 0, 0, 0);
    var run := seq(n, _ => pins);
    Fill(init, ageBits, run);
    AgesFit(init, ageBits, run);
    var t := Run(init, ageBits, run);
    var ages := seq(n, i requires 0 <= i < n => t[i].age);
    if Distinct(ages) {
      Pigeonhole(ages, Pow2(ageBits));
    }
    var j, k :| 0 <= j < k < n && ages[j] == ages[k];
    assert t[j].age == t[k].age && t[j].valid && t[k].valid;
    assert !AgesDistinct(t);
  }

  /** Exact LRU order survives every run if and only if the age registers can count the entries. */
  lemma ExactIffWide(init: seq<Entry>, ageBits: nat)
    requires 2 <= |init|
    ensures (forall run :: AgesDistinct(Run(init, ageBits, run))) <==> |init| <= Pow2(ageBits)
  {
    if |init| <= Pow2(ageBits) {
      forall run
        ensures AgesDistinct(Run(init, ageBits, run))
      {
        RunKeepsRep(init, ageBits, run);
        RepAgesDistinct(Run(init, ageBits, run), Order(init, ageBits, run));
      }
    } else {
      NarrowAgesCollide(init, ageBits);
    }
  }

  lemma RepAgesDistinct(t: seq<Entry>, order: seq<nat>)
    requires Rep(t, order)
    ensures AgesDistinct(t)
  {
    forall i, j | 0 <= i < j < |t| && t[i].valid && t[j].valid
      ensures t[i].age != t[j].age
    {
      var p :| 0 <= p < |order| && order[p] == i;
      var q :| 0 <= q < |order| && order[q] == j;
    }
  }

  // ---------------------------------------------------------------------------
  // Hits agree with the page table
  // ---------------------------------------------------------------------------

  /** The translation of a page number in a process context. */
  type PageTable = (nat, nat) -> u32

  ghost predicate GlobalsShared(pt: PageTable) {
    forall v, p, q :: Global(pt(v, p)) ==> pt(v, q) == pt(v, p)
  }

  /** Valid entries agree with the page table, and no two of them can match one look-up. */
  ghost predicate Coherent(t: seq<Entry>, pt: PageTable) {
    && (forall i :: 0 <= i < |t| && t[i].valid ==> t[i].frame == pt(t[i].vpn, t[i].pcid))
    && (forall i, j :: 0 <= i < |t| && 0 <= j < |t| && i != j && t[i].valid && t[j].valid && t[i].vpn == t[j].vpn ==>
          t[i].pcid != t[j].pcid && !Global(t[i].frame))
  }

  /** The page walker's rule: a write stores the page-table entry of a page that misses just then. */
  ghost predicate WalkerRule(init: seq<Entry>, ageBits: nat, pt: PageTable, run: seq<Pins>)
    requires |init| > 0
  {
    run == [] ||
    (var prev, pins := Front(run), Last(run);
     var vpn, pcid := Vpn(pins.virtAddr), PcidLow(pins.pcid);
     && WalkerRule(init, ageBits, pt, prev)
     && (!pins.reset && pins.writeEn ==>
           && pins.writePhys == pt(vpn, pcid)
           && LastMatch(Run(init, ageBits, prev), vpn, pcid, |init|).None?))
  }

  /** Writing a page-table entry keeps the table coherent exactly when no entry but the victim matches that page. */
  lemma WriteCoherentIff(t: seq<Entry>, ageBits: nat, pt: PageTable, pins: Pins)
    requires |t| > 0 && Coherent(t, pt) && GlobalsShared(pt)
    requires pins.writePhys == pt(Vpn(pins.virtAddr), PcidLow(pins.pcid))
    ensures Coherent(Written(t, ageBits, pins), pt)
       <==> forall i :: 0 <= i < |t| && Matches(t[i], Vpn(pins.virtAddr), PcidLow(pins.pcid)) ==> i == Victim(t, ageBits).0
  {
    var vpn, pcid := Vpn(pins.virtAddr), PcidLow(pins.pcid);
    var s, t' := Victim(t, ageBits).0, Written(t, ageBits, pins);
    forall i | 0 <= i < |t| && i != s
      ensures LineOf(t'[i]) == LineOf(t[i]) && t'[i].valid == t[i].valid
    {
    }
    assert t'[s].valid && LineOf(t'[s]) == Line(vpn, pcid, pins.writePhys);
    if i :| 0 <= i < |t| && Matches(t[i], vpn, pcid) && i != s {
      assert t'[i].valid && t'[i].vpn == t'[s].vpn;
      assert t'[i].pcid == t'[s].pcid || Global(t'[i].frame);
      assert !Coherent(t', pt);
    }
  }

  /** Under the walker's rule every reachable table is coherent. */
  lemma {:induction false} RunCoherent(init: seq<Entry>, ageBits: nat, pt: PageTable, run: seq<Pins>)
    requires |init| > 0 && GlobalsShared(pt) && WalkerRule(init, ageBits, pt, run)
    ensures Coherent(Run(init, ageBits, run), pt)
  {
    if run != [] {
      var prev, pins := Front(run), Last(run);
      RunCoherent(init, ageBits, pt, prev);
      if !pins.reset && pins.writeEn {
        WriteCoherentIff(Run(init, ageBits, prev), ageBits, pt, pins);
      }
    }
  }

  /** What the look-up drives on its output pins. */
  function Output(t: seq<Entry>, pins: Pins): (bool, u32) {
    match Find(t, pins)
    case Some(i) => (true, t[i].frame)
    case None => (false, 0)
  }

  /** What the list-based cache answers: a hit with the frame of a matching line, or a miss with frame 0. */
  ghost predicate LruAnswers(c: seq<Line>, pins: Pins, hit: bool, frame: u32) {
    var vpn, pcid := Vpn(pins.virtAddr), PcidLow(pins.pcid);
    && (hit <==> pins.lookupEn && exists p :: 0 <= p < |c| && LineMatches(c[p], vpn, pcid))
    && (if hit then exists p :: 0 <= p < |c| && LineMatches(c[p], vpn, pcid) && c[p].frame == frame else frame == 0)
  }

  /** After any run the output pins are an answer of the list-based cache. */
  lemma OutputsRefineLru(init: seq<Entry>, ageBits: nat, run: seq<Pins>, pins: Pins)
    requires 2 <= |init| <= Pow2(ageBits)
    ensures Rep(Run(init, ageBits, run), Order(init, ageBits, run))
    ensures var t := Run(init, ageBits, run);
            LruAnswers(Cache(t, Order(init, ageBits, run)), pins, Output(t, pins).0, Output(t, pins).1)
  {
    var t, order := Run(init, ageBits, run), Order(init, ageBits, run);
    RunKeepsRep(init, ageBits, run);
    CacheMatch(t, order, pins);
    if Find(t, pins).Some? {
      var i := Find(t, pins).value;
      assert i in order;
      var p :| 0 <= p < |order| && order[p] == i;
      assert Cache(t, order)[p] == LineOf(t[i]);
    }
  }

  /** Every hit returns the page-table entry, and only one entry matches, so the order of the look-up loop is immaterial. */
  lemma HitsAgreeWithPageTable(init: seq<Entry>, ageBits: nat, pt: PageTable, run: seq<Pins>, pins: Pins)
    requires |init| > 0 && GlobalsShared(pt) && WalkerRule(init, ageBits, pt, run)
    ensures var t := Run(init, ageBits, run);
            var (vpn, pcid) := (Vpn(pins.virtAddr), PcidLow(pins.pcid));
            && (Output(t, pins).0 <==> pins.lookupEn && exists i :: 0 <= i < |t| && Matches(t[i], vpn, pcid))
            && (Output(t, pins).0 ==> Output(t, pins).1 == pt(vpn, pcid))
            && (forall i, j :: 0 <= i < |t| && 0 <= j < |t| && Matches(t[i], vpn, pcid) && Matches(t[j], vpn, pcid) ==> i == j)
  {
    RunCoherent(init, ageBits, pt, run);
  }

  // ---------------------------------------------------------------------------
  // What a write makes hit
  // ---------------------------------------------------------------------------

  /** Two addresses lie in one aligned block of 4 KB. */
  ghost predicate SamePage(a: nat, b: nat) {
    exists base: nat :: InBlock(a, base) && InBlock(b, base)
  }

  predicate InBlock(a: nat, base: nat) { base % 4096 == 0 && base <= a < base + 4096 }

  lemma PageIs(a: u32, b: u32)
    ensures Vpn(a) == Vpn(b) <==> SamePage(a, b)
  {
    assert InBlock(a, 4096 * (a / 4096));
    if base: nat :| InBlock(a, base) && InBlock(b, base) {
      assert base == 4096 * (base / 4096);
    }
  }

  /** Bit 3 of a frame word is set. */
  ghost predicate SharedByAll(frame: u32) { exists upper: nat :: HasBitThree(frame, upper) }

  predicate HasBitThree(frame: u32, upper: nat) { 16 * upper + 8 <= frame < 16 * upper + 16 }

  lemma GlobalIs(frame: u32)
    ensures Global(frame) <==> SharedByAll(frame)
  {
    if Global(frame) {
      assert HasBitThree(frame, frame / 16);
    }
  }

  /** The context of a look-up sees what was written in another: the low 8 bits agree, or the frame is shared. */
  ghost predicate Sees(written: Pins, lookup: Pins) {
    (written.pcid - lookup.pcid) % 256 == 0 || SharedByAll(written.writePhys)
  }

  /** A page that missed hits right after a write exactly from the 4 KB and the contexts it was written for, with the frame written. */
  lemma WriteThenLookup(t: seq<Entry>, ageBits: nat, w: Pins, l: Pins)
    requires |t| > 0 && w.writeEn && !w.reset && l.lookupEn && Find(t, l).None?
    ensures Output(Step(t, ageBits, w), l) ==
      if SamePage(w.virtAddr, l.virtAddr) && Sees(w, l) then (true, w.writePhys) else (false, 0)
  {
    PageIs(w.virtAddr, l.virtAddr);
    GlobalIs(w.writePhys);
    var s, t' := Victim(t, ageBits).0, Step(t, ageBits, w);
    WrittenLines(t, ageBits, w);
    forall i | 0 <= i < |t| && i != s
      ensures !Matches(t'[i], Vpn(l.virtAddr), PcidLow(l.pcid))
    {
      assert t'[i].valid == t[i].valid && LineOf(t'[i]) == LineOf(t[i]);
    }
  }
}
