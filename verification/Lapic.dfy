/** The interrupt controller's registers over clocks: requests, priorities, and
    interrupts in service. A 128-bit register is the set of its positions that are 1,
    so that or is union and exclusive or is symmetric difference. */
module Lapic {
  import opened Machine

  const VECTORS: nat := 128

  function Xor(a: set<nat>, b: set<nat>): set<nat> { (a - b) + (b - a) }

  /** The priority encoder: the highest 1 below position `n`. */
  function HighestBelow(s: set<nat>, n: nat): (r: Option<nat>)
    ensures r.None? ==> forall v :: v in s ==> v >= n
    ensures r.Some? ==> r.value < n && r.value in s && forall v :: v in s && v < n ==> v <= r.value
  {
    if n == 0 then None
    else if n - 1 in s then Some(n - 1)
    else HighestBelow(s, n - 1)
  }

  function Highest(s: set<nat>): Option<nat> { HighestBelow(s, VECTORS) }

  /** The encoder's index output, 0 when nothing is set. */
  function Index(s: set<nat>): (r: nat)
    ensures r < VECTORS
  {
    match Highest(s) case Some(v) => v case None => 0
  }

  /** The priority decoder: one position, or none when its input is not valid. */
  function OneHot(index: nat, valid: bool): set<nat> { if valid then {index} else {} }

  /** Requests and interrupts in service. */
  datatype Registers = Registers(irr: set<nat>, isr: set<nat>)

  /** The pins at one clock: requests arriving, end of interrupt, the priority threshold. */
  datatype Pins = Pins(reset: bool, arriving: set<nat>, eoi: bool, tpr: u32)

  /** The level a request must exceed: the threshold's low 7 bits or the highest interrupt in service. */
  function Level(r: Registers, pins: Pins): nat {
    var tpr := pins.tpr % VECTORS;
    if Index(r.isr) > tpr then Index(r.isr) else tpr
  }

  /** The comparator: the highest request exceeds the level. It also drives the write enable of the in-service register. */
  predicate Exceeds(r: Registers, pins: Pins) { Level(r, pins) < Index(r.irr) }

  /** The acknowledge sent back to the request register. */
  predicate Acknowledged(r: Registers, pins: Pins) { Exceeds(r, pins) && Highest(r.irr).Some? }

  function NextIrr(r: Registers, pins: Pins): set<nat> {
    Xor(r.irr + pins.arriving, OneHot(Index(r.irr), Acknowledged(r, pins)))
  }

  function NextIsr(r: Registers, pins: Pins): set<nat> {
    if !Exceeds(r, pins) && !pins.eoi then r.isr
    else if pins.eoi then Xor(r.isr, OneHot(Index(r.isr), Highest(r.isr).Some?))
    else r.isr + OneHot(Index(r.irr), Acknowledged(r, pins))
  }

  function Step(r: Registers, pins: Pins): Registers {
    if pins.reset then Registers({}, {}) else Registers(NextIrr(r, pins), NextIsr(r, pins))
  }

  function Run(pins: seq<Pins>): Registers {
    if pins == [] then Registers({}, {}) else Step(Run(Front(pins)), Last(pins))
  }

  ghost predicate PinsInRange(pins: seq<Pins>) {
    forall i, v :: 0 <= i < |pins| && v in pins[i].arriving ==> v < VECTORS
  }

  // ---------------------------------------------------------------------------
  // The in-service register is a stack
  // ---------------------------------------------------------------------------

  /** The vectors accepted and not yet ended, in the order they were accepted. */
  function Stack(pins: seq<Pins>): seq<nat> {
    if pins == [] then []
    else
      var r, p, stack := Run(Front(pins)), Last(pins), Stack(Front(pins));
      if p.reset then []
      else if p.eoi then (if stack == [] then [] else Front(stack))
      else if Acknowledged(r, p) then stack + [Index(r.irr)]
      else stack
  }

  ghost predicate Increasing(s: seq<nat>) { forall j, k :: 0 <= j < k < |s| ==> s[j] < s[k] }

  ghost predicate IsStack(isr: set<nat>, stack: seq<nat>) {
    Increasing(stack) && (forall v :: v in isr <==> v in stack) && forall v :: v in isr ==> v < VECTORS
  }

  /** The encoder shows the top of the stack. */
  lemma TopIsIndex(isr: set<nat>, stack: seq<nat>)
    requires IsStack(isr, stack)
    ensures stack == [] ==> Highest(isr).None? && Index(isr) == 0
    ensures stack != [] ==> Highest(isr) == Some(Last(stack))
    ensures forall v :: v in isr ==> v <= Index(isr)
  {
    if stack != [] {
      assert stack[|stack| - 1] in isr;
      var top := Highest(isr).value;
      var j :| 0 <= j < |stack| && stack[j] == top;
    }
  }

  lemma PopKeeps(isr: set<nat>, stack: seq<nat>)
    requires IsStack(isr, stack)
    ensures IsStack(Xor(isr, OneHot(Index(isr), Highest(isr).Some?)), if stack == [] then [] else Front(stack))
  {
    TopIsIndex(isr, stack);
    if stack != [] {
      var top := Last(stack);
      forall v | v in stack && v != top ensures v in Front(stack) {
        var j :| 0 <= j < |stack| && stack[j] == v;
        assert Front(stack)[j] == v;
      }
      forall v | v in Front(stack) ensures v in stack && v != top {
        var j :| 0 <= j < |stack| - 1 && Front(stack)[j] == v;
        assert stack[j] == v;
      }
    }
  }

  lemma PushKeeps(isr: set<nat>, stack: seq<nat>, v: nat)
    requires IsStack(isr, stack) && Index(isr) < v < VECTORS
    ensures IsStack(isr + {v}, stack + [v])
  {
    TopIsIndex(isr, stack);
    forall j | 0 <= j < |stack| ensures stack[j] < v {
      assert stack[j] in isr;
    }
  }

  lemma StepKeepsStack(r: Registers, pins: Pins, stack: seq<nat>)
    requires IsStack(r.isr, stack) && !pins.reset
    ensures IsStack(NextIsr(r, pins),
      if pins.eoi then (if stack == [] then [] else Front(stack))
      else if Acknowledged(r, pins) then stack + [Index(r.irr)] else stack)
  {
    if pins.eoi {
      PopKeeps(r.isr, stack);
    } else if Acknowledged(r, pins) {
      PushKeeps(r.isr, stack, Index(r.irr));
    }
  }

  /** In every run the interrupts in service are exactly the stack of accepted vectors, strictly increasing from bottom to top. */
  lemma {:induction false} ServiceIsStack(pins: seq<Pins>)
    ensures IsStack(Run(pins).isr, Stack(pins))
  {
    if pins != [] {
      ServiceIsStack(Front(pins));
      if !Last(pins).reset {
        StepKeepsStack(Run(Front(pins)), Last(pins), Stack(Front(pins)));
      }
    }
  }

  /** A vector is accepted only above the threshold and above everything in service, and it is the highest requested. */
  lemma AcceptedAboveAll(pins: seq<Pins>, p: Pins)
    requires PinsInRange(pins)
    ensures var r := Run(pins);
      Acknowledged(r, p) ==>
        && Index(r.irr) in r.irr && Index(r.irr) > p.tpr % VECTORS
        && (forall v :: v in r.isr ==> v < Index(r.irr))
        && (forall v :: v in r.irr ==> v <= Index(r.irr))
  {
    ServiceIsStack(pins);
    TopIsIndex(Run(pins).isr, Stack(pins));
    RunInRange(pins);
  }

  lemma {:induction false} RunInRange(pins: seq<Pins>)
    requires PinsInRange(pins)
    ensures forall v :: v in Run(pins).irr ==> v < VECTORS
  {
    if pins != [] {
      assert forall i, v :: 0 <= i < |Front(pins)| && v in Front(pins)[i].arriving ==> v in pins[i].arriving;
      RunInRange(Front(pins));
      assert Last(pins) == pins[|pins| - 1];
    }
  }

  /** Vector `v` is pending and exceeds the low 7 bits of the threshold and everything in service. */
  ghost predicate Eligible(r: Registers, p: Pins, v: nat) {
    v in r.irr && v > p.tpr % 128 && forall u :: u in r.isr ==> u < v
  }

  /** The comparator rises exactly when some pending vector may be taken, however many are in service. */
  lemma PinRisesIff(pins: seq<Pins>, p: Pins)
    requires PinsInRange(pins)
    ensures Exceeds(Run(pins), p) <==> exists v: nat :: Eligible(Run(pins), p, v)
  {
    var r := Run(pins);
    ServiceIsStack(pins);
    TopIsIndex(r.isr, Stack(pins));
    RunInRange(pins);
    if Exceeds(r, p) {
      assert Eligible(r, p, Index(r.irr));
    }
    if v: nat :| Eligible(r, p, v) {
      assert v <= Index(r.irr);
    }
  }

  /** Vector `v` is the highest that may be taken. */
  ghost predicate Taken(r: Registers, p: Pins, v: nat) {
    Eligible(r, p, v) && forall u :: u in r.irr ==> u <= v
  }

  /** A vector is acknowledged exactly when it is pending, exceeds the threshold and all in service, and none pending is higher. */
  lemma AcknowledgedIff(pins: seq<Pins>, p: Pins, v: nat)
    requires PinsInRange(pins)
    ensures Acknowledged(Run(pins), p) && v == Index(Run(pins).irr) <==> Taken(Run(pins), p, v)
  {
    var r := Run(pins);
    ServiceIsStack(pins);
    TopIsIndex(r.isr, Stack(pins));
    RunInRange(pins);
    if Taken(r, p, v) {
      assert v <= Index(r.irr) && Index(r.irr) in r.irr;
    }
  }

  /** The registers after one more clock, vector by vector: what arrives or waits stays pending unless it is taken, and
      service loses its highest at an end of interrupt or else gains what is taken. */
  lemma NextRegisters(pins: seq<Pins>, p: Pins, v: nat)
    requires PinsInRange(pins) && !p.reset
    ensures var (r, r') := (Run(pins), Run(pins + [p]));
      && (v in r'.irr <==> (v in r.irr || v in p.arriving) && !Taken(r, p, v))
      && (v in r'.isr <==> if p.eoi then v in r.isr && exists u :: u in r.isr && u > v else v in r.isr || Taken(r, p, v))
  {
    var r := Run(pins);
    assert Front(pins + [p]) == pins;
    AcknowledgedIff(pins, p, v);
    ServiceIsStack(pins);
    TopIsIndex(r.isr, Stack(pins));
    if v in r.isr && v != Index(r.isr) {
      assert Index(r.isr) in r.isr && Index(r.isr) > v;
    }
  }

  /** The one pending vector `v`, above everything in service, is taken whatever else arrives. */
  lemma OneTaken(pins: seq<Pins>, p: Pins, v: nat)
    requires Run(pins).irr == {v} && 0 < v < VECTORS && forall u :: u in Run(pins).isr ==> u < v
    requires !p.reset && !p.eoi && p.tpr == 0 && v !in p.arriving
    ensures Run(pins + [p]) == Registers(p.arriving, Run(pins).isr + {v}) && Stack(pins + [p]) == Stack(pins) + [v]
  {
    var r := Run(pins);
    assert Front(pins + [p]) == pins;
    assert v in r.irr && Highest(r.irr) == Some(v);
    assert Acknowledged(r, p) && Index(r.irr) == v;
  }

  /** Vector 5 is taken while vector 3 is in service, and then both are. */
  lemma NestedRun()
    ensures var run := [Pins(false, {3}, false, 0), Pins(false, {5}, false, 0), Pins(false, {}, false, 0)];
      Run(run) == Registers({}, {3, 5}) && Stack(run) == [3, 5]
  {
    var a, b, c := Pins(false, {3}, false, 0), Pins(false, {5}, false, 0), Pins(false, {}, false, 0);
    assert Front([a]) == [] && Run([]) == Registers({}, {}) && Highest({}) == None;
    assert Run([a]) == Registers({3}, {}) && Stack([a]) == [];
    OneTaken([a], b, 3);
    OneTaken([a] + [b], c, 5);
    assert [a] + [b] + [c] == [a, b, c];
  }

  /** An end of interrupt takes the most recently accepted vector still in service, and nothing else, out of service. */
  lemma EoiEndsLatest(pins: seq<Pins>, p: Pins)
    requires p.eoi && !p.reset && Stack(pins) != []
    ensures Run(pins + [p]).isr == Run(pins).isr - {Last(Stack(pins))}
    ensures Last(Stack(pins)) in Run(pins).isr
  {
    ServiceIsStack(pins);
    TopIsIndex(Run(pins).isr, Stack(pins));
    assert Front(pins + [p]) == pins;
    assert Stack(pins)[|Stack(pins)| - 1] in Run(pins).isr;
  }

  /** A pending request is cleared exactly when it is the one acknowledged, and it is then in service unless an end of
      interrupt shares the clock, in which case it is lost. */
  lemma PendingClearedIff(pins: seq<Pins>, p: Pins, v: nat)
    requires !p.reset && v in Run(pins).irr
    ensures var (r, r') := (Run(pins), Run(pins + [p]));
      && (v !in r'.irr <==> Acknowledged(r, p) && v == Index(r.irr))
      && (v !in r'.irr ==> (v in r'.isr <==> !p.eoi))
  {
    ServiceIsStack(pins);
    TopIsIndex(Run(pins).isr, Stack(pins));
    assert Front(pins + [p]) == pins;
  }

  /** Vector 5 arrives, and an end of interrupt shares the clock that acknowledges it: the request is in neither register. */
  lemma RequestLost()
    ensures var arrive := Pins(false, {5}, false, 0);
      var eoi := Pins(false, {}, true, 0);
      5 in Run([arrive]).irr && Run([arrive, eoi]) == Registers({}, {})
  {
    var arrive := Pins(false, {5}, false, 0);
    var eoi := Pins(false, {}, true, 0);
    assert Front([arrive]) == [] && Front([arrive, eoi]) == [arrive];
    assert Run([]) == Registers({}, {}) && Highest({}) == None;
    var r := Run([arrive]);
    assert r.irr == {5} && r.isr == {};
    assert 5 in r.irr && Highest(r.irr) == Some(5);
    assert Run([arrive, eoi]) == Step(r, eoi);
  }

  // ---------------------------------------------------------------------------
  // The circuit on pairs of 64-bit registers
  // ---------------------------------------------------------------------------

  /** Positions 0..63 are register A and 64..127 register B. */
  predicate BitAt(a: seq<bool>, b: seq<bool>, i: nat)
    requires |a| == |b| == 64 && i < VECTORS
  {
    if i < 64 then a[i] else b[i - 64]
  }

  function Positions(a: seq<bool>, b: seq<bool>): (s: set<nat>)
    requires |a| == |b| == 64
    ensures forall i: nat :: i in s <==> i < VECTORS && BitAt(a, b, i)
  {
    set i: nat | i < VECTORS && BitAt(a, b, i)
  }

  function OrGate(x: seq<bool>, y: seq<bool>): (z: seq<bool>)
    requires |x| == |y|
    ensures |z| == |x|
  {
    seq(|x|, i requires 0 <= i < |x| => x[i] || y[i])
  }

  function XorGate(x: seq<bool>, y: seq<bool>): (z: seq<bool>)
    requires |x| == |y|
    ensures |z| == |x|
  {
    seq(|x|, i requires 0 <= i < |x| => x[i] != y[i])
  }

  /** The encoder's loop from position 127 down, taking the first 1 it meets. */
  method PriEncode(a: seq<bool>, b: seq<bool>) returns (index: nat, valid: bool)
    requires |a| == |b| == 64
    ensures valid <==> Highest(Positions(a, b)).Some?
    ensures index == Index(Positions(a, b))
  {
    index, valid := 0, false;
    var i: nat := VECTORS;
    while i > 0
      invariant i <= VECTORS
      invariant valid ==> Highest(Positions(a, b)) == Some(index)
      invariant !valid ==> index == 0 && Highest(Positions(a, b)) == HighestBelow(Positions(a, b), i)
    {
      i := i - 1;
      if BitAt(a, b, i) && !valid {
        index, valid := i, true;
      }
    }
  }

  method PriDecode(index: nat, valid: bool) returns (a: seq<bool>, b: seq<bool>)
    requires index < VECTORS
    ensures |a| == |b| == 64 && Positions(a, b) == OneHot(index, valid)
  {
    a := seq(64, i requires 0 <= i < 64 => valid && i == index);
    b := seq(64, i requires 0 <= i < 64 => valid && i + 64 == index);
  }

  lemma GatesOnPositions(a: seq<bool>, b: seq<bool>, c: seq<bool>, d: seq<bool>)
    requires |a| == |b| == |c| == |d| == 64
    ensures Positions(OrGate(a, c), OrGate(b, d)) == Positions(a, b) + Positions(c, d)
    ensures Positions(XorGate(a, c), XorGate(b, d)) == Xor(Positions(a, b), Positions(c, d))
  {
    forall i: nat | i < VECTORS
      ensures BitAt(OrGate(a, c), OrGate(b, d), i) <==> BitAt(a, b, i) || BitAt(c, d, i)
      ensures BitAt(XorGate(a, c), XorGate(b, d), i) <==> BitAt(a, b, i) != BitAt(c, d, i)
    {
    }
  }

  class LocalApic {
    var irrA: seq<bool>
    var irrB: seq<bool>
    var isrA: seq<bool>
    var isrB: seq<bool>
    /** The flip-flop behind the interrupt pin. */
    var irq: bool

    ghost predicate Valid()
      reads this
    {
      |irrA| == |irrB| == |isrA| == |isrB| == 64
    }

    ghost function View(): Registers
      requires Valid()
      reads this
    {
      Registers(Positions(irrA, irrB), Positions(isrA, isrB))
    }

    constructor ()
      ensures Valid() && View() == Registers({}, {})
    {
      irrA, irrB := seq(64, _ => false), seq(64, _ => false);
      isrA, isrB := seq(64, _ => false), seq(64, _ => false);
      irq := false;
    }

    method Reset()
      requires Valid()
      modifies this
      ensures Valid() && View() == Registers({}, {})
    {
      irrA, irrB := seq(64, _ => false), seq(64, _ => false);
      isrA, isrB := seq(64, _ => false), seq(64, _ => false);
    }

    /** One clock without reset: every register reads the old value of every other. */
    method Clock(arrivingA: seq<bool>, arrivingB: seq<bool>, eoi: bool, tpr: u32)
      requires Valid() && |arrivingA| == |arrivingB| == 64
      modifies this
      ensures Valid()
      ensures View() == Step(old(View()), Pins(false, Positions(arrivingA, arrivingB), eoi, tpr))
      ensures irq <==> exists v: nat :: Eligible(old(View()), Pins(false, Positions(arrivingA, arrivingB), eoi, tpr), v)
    {
      var irrOut, valid := PriEncode(irrA, irrB);
      var isrOut, inService := PriEncode(isrA, isrB);
      var threshold := tpr % VECTORS;
      var level := if isrOut > threshold then isrOut else threshold;
      var isrWrite := level < irrOut;
      var validOut := isrWrite && valid;
      var ackA, ackB := PriDecode(irrOut, validOut);
      var topA, topB := PriDecode(isrOut, inService);
      GatesOnPositions(irrA, irrB, arrivingA, arrivingB);
      GatesOnPositions(OrGate(irrA, arrivingA), OrGate(irrB, arrivingB), ackA, ackB);
      GatesOnPositions(isrA, isrB, topA, topB);
      GatesOnPositions(isrA, isrB, ackA, ackB);
      irrA, irrB := XorGate(OrGate(irrA, arrivingA), ackA), XorGate(OrGate(irrB, arrivingB), ackB);
      if isrWrite || eoi {
        if eoi {
          isrA, isrB := XorGate(isrA, topA), XorGate(isrB, topB);
        } else {
          isrA, isrB := OrGate(isrA, ackA), OrGate(isrB, ackB);
        }
      }
      irq := isrWrite;
      assert irq ==> Eligible(old(View()), Pins(false, Positions(arrivingA, arrivingB), eoi, tpr), irrOut);
    }
  }
}
