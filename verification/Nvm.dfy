/** The storage driver's rings as a transition system: mainline steps of a
    submission, the interrupt handler, and a device that completes one command
    for each doorbell. */
module Nvm {
  import opened Machine

  const LEN: nat := 128
  const ID_MASK: nat := 0x100_0000
  const EMPTY: u32 := 0xFFFF_FFFF

  function NextSlot(i: nat): nat { (i + 1) % LEN }

  /** What a caller asks for; option 0 reads and 1 writes. */
  datatype Command = Command(option: nat, addr: u32, slba: u32, nlba: u32)

  /** A slot of the submission ring. */
  datatype Entry = Entry(opcodeId: nat, addr: u32, slba: u32, nlba: u32)

  function EntryFor(cmd: Command, idx: nat): Entry {
    Entry(cmd.option * ID_MASK + idx, cmd.addr, cmd.slba, cmd.nlba)
  }

  /** Where mainline stands inside a submission, interrupts being off. */
  datatype Pc = Ready | Filled(cmd: Command) | Advanced

  /** The driver's record and rings, the device's doorbell, ring pointer and current command, and the histories of
      commands submitted, commands executed and identifiers whose completion was consumed. */
  datatype State = State(headQ: seq<Entry>, tailQ: seq<u32>, head: nat, tail: nat, busy: bool, pc: Pc,
                         doorbell: bool, devNext: nat, running: Option<Entry>,
                         submitted: seq<Command>, executed: seq<Entry>, consumed: seq<nat>)
  {
    predicate Wf() { |headQ| == LEN && |tailQ| == LEN && head < LEN && tail < LEN && devNext < LEN }
  }

  predicate Full(s: State) { NextSlot(s.head) == s.tail }

  /** Mainline writes the slot; it is only reached when the ring has room. */
  function Fill(s: State, cmd: Command): State
    requires s.Wf()
  {
    s.(headQ := s.headQ[s.head := EntryFor(cmd, s.head)], pc := Filled(cmd))
  }

  function Advance(s: State, cmd: Command): State
    requires s.Wf()
  {
    s.(head := NextSlot(s.head), pc := Advanced, submitted := s.submitted + [cmd])
  }

  function Ring(s: State): State {
    if s.busy then s.(pc := Ready) else s.(busy := true, doorbell := true, pc := Ready)
  }

  /** The interrupt handler: consume the completion at the tail, if there is one, and start the next command. */
  function Handle(s: State): State
    requires s.Wf()
  {
    if s.tailQ[s.tail] % ID_MASK != s.tail then s
    else
      var t := NextSlot(s.tail);
      s.(tailQ := s.tailQ[s.tail := EMPTY], tail := t, consumed := s.consumed + [s.tail],
         busy := if t == s.head then false else s.busy,
         doorbell := if t == s.head then s.doorbell else true)
  }

  /** The device answers the doorbell by fetching its next command. */
  function Fetch(s: State): State
    requires s.Wf()
  {
    s.(doorbell := false, running := Some(s.headQ[s.devNext]))
  }

  /** The device completes its command: the identifier under a status byte of its choice. */
  function Complete(s: State, status: nat): State
    requires s.Wf() && s.running.Some? && status < 0x100
  {
    s.(tailQ := s.tailQ[s.devNext := status * ID_MASK + s.running.value.opcodeId % ID_MASK],
       devNext := NextSlot(s.devNext), running := None, executed := s.executed + [s.running.value])
  }

  datatype Action = Submit(cmd: Command) | Continue | Interrupt | DeviceFetch | DeviceComplete(status: nat)

  /** One step of the whole system; an action that is not enabled does nothing. Interrupts, spurious ones included, are
      taken only outside a submission, or while it sleeps on a full ring; the device moves at any time. */
  function Step(s: State, a: Action): (r: State)
    requires s.Wf()
    ensures r.Wf()
  {
    match a
    case Submit(cmd) => if s.pc.Ready? && cmd.option <= 1 && !Full(s) then Fill(s, cmd) else s
    case Continue => (match s.pc
      case Ready => s
      case Filled(cmd) => Advance(s, cmd)
      case Advanced => Ring(s))
    case Interrupt => if s.pc.Ready? then Handle(s) else s
    case DeviceFetch => if s.doorbell then Fetch(s) else s
    case DeviceComplete(status) => if s.running.Some? && status < 0x100 then Complete(s, status) else s
  }

  /** The state after initialization; the submission ring may hold anything. */
  function Start(headQ: seq<Entry>): State {
    State(headQ, seq(LEN, _ => EMPTY), 0, 0, false, Ready, false, 0, None, [], [], [])
  }

  function Steps(s: State, actions: seq<Action>): (r: State)
    requires s.Wf()
    ensures r.Wf()
  {
    if actions == [] then s else Step(Steps(s, Front(actions)), Last(actions))
  }

  /** The actions `run` lead from `s` to `cur`. */
  ghost predicate Reached(s: State, run: seq<Action>, cur: State) { s.Wf() && Steps(s, run) == cur }

  lemma ReachedNext(s: State, actions: seq<Action>, k: nat, cur: State)
    requires k < |actions| && Reached(s, actions[..k], cur)
    ensures Reached(s, actions[..k + 1], Step(cur, actions[k]))
  {
    assert Front(actions[..k + 1]) == actions[..k] && Last(actions[..k + 1]) == actions[k];
  }

  function Run(headQ: seq<Entry>, actions: seq<Action>): (s: State)
    requires |headQ| == LEN
    ensures s.Wf()
  {
    Steps(Start(headQ), actions)
  }

  /** What interrupts and the device do while a submitter sleeps. */
  predicate FromOutside(a: Action) { a.Interrupt? || a.DeviceFetch? || a.DeviceComplete? }

  // ---------------------------------------------------------------------------
  // The invariant
  // ---------------------------------------------------------------------------

  /** How many commands wait for their completion to be consumed. */
  function Outstanding(s: State): int { |s.submitted| - |s.consumed| }

  /** Tokens of work handed to the device: a doorbell not yet answered, a command being run, a completion not yet consumed. */
  function Tokens(s: State): int {
    (if s.doorbell then 1 else 0) + (if s.running.Some? then 1 else 0) + |s.executed| - |s.consumed|
  }

  /** Ring positions are the history lengths modulo the ring length. */
  ghost predicate Positions(s: State) {
    && s.Wf() && |s.consumed| <= |s.executed| <= |s.submitted| && 0 <= Outstanding(s) < LEN
    && s.head == |s.submitted| % LEN && s.tail == |s.consumed| % LEN && s.devNext == |s.executed| % LEN
    && |s.executed| - |s.consumed| <= 1
  }

  /** One token while busy, none while idle; busy exactly while commands are outstanding, save between advancing the
      ring and ringing the doorbell. */
  ghost predicate OneToken(s: State) {
    && Tokens(s) == (if s.busy then 1 else 0)
    && (if s.pc.Advanced? && !s.busy then Outstanding(s) == 1 else s.busy <==> Outstanding(s) > 0)
    && (s.doorbell || s.running.Some? ==> |s.executed| < |s.submitted|)
  }

  /** The slots of outstanding commands hold them, in order. */
  ghost predicate Slots(s: State)
    requires s.Wf()
  {
    && (forall k :: |s.consumed| <= k < |s.submitted| ==> s.headQ[k % LEN] == EntryFor(s.submitted[k], k % LEN))
    && (s.pc.Filled? ==> s.headQ[s.head] == EntryFor(s.pc.cmd, s.head) && !Full(s))
    && (s.running.Some? && |s.executed| < |s.submitted| ==>
          s.running.value == EntryFor(s.submitted[|s.executed|], s.devNext))
  }

  /** The completion ring is empty but for the one completion that may be waiting, at the tail. */
  ghost predicate Completions(s: State)
    requires s.Wf()
  {
    forall i :: 0 <= i < LEN ==>
      (s.tailQ[i] % ID_MASK == i <==> i == s.tail && |s.executed| > |s.consumed|)
  }

  /** What was executed and consumed is what was submitted, in order, once each. */
  ghost predicate InOrder(s: State)
    requires |s.executed| <= |s.submitted| && |s.consumed| <= |s.submitted|
  {
    && (forall k :: 0 <= k < |s.executed| ==> s.executed[k] == EntryFor(s.submitted[k], k % LEN))
    && (forall k :: 0 <= k < |s.consumed| ==> s.consumed[k] == k % LEN)
  }

  ghost predicate Inv(s: State) {
    Positions(s) && OneToken(s) && Slots(s) && Completions(s) && InOrder(s)
  }

  lemma NextOf(n: nat)
    ensures NextSlot(n % LEN) == (n + 1) % LEN
  {
  }

  /** Within one ring length, slots tell positions apart. */
  lemma SlotsDistinct(j: nat, k: nat)
    requires j < k < j + LEN
    ensures j % LEN != k % LEN
  {
  }

  lemma FullMeans(s: State)
    requires Positions(s)
    ensures Full(s) <==> Outstanding(s) == LEN - 1
  {
    var n, c := |s.submitted|, |s.consumed|;
    NextOf(n);
    if n + 1 < c + LEN {
      SlotsDistinct(c, n + 1);
    }
  }

  /** Writing a new command never touches the slot of a command whose completion was not yet consumed. */
  lemma FillKeepsOutstanding(s: State, cmd: Command)
    requires Inv(s) && s.pc.Ready? && !Full(s)
    ensures forall k :: |s.consumed| <= k < |s.submitted| ==> Fill(s, cmd).headQ[k % LEN] == s.headQ[k % LEN]
  {
    FullMeans(s);
    forall k | |s.consumed| <= k < |s.submitted|
      ensures k % LEN != s.head
    {
      SlotsDistinct(k, |s.submitted|);
    }
  }

  lemma SubmitKeeps(s: State, cmd: Command)
    requires Inv(s)
    ensures Inv(Step(s, Submit(cmd)))
  {
    if s.pc.Ready? && cmd.option <= 1 && !Full(s) {
      FillKeepsOutstanding(s, cmd);
    }
  }

  lemma AdvanceSlots(s: State)
    requires Inv(s) && s.pc.Filled?
    ensures Slots(Advance(s, s.pc.cmd))
  {
    var n, r := |s.submitted|, Advance(s, s.pc.cmd);
    forall k | |r.consumed| <= k < |r.submitted|
      ensures r.headQ[k % LEN] == EntryFor(r.submitted[k], k % LEN)
    {
      if k < n { assert r.submitted[k] == s.submitted[k]; }
    }
  }

  lemma AdvanceOrder(s: State)
    requires Inv(s) && s.pc.Filled?
    ensures Completions(Advance(s, s.pc.cmd)) && InOrder(Advance(s, s.pc.cmd))
  {
  }

  lemma AdvancePositions(s: State)
    requires Inv(s) && s.pc.Filled?
    ensures Positions(Advance(s, s.pc.cmd)) && OneToken(Advance(s, s.pc.cmd))
  {
    FullMeans(s);
    NextOf(|s.submitted|);
  }

  lemma RingKeeps(s: State)
    requires Inv(s) && s.pc.Advanced?
    ensures Inv(Ring(s))
  {
  }

  lemma ContinueKeeps(s: State)
    requires Inv(s)
    ensures Inv(Step(s, Continue))
  {
    match s.pc
    case Ready =>
    case Filled(cmd) =>
      AdvancePositions(s);
      AdvanceSlots(s);
      AdvanceOrder(s);
    case Advanced => RingKeeps(s);
  }

  lemma InterruptKeeps(s: State)
    requires Inv(s)
    ensures Inv(Step(s, Interrupt))
  {
    if s.pc.Ready? && s.tailQ[s.tail] % ID_MASK == s.tail {
      var c := |s.consumed|;
      NextOf(c);
      if c + 1 < |s.submitted| {
        SlotsDistinct(c + 1, |s.submitted|);
      }
      assert EMPTY % ID_MASK == 0xFF_FFFF;
    }
  }

  lemma FetchKeeps(s: State)
    requires Inv(s)
    ensures Inv(Step(s, DeviceFetch))
  {
    if s.doorbell {
      assert s.headQ[|s.executed| % LEN] == EntryFor(s.submitted[|s.executed|], |s.executed| % LEN);
    }
  }

  lemma CompleteKeeps(s: State, status: nat)
    requires Inv(s)
    ensures Inv(Step(s, DeviceComplete(status)))
  {
    if s.running.Some? && status < 0x100 {
      var e, r := |s.executed|, Complete(s, status);
      IdentifierSurvives(s.submitted[e].option, s.devNext, status);
      assert s.devNext == s.tail;
      NextOf(e);
      CompleteOrder(s, status);
    }
  }

  lemma CompleteOrder(s: State, status: nat)
    requires Inv(s) && s.running.Some? && status < 0x100
    ensures InOrder(Complete(s, status)) && Slots(Complete(s, status))
  {
  }

  /** The identifier is what remains of an opcode word, and of the completion word made from it, under the mask. */
  lemma IdentifierSurvives(option: nat, idx: nat, status: nat)
    requires idx < LEN
    ensures (option * ID_MASK + idx) % ID_MASK == idx
    ensures (status * ID_MASK + idx) % ID_MASK == idx
  {
  }

  lemma StepKeepsInv(s: State, a: Action)
    requires Inv(s)
    ensures Inv(Step(s, a))
  {
    match a
    case Submit(cmd) => SubmitKeeps(s, cmd);
    case Continue => ContinueKeeps(s);
    case Interrupt => InterruptKeeps(s);
    case DeviceFetch => FetchKeeps(s);
    case DeviceComplete(status) => CompleteKeeps(s, status);
  }

  /** Over every interleaving of submissions, device steps and interrupts, spurious ones included. */
  lemma {:induction false} RunKeepsInv(headQ: seq<Entry>, actions: seq<Action>)
    requires |headQ| == LEN
    ensures Inv(Run(headQ, actions))
  {
    if actions == [] {
      assert EMPTY % ID_MASK == 0xFF_FFFF;
    } else {
      RunKeepsInv(headQ, Front(actions));
      StepKeepsInv(Run(headQ, Front(actions)), Last(actions));
    }
  }

  /** What the device reads in a slot: the opcode, 0 or 1, over the 24-bit slot number, and the caller's fields. */
  predicate Carries(e: Entry, cmd: Command, slot: nat) {
    && e.opcodeId / 0x100_0000 == cmd.option && e.opcodeId % 0x100_0000 == slot
    && e.addr == cmd.addr && e.slba == cmd.slba && e.nlba == cmd.nlba
  }

  lemma EntryCarries(cmd: Command, slot: nat)
    requires slot < LEN
    ensures Carries(EntryFor(cmd, slot), cmd, slot)
  {
  }

  /** In every reachable state outside a submission: busy exactly when head and tail differ, and then exactly one token
      is on its way, on a full ring too; the ring is full with 127 commands outstanding; commands were executed, as they
      were submitted, and acknowledged in submission order, once each. */
  lemma RingsAreSound(headQ: seq<Entry>, actions: seq<Action>)
    requires |headQ| == LEN
    ensures var s := Run(headQ, actions);
      && (s.pc.Ready? ==> (s.busy <==> s.head != s.tail))
      && Tokens(s) == (if s.busy then 1 else 0)
      && (s.pc.Ready? && Full(s) ==> Tokens(s) == 1)
      && (Full(s) <==> |s.submitted| - |s.consumed| == 127)
      && |s.consumed| <= |s.executed| <= |s.submitted|
      && (forall k :: 0 <= k < |s.executed| ==> Carries(s.executed[k], s.submitted[k], k % 128))
      && (forall k :: 0 <= k < |s.consumed| ==> s.consumed[k] == k % 128)
  {
    RunKeepsInv(headQ, actions);
    var s := Run(headQ, actions);
    forall k | 0 <= k < |s.executed| ensures Carries(s.executed[k], s.submitted[k], k % 128) {
      EntryCarries(s.submitted[k], k % LEN);
    }
    FullMeans(s);
    if |s.consumed| < |s.submitted| {
      SlotsDistinct(|s.consumed|, |s.submitted|);
    }
  }

  /** An interrupt that finds a completion acknowledges its command, and hands the device the next one if there is one. */
  lemma CompletionConsumed(s: State)
    requires Inv(s) && s.pc.Ready? && |s.executed| > |s.consumed|
    ensures var r := Step(s, Interrupt);
      && r.consumed == s.consumed + [|s.consumed| % 128] && r.submitted == s.submitted && r.executed == s.executed
      && (r.doorbell <==> |r.consumed| < |r.submitted|)
  {
    InterruptKeeps(s);
  }

  /** A submitter asleep on a full ring is always woken: the device steps still due and one interrupt make room. */
  lemma FullRingDrains(s: State, status: nat)
    requires Inv(s) && s.pc.Ready? && Full(s) && status < 0x100
    ensures !Full(Step(Step(Step(s, DeviceFetch), DeviceComplete(status)), Interrupt))
    ensures |Step(Step(Step(s, DeviceFetch), DeviceComplete(status)), Interrupt).consumed| == |s.consumed| + 1
  {
    var s1 := Step(s, DeviceFetch);
    var s2 := Step(s1, DeviceComplete(status));
    FullMeans(s);
    FetchKeeps(s);
    CompleteKeeps(s1, status);
    InterruptKeeps(s2);
    FullMeans(Step(s2, Interrupt));
  }

  /** An interrupt that finds no completion at the tail changes nothing. */
  lemma SpuriousIgnored(s: State)
    requires Inv(s) && |s.executed| == |s.consumed|
    ensures Step(s, Interrupt) == s
  {
  }
}
