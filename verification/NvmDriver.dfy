/** The storage driver's own code, updating the rings and the device record in place. */
module NvmDriver {
  import opened Machine
  import opened Nvm

  const NVM_MSI_NUM: nat := 125

  /** What became of a request: a wrong option, no such device, asleep on a full ring, or queued. */
  datatype Outcome = Refused | Missing | Asleep | Queued

  /** One device: its record, its two rings, its doorbell register, and what the device itself is doing. */
  class NvmDev {
    const headQ: array<Entry>
    const tailQ: array<u32>
    var busy: bool
    var headIndex: nat
    var tailIndex: nat
    var doorbell: bool
    var devNext: nat
    var running: Option<Entry>

    ghost predicate Valid()
      reads this
    {
      headQ.Length == tailQ.Length == LEN && headIndex < LEN && tailIndex < LEN && devNext < LEN
    }

    /** The driver's part of a state of the whole system is this object. */
    ghost predicate Shows(s: State)
      reads this, headQ, tailQ
    {
      && Valid() && s.Wf() && s.headQ == headQ[..] && s.tailQ == tailQ[..]
      && s.head == headIndex && s.tail == tailIndex && s.busy == busy && s.doorbell == doorbell
      && s.devNext == devNext && s.running == running
    }

    constructor ()
      ensures Valid() && fresh(headQ) && fresh(tailQ)
      ensures Shows(Start(headQ[..]))
    {
      headQ := new Entry[LEN](_ => Entry(0, 0, 0, 0));
      tailQ := new u32[LEN](_ => EMPTY);
      busy, headIndex, tailIndex, doorbell := false, 0, 0, false;
      devNext, running := 0, None;
    }

    /** The handler for this device. */
    method HandleIrq(ghost s: State)
      requires Shows(s)
      modifies this, tailQ
      ensures Shows(Handle(s))
    {
      if tailQ[tailIndex] % ID_MASK == tailIndex {
        tailQ[tailIndex] := EMPTY;
        tailIndex := NextSlot(tailIndex);
        if tailIndex == headIndex {
          busy := false;
        } else {
          doorbell := true;
        }
      }
    }

    /** The device answers its doorbell. */
    method Fetch(ghost s: State)
      requires Shows(s)
      modifies this`doorbell, this`running
      ensures Shows(Nvm.Fetch(s))
    {
      doorbell, running := false, Some(headQ[devNext]);
    }

    /** The device writes a completion. */
    method Complete(status: nat, ghost s: State)
      requires Shows(s) && running.Some? && status < 0x100
      modifies this`devNext, this`running, tailQ
      ensures Shows(Nvm.Complete(s, status))
    {
      tailQ[devNext] := status * ID_MASK + running.value.opcodeId % ID_MASK;
      devNext, running := NextSlot(devNext), None;
    }

    /** One thing that happens outside a submission. */
    method Outside(a: Action, ghost s: State)
      requires Shows(s) && s.pc.Ready? && FromOutside(a)
      modifies this, tailQ
      ensures Shows(Step(s, a)) && Step(s, a).pc.Ready?
    {
      match a
      case Interrupt => HandleIrq(s);
      case DeviceFetch => if doorbell { Fetch(s); }
      case DeviceComplete(status) => if running.Some? && status < 0x100 { Complete(status, s); }
    }

    /** The critical section behind the sleeping loop. */
    method Enqueue(cmd: Command, ghost s: State)
      requires Shows(s) && s.pc.Ready? && cmd.option <= 1 && !Full(s)
      modifies this, headQ
      ensures Shows(Step(Step(Step(s, Submit(cmd)), Continue), Continue))
    {
      headQ[headIndex] := EntryFor(cmd, headIndex);
      headIndex := NextSlot(headIndex);
      if !busy {
        busy := true;
        doorbell := true;
      }
    }

    /** The sleeping loop. `schedule` is what happens while the caller sleeps; it goes on until there is room, or the
        schedule has run out. */
    method AwaitRoom(schedule: seq<Action>, ghost s: State) returns (room: bool, k: nat, ghost cur: State)
      requires Shows(s) && s.pc.Ready? && forall i :: 0 <= i < |schedule| ==> FromOutside(schedule[i])
      modifies this, tailQ
      ensures k <= |schedule| && forall i :: 0 <= i < k ==> Full(Steps(s, schedule[..i]))
      ensures Reached(s, schedule[..k], cur) && Shows(cur) && cur.pc.Ready?
      ensures if room then !Full(cur) else k == |schedule| && Full(cur)
    {
      k, cur := 0, s;
      while NextSlot(headIndex) == tailIndex
        invariant k <= |schedule| && Reached(s, schedule[..k], cur) && Shows(cur) && cur.pc.Ready?
        invariant forall i :: 0 <= i < k ==> Full(Steps(s, schedule[..i]))
        decreases |schedule| - k
      {
        if k == |schedule| {
          return false, k, cur;
        }
        Outside(schedule[k], cur);
        ReachedNext(s, schedule, k, cur);
        cur := Step(cur, schedule[k]);
        k := k + 1;
      }
      room := true;
    }

    /** Submit a command to device `disp` of `count`: refused, or queued as soon as the ring has room; asleep only if the
        ring is still full when the schedule has run out. */
    method Access(cmd: Command, disp: nat, count: nat, schedule: seq<Action>, ghost s: State)
      returns (r: Outcome, k: nat, ghost cur: State)
      requires Shows(s) && s.pc.Ready? && forall i :: 0 <= i < |schedule| ==> FromOutside(schedule[i])
      modifies this, headQ, tailQ
      ensures r.Refused? <==> cmd.option > 1
      ensures r.Missing? <==> cmd.option <= 1 && disp >= count
      ensures k <= |schedule| && Reached(s, schedule[..k], cur) && forall i :: 0 <= i < k ==> Full(Steps(s, schedule[..i]))
      ensures r.Refused? || r.Missing? ==> cur == s && Shows(s)
      ensures r.Asleep? ==> k == |schedule| && Full(cur) && Shows(cur)
      ensures r.Queued? ==>
        var next := Step(Step(Step(cur, Submit(cmd)), Continue), Continue);
        && !Full(cur) && Shows(next) && next.submitted == cur.submitted + [cmd]
        && Carries(headQ[cur.head], cmd, cur.head) && headIndex == (cur.head + 1) % 128
    {
      k, cur := 0, s;
      if cmd.option > 1 {
        return Refused, 0, s;
      }
      if disp >= count {
        return Missing, 0, s;
      }
      var room: bool;
      room, k, cur := AwaitRoom(schedule, s);
      if !room {
        return Asleep, k, cur;
      }
      Enqueue(cmd, cur);
      EntryCarries(cmd, cur.head);
      return Queued, k, cur;
    }
  }

  /** The device an interrupt cause belongs to: causes count down from NVM_MSI_NUM, in 32-bit arithmetic. */
  function DeviceOf(cause: u32): u32 { (NVM_MSI_NUM + WORD - cause) % WORD }

  function CauseOf(id: nat): u32
    requires id <= NVM_MSI_NUM
  {
    NVM_MSI_NUM - id
  }

  /** The handler serves the device whose interrupt fired and ignores every other cause. */
  lemma CauseRoundTrip(cause: u32, count: nat)
    requires count <= NVM_MSI_NUM
    ensures DeviceOf(cause) < count <==> exists id :: 0 <= id < count && cause == CauseOf(id)
    ensures forall id :: 0 <= id < count ==> DeviceOf(CauseOf(id)) == id
  {
    if DeviceOf(cause) < count {
      assert cause == CauseOf(DeviceOf(cause));
    }
  }
}
