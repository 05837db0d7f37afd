/** The display driver: direct requests, queued requests, and one completion
    interrupt for each queued request the hardware works on. */
module Tty {
  import opened Machine

  const QUEUE_SIZE: nat := 4

  datatype Request = Request(data: u32, charData: u32, option: bv32, length: int)

  /** The driver's branchless test for requests that end with an interrupt. */
  function RequiresIrq(option: bv32, length: int): bool {
    var isLong := option >> 2;
    var isOp3: bv32 := if option == 3 then 1 else 0;
    var lenGt1: bv32 := if length > 1 then 1 else 0;
    (isLong | ((1 - isOp3) & lenGt1)) != 0
  }

  /** Block writes, and anything but a clear that is longer than one character. */
  lemma RequiresIrqMeans(option: bv32, length: int)
    ensures RequiresIrq(option, length) <==> option >= 4 || (option != 3 && length > 1)
  {
    assert option >> 2 == 0 <==> option < 4;
    assert 1 & 1 == (1 as bv32) && (0 as bv32) & 1 == 0;
  }

  /** The branchless choice of command and length for a text whose first two characters are `c0` and `c1`. */
  function Select(c0: bv32, c1: bv32, count: bv32): (bv32, bv32) {
    var isLong := (c1 | (0 - c1)) >> 31;
    var m := 0 - isLong;
    var x := c0 ^ 8;
    var notBs := (x | (0 - x)) >> 31;
    var option := (4 & m) | ((2 - notBs) & !m);
    var nz := (count | (0 - count)) >> 31;
    (option, count + ((1 - nz) & !m))
  }

  /** A string of two or more is sent as a block; one character as itself, or as a backspace; a length of 0 then means 1. */
  lemma SelectMeans(c0: bv32, c1: bv32, count: bv32)
    ensures Select(c0, c1, count) ==
      if c1 != 0 then (4, count) else (if c0 == 8 then 2 else 1, if count == 0 then 1 else count)
  {
    SignOfNonzero(c1);
    SignOfNonzero(c0 ^ 8);
    SignOfNonzero(count);
    assert c0 ^ 8 == 0 <==> c0 == 8;
  }

  lemma SignOfNonzero(x: bv32)
    ensures (x | (0 - x)) >> 31 == if x == 0 then 0 else 1
  {
  }

  /** Where the one producer stands: idle, waiting in its loop, or past it and about to enter the critical section. */
  datatype Pc = Idle | Waiting(req: Request) | Admitted(req: Request)

  /** The queue, the producer, whether the hardware is at work on a queued request, and the history: the requests called
      for and issued, and how many were queued and completed. */
  datatype State = State(items: seq<Request>, head: nat, tail: nat, count: nat, busy: bool, pc: Pc, inFlight: bool,
                         called: seq<Request>, issued: seq<Request>, queued: nat, completed: nat)
  {
    predicate Wf() { |items| == QUEUE_SIZE && head < QUEUE_SIZE && tail < QUEUE_SIZE }
  }

  function Wrap(i: nat): nat { i % QUEUE_SIZE }

  predicate Long(req: Request) { RequiresIrq(req.option, req.length) }

  function Issue(s: State, req: Request): State { s.(issued := s.issued + [req]) }

  /** The loop condition: room in the queue for a queued request, idle hardware for a direct one. */
  predicate MayProceed(s: State, req: Request) {
    if Long(req) then s.count < QUEUE_SIZE else !s.busy
  }

  function Enqueue(s: State, req: Request): State
    requires s.Wf()
  {
    var q := s.(items := s.items[s.tail := req], tail := Wrap(s.tail + 1), count := s.count + 1, queued := s.queued + 1);
    if q.busy then q else Issue(q.(busy := true, inFlight := true), q.items[q.head])
  }

  /** The completion interrupt; `count` is an 8-bit counter. */
  function Handle(s: State): State
    requires s.Wf()
  {
    var q := s.(head := Wrap(s.head + 1), count := (s.count + 255) % 256, completed := s.completed + 1);
    if q.count > 0 then Issue(q, q.items[q.head]) else q.(busy := false, inFlight := false)
  }

  datatype Action = Call(req: Request) | Check | Enter | Interrupt

  /** One step; what is not enabled does nothing. The hardware interrupts only for a queued request it is working on. */
  function Step(s: State, a: Action): (r: State)
    requires s.Wf()
    ensures r.Wf()
  {
    match a
    case Call(req) => if s.pc.Idle? then s.(pc := Waiting(req), called := s.called + [req]) else s
    case Check => if s.pc.Waiting? && MayProceed(s, s.pc.req) then s.(pc := Admitted(s.pc.req)) else s
    case Enter =>
      if !s.pc.Admitted? then s
      else if Long(s.pc.req) then Enqueue(s, s.pc.req).(pc := Idle)
      else Issue(s, s.pc.req).(pc := Idle)
    case Interrupt => if s.inFlight then Handle(s) else s
  }

  function Start(items: seq<Request>): State { State(items, 0, 0, 0, false, Idle, false, [], [], 0, 0) }

  function Steps(s: State, actions: seq<Action>): (r: State)
    requires s.Wf()
    ensures r.Wf()
  {
    if actions == [] then s else Step(Steps(s, Front(actions)), Last(actions))
  }

  /** The actions `run` lead from `s` to `cur`. */
  ghost predicate Reached(s: State, run: seq<Action>, cur: State) { s.Wf() && Steps(s, run) == cur }

  lemma ReachedThen(s: State, run: seq<Action>, cur: State, a: Action)
    requires Reached(s, run, cur)
    ensures Reached(s, run + [a], Step(cur, a))
  {
    assert Front(run + [a]) == run;
  }

  function Run(items: seq<Request>, actions: seq<Action>): (s: State)
    requires |items| == QUEUE_SIZE
    ensures s.Wf()
  {
    Steps(Start(items), actions)
  }

  // ---------------------------------------------------------------------------
  // The invariant
  // ---------------------------------------------------------------------------

  /** The requests queued behind the one the hardware works on, in order. */
  function Queued(items: seq<Request>, head: nat, count: nat): (q: seq<Request>)
    requires |items| == QUEUE_SIZE
    ensures |q| == if count > 0 then count - 1 else 0
  {
    if count == 0 then [] else seq(count - 1, i requires 0 <= i => items[Wrap(head + 1 + i)])
  }

  function Current(pc: Pc): seq<Request> {
    if pc.Idle? then [] else [pc.req]
  }

  ghost predicate Inv(s: State) {
    && s.Wf() && s.count <= QUEUE_SIZE && s.tail == Wrap(s.head + s.count)
    && (s.busy <==> s.count > 0) && (s.inFlight <==> s.count > 0)
    && (s.pc.Admitted? ==> MayProceed(s, s.pc.req))
    && s.queued == s.completed + s.count
    && s.issued + Queued(s.items, s.head, s.count) + Current(s.pc) == s.called
  }

  lemma CallKeeps(s: State, req: Request)
    requires Inv(s)
    ensures Inv(Step(s, Call(req)))
  {
  }

  lemma CheckKeeps(s: State)
    requires Inv(s)
    ensures Inv(Step(s, Check))
  {
  }

  lemma WrapNext(head: nat, count: nat)
    requires count < QUEUE_SIZE
    ensures Wrap(Wrap(head + count) + 1) == Wrap(head + (count + 1))
  {
  }

  lemma WrapDistinct(head: nat, i: nat, count: nat)
    requires i < count < QUEUE_SIZE
    ensures Wrap(head + i) != Wrap(head + count)
  {
  }

  lemma EnqueueQueued(s: State, req: Request)
    requires Inv(s) && 0 < s.count < QUEUE_SIZE
    ensures Queued(s.items[s.tail := req], s.head, s.count + 1) == Queued(s.items, s.head, s.count) + [req]
  {
    var items := s.items[s.tail := req];
    forall i | 0 <= i < s.count
      ensures items[Wrap(s.head + 1 + i)] == (Queued(s.items, s.head, s.count) + [req])[i]
    {
      if i < s.count - 1 {
        WrapDistinct(s.head, 1 + i, s.count);
      }
    }
  }

  lemma EnterKeeps(s: State)
    requires Inv(s)
    ensures Inv(Step(s, Enter))
  {
    if s.pc.Admitted? {
      var req := s.pc.req;
      if Long(req) {
        WrapNext(s.head, s.count);
        if s.busy {
          EnqueueQueued(s, req);
          assert s.issued + Queued(s.items, s.head, s.count) + [req] == s.issued + (Queued(s.items, s.head, s.count) + [req]);
        } else {
          assert s.tail == s.head;
          assert Queued(s.items[s.tail := req], s.head, 1) == [];
        }
      }
    }
  }

  /** The first queued request is the one at the next head; the others stay queued. */
  lemma DequeueQueued(items: seq<Request>, head: nat, count: nat)
    requires |items| == QUEUE_SIZE && count > 1
    ensures Queued(items, head, count) == [items[Wrap(head + 1)]] + Queued(items, Wrap(head + 1), count - 1)
  {
    var q, q' := Queued(items, head, count), Queued(items, Wrap(head + 1), count - 1);
    forall i | 0 <= i < |q'| ensures q'[i] == q[i + 1] {
      assert Wrap(Wrap(head + 1) + 1 + i) == Wrap(head + 1 + (i + 1));
    }
  }

  lemma InterruptKeeps(s: State)
    requires Inv(s)
    ensures Inv(Step(s, Interrupt))
  {
    if s.inFlight {
      var r := Handle(s);
      assert r.tail == Wrap(r.head + r.count);
      if s.count > 1 {
        DequeueQueued(s.items, s.head, s.count);
        var q := Queued(s.items, r.head, r.count);
        assert s.issued + ([s.items[r.head]] + q) + Current(s.pc) == s.issued + [s.items[r.head]] + q + Current(s.pc);
      }
    }
  }

  lemma StepKeepsInv(s: State, a: Action)
    requires Inv(s)
    ensures Inv(Step(s, a))
  {
    match a
    case Call(req) => CallKeeps(s, req);
    case Check => CheckKeeps(s);
    case Enter => EnterKeeps(s);
    case Interrupt => InterruptKeeps(s);
  }

  lemma {:induction false} RunKeepsInv(items: seq<Request>, actions: seq<Action>)
    requires |items| == QUEUE_SIZE
    ensures Inv(Run(items, actions))
  {
    if actions != [] {
      RunKeepsInv(items, Front(actions));
      StepKeepsInv(Run(items, Front(actions)), Last(actions));
    }
  }

  /** Over every interleaving, requests reach the hardware in call order, each once, direct ones included; the ring
      indices, the count and the busy flag agree; and nothing called for is lost once the hardware falls idle. */
  lemma IssuedInCallOrder(items: seq<Request>, actions: seq<Action>)
    requires |items| == QUEUE_SIZE
    ensures var s := Run(items, actions);
      && s.issued <= s.called
      && (s.busy <==> s.count > 0) && s.count <= QUEUE_SIZE && s.tail == (s.head + s.count) % QUEUE_SIZE
      && (s.pc.Idle? && !s.busy ==> s.issued == s.called)
  {
    RunKeepsInv(items, actions);
  }

  /** A block write, or anything but a clear that is longer than one character, waits exactly while four requests are
      queued and not completed; any other request exactly while one is. */
  lemma WaitsIff(items: seq<Request>, actions: seq<Action>, req: Request)
    requires |items| == QUEUE_SIZE
    ensures var s := Run(items, actions);
      var unfinished := s.queued - s.completed;
      && 0 <= unfinished <= 4
      && (MayProceed(s, req) <==> unfinished < if req.option >= 4 || (req.option != 3 && req.length > 1) then 4 else 1)
  {
    RunKeepsInv(items, actions);
    RequiresIrqMeans(req.option, req.length);
  }

  function Interrupts(s: State, n: nat): (r: State)
    requires s.Wf()
    ensures r.Wf()
    decreases n
  {
    if n == 0 then s else Interrupts(Step(s, Interrupt), n - 1)
  }

  /** As many interrupts as there are requests in the queue issue them all and free the hardware, so no waiting producer waits forever. */
  lemma {:induction false} QueueDrains(s: State)
    requires Inv(s)
    ensures var r := Interrupts(s, s.count);
      Inv(r) && !r.busy && r.pc == s.pc && r.called == s.called && r.issued + Current(s.pc) == s.called
    decreases s.count
  {
    if s.count > 0 {
      InterruptKeeps(s);
      QueueDrains(Step(s, Interrupt));
    }
  }

  // ---------------------------------------------------------------------------
  // The driver's code
  // ---------------------------------------------------------------------------

  /** How many interrupts a schedule holds. */
  function Total(schedule: seq<nat>): nat {
    if schedule == [] then 0 else Total(Front(schedule)) + Last(schedule)
  }

  class Display {
    const items: array<Request>
    var head: nat
    var tail: nat
    var count: nat
    var hardwareBusy: bool
    /** The requests written to the device registers. */
    var sent: seq<Request>

    ghost predicate Shows(s: State)
      reads this, items
    {
      && items.Length == QUEUE_SIZE && s.Wf() && s.items == items[..] && s.head == head && s.tail == tail
      && s.count == count && s.busy == hardwareBusy && s.issued == sent
    }

    constructor ()
      ensures fresh(items) && Shows(Start(items[..]))
    {
      items := new Request[QUEUE_SIZE](_ => Request(0, 0, 0, 0));
      head, tail, count, hardwareBusy, sent := 0, 0, 0, false, [];
    }

    method Execute(req: Request)
      modifies this`sent
      ensures sent == old(sent) + [req]
    {
      sent := sent + [req];
    }

    method HandleIrq(ghost s: State)
      requires Shows(s)
      modifies this
      ensures Shows(Handle(s))
    {
      head := (head + 1) % QUEUE_SIZE;
      count := (count + 255) % 256;
      if count > 0 {
        Execute(items[head]);
      } else {
        hardwareBusy := false;
      }
    }

    /** The critical section of a write whose loop has let it through. */
    method Admit(req: Request, ghost s: State)
      requires Shows(s) && s.pc == Admitted(req)
      modifies this, items
      ensures Shows(Step(s, Enter))
    {
      if !RequiresIrq(req.option, req.length) {
        Execute(req);
        return;
      }
      items[tail] := req;
      tail := (tail + 1) % QUEUE_SIZE;
      count := count + 1;
      if !hardwareBusy {
        hardwareBusy := true;
        Execute(items[head]);
      }
    }

    /** After the actions `run` from `s` the system is in `cur`, and this object shows it. */
    ghost predicate At(s: State, run: seq<Action>, cur: State)
      reads this, items
    {
      Reached(s, run, cur) && Inv(cur) && Shows(cur)
    }

    /** An interrupt, if the device has a reason to send one. */
    method OneInterrupt(ghost s: State, ghost run: seq<Action>, ghost cur: State) returns (ghost cur': State)
      requires At(s, run, cur)
      modifies this
      ensures At(s, run + [Interrupt], cur') && cur'.pc == cur.pc && cur'.called == cur.called
    {
      StepKeepsInv(cur, Interrupt);
      ReachedThen(s, run, cur, Interrupt);
      if hardwareBusy {
        HandleIrq(cur);
      }
      cur' := Step(cur, Interrupt);
    }

    /** Completion interrupts that come while the producer sleeps. */
    method Arrive(n: nat, ghost s: State, ghost run: seq<Action>, ghost cur: State) returns (ghost run': seq<Action>, ghost cur': State)
      requires At(s, run, cur)
      modifies this
      ensures At(s, run', cur') && cur'.pc == cur.pc && cur'.called == cur.called && |run'| == |run| + n
    {
      run', cur' := run, cur;
      for i := 0 to n
        invariant At(s, run', cur') && cur'.pc == cur.pc && cur'.called == cur.called && |run'| == |run| + i
      {
        cur' := OneInterrupt(s, run', cur');
        run' := run' + [Interrupt];
      }
    }

    /** One look at the loop condition. */
    method MustWait(req: Request, ghost s: State) returns (wait: bool)
      requires Shows(s)
      ensures wait == !MayProceed(s, req)
    {
      if RequiresIrq(req.option, req.length) {
        wait := count >= QUEUE_SIZE;
      } else {
        wait := hardwareBusy;
      }
    }

    /** The waiting loop, with `schedule[i]` interrupts at sleep `i`, until it lets the request through or the schedule has run out. */
    method AwaitTurn(req: Request, schedule: seq<nat>, ghost s: State, ghost run0: seq<Action>, ghost cur0: State)
      returns (ok: bool, i: nat, ghost run: seq<Action>, ghost cur: State)
      requires At(s, run0, cur0)
      modifies this
      ensures At(s, run, cur) && cur.called == cur0.called && cur.pc == cur0.pc
      ensures i <= |schedule| && |run| == |run0| + Total(schedule[..i])
      ensures ok == MayProceed(cur, req) && (!ok ==> i == |schedule|)
    {
      run, cur, i := run0, cur0, 0;
      var wait := MustWait(req, cur);
      while wait
        invariant At(s, run, cur) && cur.called == cur0.called && cur.pc == cur0.pc
        invariant i <= |schedule| && |run| == |run0| + Total(schedule[..i])
        invariant wait == !MayProceed(cur, req)
        decreases |schedule| - i
      {
        if i == |schedule| {
          return false, i, run, cur;
        }
        run, cur := Arrive(schedule[i], s, run, cur);
        assert Front(schedule[..i + 1]) == schedule[..i];
        i := i + 1;
        wait := MustWait(req, cur);
      }
      ok := true;
    }

    /** From the last look at the loop condition to the end of the critical section, with `n` interrupts in between. */
    method EnterCritical(req: Request, n: nat, ghost s: State, ghost run0: seq<Action>, ghost cur0: State)
      returns (ghost run: seq<Action>, ghost cur: State)
      requires At(s, run0, cur0) && cur0.pc == Waiting(req) && MayProceed(cur0, req)
      modifies this, items
      ensures At(s, run, cur) && cur.called == cur0.called && cur.pc.Idle?
    {
      StepKeepsInv(cur0, Check);
      ReachedThen(s, run0, cur0, Check);
      run, cur := Arrive(n, s, run0 + [Check], Step(cur0, Check));
      Admit(req, cur);
      StepKeepsInv(cur, Enter);
      ReachedThen(s, run, cur, Enter);
      run, cur := run + [Enter], Step(cur, Enter);
    }

    /** A write: at once in a panic, otherwise when the loop lets it through. `schedule` says how many interrupts come at
        each sleep, and before the critical section. Without a panic this is a run of the transition system, in which
        this request is the one called for; it still waits only if the loop must, all interrupts having come. */
    method Write(req: Request, panic: bool, schedule: seq<nat>, ghost s: State)
      returns (done: bool, ghost run: seq<Action>, ghost cur: State)
      requires Shows(s) && Inv(s) && s.pc.Idle?
      modifies this, items
      ensures panic ==> done && Shows(s.(issued := s.issued + [req]))
      ensures !panic ==> At(s, run, cur) && cur.called == s.called + [req]
      ensures !panic && done ==> cur.pc.Idle?
      ensures !panic && !done ==> cur.pc == Waiting(req) && !MayProceed(cur, req) && |run| == 1 + Total(schedule)
    {
      if panic {
        Execute(req);
        return true, [], s;
      }
      StepKeepsInv(s, Call(req));
      ReachedThen(s, [], s, Call(req));
      var i: nat;
      done, i, run, cur := AwaitTurn(req, schedule, s, [] + [Call(req)], Step(s, Call(req)));
      assert !done ==> schedule[..i] == schedule;
      if done {
        run, cur := EnterCritical(req, if i < |schedule| then schedule[i] else 0, s, run, cur);
      }
    }
  }
}
