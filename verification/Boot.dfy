/** Running the image: a machine for the instructions boot code uses, and what the
    injected `.start` routine leaves in RAM before it reaches `main`. */
module Boot {
  import opened Machine
  import opened Isa
  import opened Layout
  import opened LayoutFacts

  type Decoder = u32 -> Option<Instr>

  /** Registers, program counter, memory by word address, and the decoder of the control unit. */
  datatype Cpu = Cpu(regs: seq<u32>, pc: u32, mem: u32 -> u32, decode: Decoder) {
    ghost predicate Wf() { |regs| == 16 && regs[0] == 0 }
  }

  function SetReg(c: Cpu, r: nat, v: u32): Cpu
    requires |c.regs| == 16 && r < 16
  {
    if r == 0 then c else c.(regs := c.regs[r := v])
  }

  function Next(c: Cpu): Cpu { c.(pc := (c.pc + 4) % WORD) }

  function Address(c: Cpu, a: nat, offset: nat): u32
    requires |c.regs| == 16 && a < 16 && offset < 0x1_0000
  {
    (c.regs[a] + SignExtend(offset)) % WORD
  }

  /** One decoded instruction. `None` is an alignment fault, or an instruction boot code does not use. */
  function Execute(c: Cpu, i: Instr): (r: Option<Cpu>)
    requires c.Wf()
    ensures r.Some? ==> r.value.Wf() && r.value.decode == c.decode
  {
    match i
    case LoadImm(true, a, imm) =>
      if a >= 16 || imm >= 0x1_0000 then None
      else Some(Next(SetReg(c, a, imm * 0x1_0000)))
    case AddImm(_, a, imm) =>
      if a >= 16 || imm >= 0x1_0000 then None
      else Some(Next(SetReg(c, a, (c.regs[a] + SignExtend(imm)) % WORD)))
    case Load(Word32, a, b, offset) =>
      if a >= 16 || b >= 16 || offset >= 0x1_0000 || Address(c, a, offset) % 4 != 0 then None
      else Some(Next(SetReg(c, b, c.mem(Address(c, a, offset)))))
    case Store(Word32, a, b, offset) =>
      if a >= 16 || b >= 16 || offset >= 0x1_0000 || Address(c, a, offset) % 4 != 0 then None
      else
        var target, v, mem := Address(c, a, offset), c.regs[b], c.mem;
        Some(Next(c.(mem := (x: u32) => if x == target then v else mem(x))))
    case Jump(false, b) => if b >= 16 then None else Some(c.(pc := c.regs[b]))
    case _ => None
  }

  function StepCpu(c: Cpu): (r: Option<Cpu>)
    requires c.Wf()
    ensures r.Some? ==> r.value.Wf()
  {
    if c.pc % 4 != 0 then None
    else match c.decode(c.mem(c.pc)) case None => None case Some(i) => Execute(c, i)
  }

  function RunCpu(c: Cpu, n: nat): (r: Option<Cpu>)
    requires c.Wf()
    ensures r.Some? ==> r.value.Wf()
    decreases n
  {
    if n == 0 then Some(c)
    else match StepCpu(c) case None => None case Some(c') => RunCpu(c', n - 1)
  }

  /** `d` is where the machine is `n` steps after `c`. */
  ghost predicate Reaches(c: Cpu, n: nat, d: Cpu) { c.Wf() && RunCpu(c, n) == Some(d) }

  lemma {:induction false} ReachesThen(c: Cpu, m: nat, d: Cpu, n: nat, e: Cpu)
    requires Reaches(c, m, d) && Reaches(d, n, e)
    ensures Reaches(c, m + n, e)
    decreases m
  {
    if m > 0 {
      ReachesThen(StepCpu(c).value, m - 1, d, n, e);
    }
  }

  // ---------------------------------------------------------------------------
  // Straight-line code
  // ---------------------------------------------------------------------------

  /** The stretch of memory `.start` can reach with its 16-bit offsets. */
  predicate InWindow(x: u32) { RAM_BASE - 0x8000 <= x < RAM_BASE + 0x8000 }

  /** Executing the instructions `code` in order takes `c` to `d`; stores stay in the window, and only the last may jump. */
  ghost predicate Runs(c: Cpu, code: seq<Instr>, d: Cpu)
    requires c.Wf()
    decreases |code|
  {
    if code == [] then c == d
    else
      && Execute(c, code[0]).Some?
      && (code[0].Store? && code[0].a < 16 && code[0].offset < 0x1_0000 ==> InWindow(Address(c, code[0].a, code[0].offset)))
      && (code[0].Jump? ==> |code| == 1)
      && Runs(Execute(c, code[0]).value, code[1..], d)
  }

  ghost predicate NoJump(code: seq<Instr>) { forall k :: 0 <= k < |code| ==> !code[k].Jump? }

  lemma {:induction false} RunsThen(c: Cpu, a: seq<Instr>, d: Cpu, b: seq<Instr>, e: Cpu)
    requires c.Wf() && d.Wf() && Runs(c, a, d) && NoJump(a) && Runs(d, b, e)
    ensures Runs(c, a + b, e)
    decreases |a|
  {
    if a == [] {
      assert a + b == b;
    } else {
      RunsThen(Execute(c, a[0]).value, a[1..], d, b, e);
      assert (a + b)[1..] == a[1..] + b;
    }
  }

  /** The words from `pc` on decode to `code`. */
  ghost predicate Holds(decode: Decoder, mem: u32 -> u32, pc: nat, code: seq<Instr>) {
    && pc % 4 == 0 && ROM_BASE <= pc && pc + 4 * |code| <= WORD
    && forall k :: 0 <= k < |code| ==> decode(mem(pc + 4 * k)) == Some(code[k])
  }

  lemma HoldsRest(decode: Decoder, mem: u32 -> u32, pc: nat, code: seq<Instr>, mem': u32 -> u32)
    requires code != [] && Holds(decode, mem, pc, code) && forall x: u32 :: !InWindow(x) ==> mem'(x) == mem(x)
    ensures Holds(decode, mem', pc + 4, code[1..])
  {
    forall k | 0 <= k < |code| - 1 ensures decode(mem'(pc + 4 + 4 * k)) == Some(code[1..][k]) {
      assert !InWindow(pc + 4 * (k + 1));
      assert decode(mem(pc + 4 * (k + 1))) == Some(code[k + 1]);
    }
  }

  lemma ExecuteFrame(c: Cpu, i: Instr)
    requires c.Wf() && Execute(c, i).Some?
    requires i.Store? && i.a < 16 && i.offset < 0x1_0000 ==> InWindow(Address(c, i.a, i.offset))
    ensures !i.Jump? ==> Execute(c, i).value.pc == (c.pc + 4) % WORD
    ensures forall x: u32 :: !InWindow(x) ==> Execute(c, i).value.mem(x) == c.mem(x)
  {
  }

  lemma FetchOne(c: Cpu, code: seq<Instr>)
    requires c.Wf() && Holds(c.decode, c.mem, c.pc, code) && code != []
    ensures StepCpu(c) == Execute(c, code[0])
  {
    assert c.decode(c.mem(c.pc + 4 * 0)) == Some(code[0]);
  }

  lemma StepThen(c: Cpu, c1: Cpu, n: nat, d: Cpu)
    requires c.Wf() && StepCpu(c) == Some(c1) && Reaches(c1, n, d)
    ensures Reaches(c, n + 1, d)
  {
  }

  /** The first instruction in ROM runs, and no store reaches the rest. */
  lemma FetchFirst(c: Cpu, code: seq<Instr>, d: Cpu) returns (c1: Cpu)
    requires c.Wf() && Holds(c.decode, c.mem, c.pc, code) && code != [] && Runs(c, code, d)
    ensures c1.Wf() && StepCpu(c) == Some(c1) && Runs(c1, code[1..], d)
    ensures |code| > 1 ==> Holds(c1.decode, c1.mem, c1.pc, code[1..])
  {
    FetchOne(c, code);
    c1 := Execute(c, code[0]).value;
    ExecuteFrame(c, code[0]);
    if |code| > 1 {
      HoldsRest(c.decode, c.mem, c.pc, code, c1.mem);
    }
  }

  /** Straight-line code in ROM runs as written: no store reaches it. */
  lemma {:induction false} FetchRuns(c: Cpu, code: seq<Instr>, d: Cpu)
    requires c.Wf() && Holds(c.decode, c.mem, c.pc, code) && Runs(c, code, d)
    ensures Reaches(c, |code|, d)
    decreases |code|
  {
    if code != [] {
      var c1 := FetchFirst(c, code, d);
      if |code| > 1 {
        FetchRuns(c1, code[1..], d);
      } else {
        assert code[1..] == [] && Reaches(d, 0, d);
      }
      StepThen(c, c1, |code| - 1, d);
    }
  }

  // ---------------------------------------------------------------------------
  // The boot code and what it does
  // ---------------------------------------------------------------------------

  function PairCode(r: nat, address: int): seq<Instr> {
    [LoadImm(true, r, HiLo(address).0), AddImm(true, r, HiLo(address).1)]
  }

  function CopyCode(n: nat): (code: seq<Instr>)
    ensures |code| == 2 * n && NoJump(code)
  {
    if n == 0 then []
    else CopyCode(n - 1) + [Load(Word32, 15, 2, 4 * (n - 1) % 0x1_0000), Store(Word32, 1, 2, 4 * (n - 1) % 0x1_0000)]
  }

  function JumpCode(entry: int): seq<Instr> { PairCode(15, entry) + [Jump(false, 15)] }

  function StartCode(entry: int, from: nat, n: nat): seq<Instr> {
    (if n > 0 then PairCode(15, from) + PairCode(1, RAM_BASE) + CopyCode(n) else []) + JumpCode(entry)
  }

  lemma RunsPair(c: Cpu, r: nat, address: int) returns (d: Cpu)
    requires c.Wf() && 0 < r < 16
    ensures d.Wf() && d.decode == c.decode && Runs(c, PairCode(r, address), d)
    ensures d.regs == c.regs[r := Physical(address)] && d.mem == c.mem
  {
    var (high, low) := HiLo(address);
    PairLoadsAddress(address);
    var c1 := Execute(c, LoadImm(true, r, high)).value;
    d := Execute(c1, AddImm(true, r, low)).value;
    assert d.regs == c.regs[r := Physical(address)];
    assert PairCode(r, address)[1..] == [AddImm(true, r, low)];
    assert Runs(d, [], d);
    assert Runs(c1, [AddImm(true, r, low)], d);
  }

  lemma SextAligned(offset: nat, base: u32)
    requires offset < 0x1_0000 && offset % 4 == 0 && base % 4 == 0
    ensures (base + SignExtend(offset)) % WORD % 4 == 0
    ensures offset < 0x8000 && base + offset < WORD ==> (base + SignExtend(offset)) % WORD == base + offset
    ensures offset >= 0x8000 && base >= 0x8000 ==> (base + SignExtend(offset)) % WORD == base + offset - 0x1_0000
  {
    var sum := base + SignExtend(offset);
    var rest := if sum < WORD then sum else sum - WORD;
    assert SignExtend(offset) % 4 == 0;
    assert 0 <= rest < WORD && rest % 4 == 0;
    assert sum % WORD == rest;
  }

  /** One turn of the unrolled copy moves the word at R15 + offset to R1 + offset. */
  lemma RunsCopy(c: Cpu, offset: nat) returns (d: Cpu)
    requires c.Wf() && offset < 0x1_0000 && offset % 4 == 0 && c.regs[15] % 4 == 0 && c.regs[1] == RAM_BASE
    ensures d.Wf() && d.decode == c.decode && Runs(c, [Load(Word32, 15, 2, offset), Store(Word32, 1, 2, offset)], d)
    ensures d.regs[15] == c.regs[15] && d.regs[1] == c.regs[1] && InWindow(Address(c, 1, offset))
    ensures d.mem(Address(c, 1, offset)) == c.mem(Address(c, 15, offset))
    ensures forall x: u32 :: x != Address(c, 1, offset) ==> d.mem(x) == c.mem(x)
  {
    SextAligned(offset, c.regs[15]);
    SextAligned(offset, RAM_BASE);
    var load, store := Load(Word32, 15, 2, offset), Store(Word32, 1, 2, offset);
    var c1 := Execute(c, load).value;
    d := Execute(c1, store).value;
    assert [load, store][1..] == [store];
    assert Runs(d, [], d);
    assert Runs(c1, [store], d);
  }

  /** After `k` turns of the copy: all but the window is untouched; while offsets stay positive, the first `k` words
      of RAM are the first `k` words of the data image, and nothing else has changed. */
  ghost predicate Copied(c0: Cpu, from: nat, k: nat, c: Cpu)
    requires from + k <= 0x4_0000
  {
    && c.Wf() && c.regs[15] == ROM_BASE + 4 * from && c.regs[1] == RAM_BASE
    && (forall x: u32 :: !InWindow(x) ==> c.mem(x) == c0.mem(x))
    && (k <= 8192 ==>
          && (forall j :: 0 <= j < k ==> c.mem(RAM_BASE + 4 * j) == c0.mem(ROM_BASE + 4 * (from + j)))
          && (forall x: u32 :: !(RAM_BASE <= x < RAM_BASE + 4 * k) ==> c.mem(x) == c0.mem(x)))
  }

  /** Storing one more word, from `source` to `target` in the window, keeps what was copied. */
  lemma CopiedNext(c0: Cpu, from: nat, k: nat, c: Cpu, d: Cpu, source: u32, target: u32)
    requires from + k < 0x4_0000 && Copied(c0, from, k, c) && d.Wf() && d.regs[15] == c.regs[15] && d.regs[1] == c.regs[1]
    requires InWindow(target) && d.mem(target) == c.mem(source) && forall x: u32 :: x != target ==> d.mem(x) == c.mem(x)
    requires k < 8192 ==> source == ROM_BASE + 4 * (from + k) && target == RAM_BASE + 4 * k
    ensures Copied(c0, from, k + 1, d)
  {
    if k < 8192 {
      assert !InWindow(source);
    }
  }

  lemma CopyTurn(c0: Cpu, from: nat, k: nat, c: Cpu) returns (d: Cpu)
    requires from + k < 0x4_0000 && Copied(c0, from, k, c)
    ensures d.Wf() && d.decode == c.decode && Runs(c, [Load(Word32, 15, 2, 4 * k % 0x1_0000), Store(Word32, 1, 2, 4 * k % 0x1_0000)], d)
    ensures Copied(c0, from, k + 1, d)
  {
    var offset := 4 * k % 0x1_0000;
    d := RunsCopy(c, offset);
    if k < 8192 {
      SextAligned(offset, c.regs[15]);
      SextAligned(offset, RAM_BASE);
    }
    CopiedNext(c0, from, k, c, d, Address(c, 15, offset), Address(c, 1, offset));
  }

  lemma {:induction false} CopyLoop(c0: Cpu, from: nat, n: nat) returns (c: Cpu)
    requires c0.Wf() && from + n <= 0x4_0000
    requires c0.regs[15] == ROM_BASE + 4 * from && c0.regs[1] == RAM_BASE
    ensures c.Wf() && c.decode == c0.decode && Runs(c0, CopyCode(n), c) && Copied(c0, from, n, c)
  {
    if n == 0 {
      c := c0;
    } else {
      var b := CopyLoop(c0, from, n - 1);
      c := CopyTurn(c0, from, n - 1, b);
      RunsThen(c0, CopyCode(n - 1), b, [Load(Word32, 15, 2, 4 * (n - 1) % 0x1_0000), Store(Word32, 1, 2, 4 * (n - 1) % 0x1_0000)], c);
    }
  }

  lemma RunsJump(c: Cpu, entry: int) returns (d: Cpu)
    requires c.Wf()
    ensures d.Wf() && d.decode == c.decode && Runs(c, JumpCode(entry), d) && d.pc == Physical(entry) && d.mem == c.mem
  {
    var c1 := RunsPair(c, 15, entry);
    d := c1.(pc := c1.regs[15]);
    assert Execute(c1, Jump(false, 15)) == Some(d) && Runs(d, [], d);
    assert Runs(c1, [Jump(false, 15)], d);
    RunsThen(c, PairCode(15, entry), c1, [Jump(false, 15)], d);
  }

  /** What `.start` leaves: control at the entry point, and the data image in RAM if it fits the offsets. */
  ghost predicate Started(c: Cpu, entry: int, from: nat, n: nat, d: Cpu)
    requires from + n <= 0x4_0000
  {
    && d.pc == Physical(entry)
    && (forall x: u32 :: !InWindow(x) ==> d.mem(x) == c.mem(x))
    && (n <= 8192 ==>
          && (forall j :: 0 <= j < n ==> d.mem(RAM_BASE + 4 * j) == c.mem(ROM_BASE + 4 * (from + j)))
          && (forall x: u32 :: !(RAM_BASE <= x < RAM_BASE + 4 * n) ==> d.mem(x) == c.mem(x)))
  }

  lemma RunsStart(c: Cpu, entry: int, from: nat, n: nat) returns (d: Cpu)
    requires c.Wf() && from + n < 0x4_0000
    ensures Runs(c, StartCode(entry, from, n), d) && Started(c, entry, from, n, d)
  {
    if n == 0 {
      d := RunsJump(c, entry);
      assert StartCode(entry, from, n) == JumpCode(entry);
    } else {
      RomAddressExact(from);
      var c1 := RunsPair(c, 15, from);
      var c2 := RunsPair(c1, 1, RAM_BASE);
      var c3 := CopyLoop(c2, from, n);
      d := RunsJump(c3, entry);
      RunsThen(c, PairCode(15, from), c1, PairCode(1, RAM_BASE), c2);
      RunsThen(c, PairCode(15, from) + PairCode(1, RAM_BASE), c2, CopyCode(n), c3);
      RunsThen(c, PairCode(15, from) + PairCode(1, RAM_BASE) + CopyCode(n), c3, JumpCode(entry), d);
    }
  }
}
