/** The instruction set as the assembler encodes it and the processor decodes it. */
module Isa {
  import opened Machine

  datatype Mnemonic =
    | NOP | HLT | ADD | SUB | MUL | DIV | NOR | AND | XOR | RSH | LSH | GOF
    | LDI | ADI | JMP | BRH | CAL | RET | LOD | STR | CYE | CYR | SCL | SRT

  datatype Prefix = NoPrefix | SLT | H | L | CHAR | SHORT | INT

  /** A label with a constant added; plain labels have offset 0. */
  datatype LabelExpr = LabelExpr(name: string, offset: int)

  /** An operand as written. */
  datatype Arg =
    | Reg(r: nat) | Special(r: nat) | Num(v: int) | Cond(name: string)
    | Hi(e: LabelExpr) | Lo(e: LabelExpr) | Sym(e: LabelExpr)

  /** A source instruction: optional prefix, mnemonic, operands. */
  datatype Source = Source(prefix: Prefix, mnemonic: Mnemonic, args: seq<Arg>)

  type Labels = map<string, int>

  function Opcode(m: Mnemonic): (op: nat)
    ensures op < 24
  {
    match m
    case NOP => 0 case HLT => 1 case ADD => 2 case SUB => 3 case MUL => 4 case DIV => 5
    case NOR => 6 case AND => 7 case XOR => 8 case RSH => 9 case LSH => 10 case GOF => 11
    case LDI => 12 case ADI => 13 case JMP => 14 case BRH => 15 case CAL => 16 case RET => 17
    case LOD => 18 case STR => 19 case CYE => 20 case CYR => 21 case SCL => 22 case SRT => 23
  }

  predicate IsBare(m: Mnemonic) { m.NOP? || m.HLT? || m.RET? || m.SCL? || m.SRT? }

  predicate IsAlu(m: Mnemonic) {
    m.ADD? || m.SUB? || m.MUL? || m.DIV? || m.NOR? || m.AND? || m.XOR? || m.RSH? || m.LSH?
  }

  function CondCode(name: string): (c: Option<nat>)
    ensures c.Some? ==> c.value < 8
  {
    if name == "=" || name == "EQ" then Some(0)
    else if name == "!=" || name == "NE" then Some(1)
    else if name == "N" || name == "NEG" then Some(2)
    else if name == "NN" || name == "POS" then Some(3)
    else if name == "C" || name == "CS" then Some(4)
    else if name == "NC" || name == "CC" then Some(5)
    else if name == "OV" then Some(6)
    else if name == "NOV" then Some(7)
    else None
  }

  // ---------------------------------------------------------------------------
  // Addresses and their two halves
  // ---------------------------------------------------------------------------

  const ROM_BASE: nat := 0xFFF0_0000
  const ROM_LIMIT: nat := 0x0100_0000

  /** The 32-bit address a label value stands for: below ROM_LIMIT it is a word index into ROM, whose byte address
      is or-ed with ROM_BASE, so only its low 20 bits survive; otherwise it is a byte address. */
  function Physical(address: int): u32 {
    if address >= ROM_LIMIT then address % WORD else ROM_BASE + 4 * address % 0x10_0000
  }

  /** The operands of H LDI and SLT ADI for an address; the high half makes up for the sign of the low half. */
  function HiLo(address: int): (r: (nat, nat))
    ensures r.0 < 0x1_0000 && r.1 < 0x1_0000
  {
    var target := Physical(address);
    var high, low := target / 0x1_0000, target % 0x1_0000;
    (if low >= 0x8000 then (high + 1) % 0x1_0000 else high, low)
  }

  /** A 16-bit immediate extended with its sign to 32 bits. */
  function SignExtend(imm: nat): (r: u32)
    requires imm < 0x1_0000
  {
    if imm >= 0x8000 then imm + 0xFFFF_0000 else imm
  }

  /** H LDI followed by ADI leaves exactly the physical address in the register, for every label value. */
  lemma PairLoadsAddress(address: int)
    ensures (HiLo(address).0 * 0x1_0000 + SignExtend(HiLo(address).1)) % WORD == Physical(address)
  {
    var t := Physical(address);
    var high, low := t / 0x1_0000, t % 0x1_0000;
    assert t == high * 0x1_0000 + low;
    if low >= 0x8000 && high < 0xFFFF {
      assert (high + 1) * 0x1_0000 + low + 0xFFFF_0000 == t + WORD;
    }
  }

  /** At or above 0x0100_0000 the address is the label value, cut to 32 bits; below, it is the one in the top megabyte
      that is four times the word index modulo a megabyte. */
  lemma PhysicalExact(address: int)
    ensures address >= 0x0100_0000 ==> 0 <= Physical(address) < 0x1_0000_0000 && (Physical(address) - address) % 0x1_0000_0000 == 0
    ensures address < 0x0100_0000 ==>
      0xFFF0_0000 <= Physical(address) < 0x1_0000_0000 && (Physical(address) - 4 * address) % 0x10_0000 == 0
  {
  }

  /** A word index has the address ROM_BASE + 4 * index exactly when the image stays below 2^18 words. */
  lemma RomAddressExact(index: nat)
    requires index < ROM_LIMIT
    ensures Physical(index) == ROM_BASE + 4 * index <==> index < 0x4_0000
  {
  }

  function Eval(e: LabelExpr, labels: Labels): Option<int> {
    if e.name in labels then Some(labels[e.name] + e.offset) else None
  }

  /** An offset, of either sign, counts bytes on a RAM label but words on a ROM label: `label+k` is k bytes past `label`
      only in RAM or for k = 0. */
  lemma OffsetExact(base: int, k: int)
    requires if base >= ROM_LIMIT then base < WORD && ROM_LIMIT <= base + k < WORD else 0 <= base < 0x4_0000 && 0 <= base + k < 0x4_0000
    ensures Physical(base + k) == Physical(base) + k <==> (base >= ROM_LIMIT || k == 0)
  {
  }

  // ---------------------------------------------------------------------------
  // Encoding
  // ---------------------------------------------------------------------------

  /** The three fields of a word; they do not overlap, so or-ing them adds them. */
  function BuildWord(tipo: nat, op: nat, operands: nat): u32
    requires tipo < 8 && op < 32 && operands < 0x100_0000
  {
    tipo * 0x2000_0000 + op * 0x100_0000 + operands
  }

  /** Operand fields: register fields A and B and the low 16 bits. */
  function Operands(a: nat, b: nat, low: nat): (r: nat)
    requires a < 16 && b < 16 && low < 0x1_0000
    ensures r < 0x100_0000
  {
    a * 0x10_0000 + b * 0x1_0000 + low
  }

  function ParseReg(a: Arg): (r: Option<nat>)
    ensures r.Some? ==> r.value < 16
  {
    if a.Reg? && a.r < 16 then Some(a.r) else None
  }

  function ParseSpecial(a: Arg): (r: Option<nat>)
    ensures r.Some? ==> r.value < 16
  {
    if a.Special? && a.r < 16 then Some(a.r) else None
  }

  function ParseImmediate(a: Arg, signed: bool): (r: Option<nat>)
    ensures r.Some? ==> r.value < 0x1_0000
  {
    if !a.Num? then None
    else if signed then
      if -0x8000 <= a.v < 0x1_0000 then Some(if a.v < 0 then a.v + 0x1_0000 else a.v) else None
    else if 0 <= a.v < 0x1_0000 then Some(a.v) else None
  }

  datatype Half = High | Low

  function Pick(half: Half, address: int): (r: nat)
    ensures r < 0x1_0000
  {
    if half == High then HiLo(address).0 else HiLo(address).1
  }

  /** An immediate operand: %hi/%lo, a label taken as the half `kind` (the high one by default), or a number. */
  function Resolve(a: Arg, labels: Labels, kind: Option<Half>, signed: bool): (r: Option<nat>)
    ensures r.Some? ==> r.value < 0x1_0000
  {
    match a
    case Hi(e) => (match Eval(e, labels) case Some(t) => Some(Pick(High, t)) case None => None)
    case Lo(e) => (match Eval(e, labels) case Some(t) => Some(Pick(Low, t)) case None => None)
    case Sym(e) => (match Eval(e, labels)
      case Some(t) => Some(Pick(if kind.Some? then kind.value else High, t))
      case None => None)
    case _ => ParseImmediate(a, signed)
  }

  /** The type field a prefix asks for, whether it is a memory size, and whether it is H or L. */
  function PrefixFields(p: Prefix): (r: (nat, bool, bool))
    ensures r.0 < 8
  {
    match p
    case NoPrefix => (0, false, false)
    case SLT => (4, false, false)
    case H => (4, false, true)
    case L => (0, false, true)
    case CHAR => (0, true, false)
    case SHORT => (1, true, false)
    case INT => (2, true, false)
  }

  /** The checks on prefix and mnemonic, in the assembler's order. */
  predicate PrefixAllowed(p: Prefix, m: Mnemonic) {
    var (tipo, isMem, isHl) := PrefixFields(p);
    && !(p.NoPrefix? && (m.LOD? || m.STR?))
    && !(isMem && !(m.LOD? || m.STR?))
    && !(isHl && !m.LDI?)
    && !(!isHl && tipo == 4 && !(IsAlu(m) || m.ADI?))
  }

  /** One register field, in field A or B. */
  function OneReg(m: Mnemonic, args: seq<Arg>, inA: bool): Option<u32> {
    if |args| != 1 then None
    else match ParseReg(args[0])
      case Some(r) => Some(BuildWord(0, Opcode(m), if inA then Operands(r, 0, 0) else Operands(0, r, 0)))
      case None => None
  }

  function EncodeSingle(s: Source, labels: Labels): Option<u32> {
    var (tipo, isMem, isHl) := PrefixFields(s.prefix);
    var m, args, op := s.mnemonic, s.args, Opcode(s.mnemonic);
    if !PrefixAllowed(s.prefix, m) then None
    else if IsBare(m) then
      if |args| == 0 then Some(BuildWord(0, op, 0)) else None
    else if IsAlu(m) then
      if |args| != 3 || ParseReg(args[0]).None? || ParseReg(args[1]).None? || ParseReg(args[2]).None? then None
      else Some(BuildWord(tipo, op, Operands(args[0].r, args[1].r, args[2].r * 0x1000)))
    else if m.GOF? then OneReg(m, args, true)
    else if m.LDI? || m.ADI? then
      if |args| != 2 || ParseReg(args[0]).None? then None
      else
        var kind := if m.LDI? then (if isHl then Some(High) else None) else if tipo == 4 then Some(Low) else None;
        (match Resolve(args[1], labels, kind, m.ADI?)
         case Some(imm) => Some(BuildWord(tipo, op, Operands(args[0].r, 0, imm)))
         case None => None)
    else if m.JMP? || m.CAL? then OneReg(m, args, false)
    else if m.BRH? then
      if |args| != 2 || !args[0].Cond? || CondCode(args[0].name).None? || ParseReg(args[1]).None? then None
      else Some(BuildWord(0, op, Operands(CondCode(args[0].name).value, args[1].r, 0)))
    else if m.LOD? || m.STR? then
      if |args| != 3 || ParseReg(args[0]).None? || ParseReg(args[1]).None? || ParseImmediate(args[2], true).None? then None
      else Some(BuildWord(tipo, op, Operands(args[0].r, args[1].r, ParseImmediate(args[2], true).value)))
    else if m.CYE? then
      if |args| != 2 || ParseSpecial(args[0]).None? || ParseReg(args[1]).None? then None
      else Some(BuildWord(0, op, Operands(args[0].r, args[1].r, 0)))
    else
      if |args| != 2 || ParseReg(args[0]).None? || ParseSpecial(args[1]).None? then None
      else Some(BuildWord(0, op, Operands(args[0].r, args[1].r, 0)))
  }

  // ---------------------------------------------------------------------------
  // Decoding
  // ---------------------------------------------------------------------------

  datatype Size = Byte | Half16 | Word32

  /** What a word tells the processor to do. */
  datatype Instr =
    | Bare(m: Mnemonic)
    | Alu(m: Mnemonic, silent: bool, a: nat, b: nat, c: nat)
    | GetOverflow(a: nat)
    | LoadImm(high: bool, a: nat, imm: nat)
    | AddImm(silent: bool, a: nat, imm: nat)
    | Jump(link: bool, b: nat)
    | Branch(cond: nat, b: nat)
    | Load(size: Size, a: nat, b: nat, offset: nat)
    | Store(size: Size, a: nat, b: nat, offset: nat)
    | FromSpecial(special: nat, a: nat)
    | ToSpecial(a: nat, special: nat)

  function MnemonicOf(op: nat): Option<Mnemonic> {
    match op
    case 0 => Some(NOP) case 1 => Some(HLT) case 2 => Some(ADD) case 3 => Some(SUB) case 4 => Some(MUL) case 5 => Some(DIV)
    case 6 => Some(NOR) case 7 => Some(AND) case 8 => Some(XOR) case 9 => Some(RSH) case 10 => Some(LSH) case 11 => Some(GOF)
    case 12 => Some(LDI) case 13 => Some(ADI) case 14 => Some(JMP) case 15 => Some(BRH) case 16 => Some(CAL) case 17 => Some(RET)
    case 18 => Some(LOD) case 19 => Some(STR) case 20 => Some(CYE) case 21 => Some(CYR) case 22 => Some(SCL) case 23 => Some(SRT)
    case _ => None
  }

  function SizeOf(tipo: nat): Option<Size> {
    if tipo == 0 then Some(Byte) else if tipo == 1 then Some(Half16) else if tipo == 2 then Some(Word32) else None
  }

  function Decode(w: u32): Option<Instr> {
    var tipo, op := w / 0x2000_0000, w / 0x100_0000 % 32;
    var a, b, low := w / 0x10_0000 % 16, w / 0x1_0000 % 16, w % 0x1_0000;
    match MnemonicOf(op)
    case None => None
    case Some(m) =>
      if op in {0, 1, 17, 22, 23} then Some(Bare(m))
      else if 2 <= op <= 10 then Some(Alu(m, tipo == 4, a, b, low / 0x1000))
      else if op == 11 then Some(GetOverflow(a))
      else if op == 12 then Some(LoadImm(tipo == 4, a, low))
      else if op == 13 then Some(AddImm(tipo == 4, a, low))
      else if op == 14 || op == 16 then Some(Jump(op == 16, b))
      else if op == 15 then Some(Branch(a, b))
      else if op == 18 then (match SizeOf(tipo) case Some(size) => Some(Load(size, a, b, low)) case None => None)
      else if op == 19 then (match SizeOf(tipo) case Some(size) => Some(Store(size, a, b, low)) case None => None)
      else if op == 20 then Some(FromSpecial(a, b))
      else Some(ToSpecial(a, b))
  }

  // ---------------------------------------------------------------------------
  // What a source instruction means, read off its grammar
  // ---------------------------------------------------------------------------

  predicate IsReg(a: Arg) { a.Reg? && a.r < 16 }

  predicate IsSpecial(a: Arg) { a.Special? && a.r < 16 }

  /** A signed 16-bit operand, given as itself or as its two's complement. */
  predicate IsOffset(a: Arg) { a.Num? && -0x8000 <= a.v < 0x1_0000 }

  /** The upper half of an address, rounded, so that a sign-extended lower half brings it back. */
  function UpperHalf(address: int): nat { (Physical(address) + 0x8000) / 0x1_0000 % 0x1_0000 }

  function LowerHalf(address: int): nat { Physical(address) % 0x1_0000 }

  lemma HalvesOf(address: int)
    ensures HiLo(address) == (UpperHalf(address), LowerHalf(address))
  {
  }

  /** What an immediate operand stands for: a number in range, modulo 2^16, or a half of the address of a label plus its
      offset, a bare label giving the upper half or the lower one as its place asks. */
  function Immediate(a: Arg, labels: Labels, upper: bool, signed: bool): Option<nat> {
    match a
    case Num(v) => if 0 <= v < 0x1_0000 || (signed && -0x8000 <= v < 0) then Some(v % 0x1_0000) else None
    case Hi(e) => if e.name in labels then Some(UpperHalf(labels[e.name] + e.offset)) else None
    case Lo(e) => if e.name in labels then Some(LowerHalf(labels[e.name] + e.offset)) else None
    case Sym(e) =>
      if e.name !in labels then None
      else Some(if upper then UpperHalf(labels[e.name] + e.offset) else LowerHalf(labels[e.name] + e.offset))
    case _ => None
  }

  /** The names of each branch condition, by its code. */
  const CONDITIONS: seq<seq<string>> :=
    [["=", "EQ"], ["!=", "NE"], ["N", "NEG"], ["NN", "POS"], ["C", "CS"], ["NC", "CC"], ["OV"], ["NOV"]]

  /** The first code from `c` on that goes by a name. */
  function Condition(name: string, c: nat): Option<nat>
    decreases 8 - c
  {
    if c >= 8 then None else if name in CONDITIONS[c] then Some(c) else Condition(name, c + 1)
  }

  /** The code of a condition is the place of its name in the table. */
  lemma CondCodeIs(name: string)
    ensures CondCode(name) == Condition(name, 0)
  {
    forall c: nat | c < 8
      ensures name in CONDITIONS[c] <==> name == CONDITIONS[c][0] || (|CONDITIONS[c]| > 1 && name == CONDITIONS[c][1])
    {
    }
    assert Condition(name, 4) == if name in CONDITIONS[4] then Some(4) else Condition(name, 5);
    assert Condition(name, 6) == if name in CONDITIONS[6] then Some(6) else Condition(name, 7);
  }

  function ImmediateMeaning(s: Source, labels: Labels): Option<Instr> {
    if |s.args| != 2 || !IsReg(s.args[0]) then None
    else if s.mnemonic.LDI? && (s.prefix.NoPrefix? || s.prefix.H? || s.prefix.L?) then
      match Immediate(s.args[1], labels, true, false)
      case Some(imm) => Some(LoadImm(s.prefix.H?, s.args[0].r, imm))
      case None => None
    else if s.mnemonic.ADI? && (s.prefix.NoPrefix? || s.prefix.SLT?) then
      match Immediate(s.args[1], labels, !s.prefix.SLT?, true)
      case Some(imm) => Some(AddImm(s.prefix.SLT?, s.args[0].r, imm))
      case None => None
    else None
  }

  function MemoryMeaning(s: Source): Option<Instr> {
    if |s.args| != 3 || !IsReg(s.args[0]) || !IsReg(s.args[1]) || !IsOffset(s.args[2]) then None
    else if !s.prefix.CHAR? && !s.prefix.SHORT? && !s.prefix.INT? then None
    else
      var size := if s.prefix.CHAR? then Byte else if s.prefix.SHORT? then Half16 else Word32;
      var a, b, offset := s.args[0].r, s.args[1].r, s.args[2].v % 0x1_0000;
      Some(if s.mnemonic.LOD? then Load(size, a, b, offset) else Store(size, a, b, offset))
  }

  function Meaning(s: Source, labels: Labels): Option<Instr> {
    var p, m, args := s.prefix, s.mnemonic, s.args;
    var plain := p.NoPrefix?;
    if m in {NOP, HLT, RET, SCL, SRT} then
      if plain && args == [] then Some(Bare(m)) else None
    else if m in {ADD, SUB, MUL, DIV, NOR, AND, XOR, RSH, LSH} then
      if (plain || p.SLT?) && |args| == 3 && IsReg(args[0]) && IsReg(args[1]) && IsReg(args[2]) then
        Some(Alu(m, p.SLT?, args[0].r, args[1].r, args[2].r))
      else None
    else if m.LDI? || m.ADI? then ImmediateMeaning(s, labels)
    else if m.LOD? || m.STR? then MemoryMeaning(s)
    else if !plain then None
    else if m.GOF? || m.JMP? || m.CAL? then
      if |args| != 1 || !IsReg(args[0]) then None
      else Some(if m.GOF? then GetOverflow(args[0].r) else Jump(m.CAL?, args[0].r))
    else if |args| != 2 then None
    else if m.BRH? then
      if args[0].Cond? && Condition(args[0].name, 0).Some? && IsReg(args[1]) then
        Some(Branch(Condition(args[0].name, 0).value, args[1].r))
      else None
    else if m.CYE? then
      if IsSpecial(args[0]) && IsReg(args[1]) then Some(FromSpecial(args[0].r, args[1].r)) else None
    else
      if IsReg(args[0]) && IsSpecial(args[1]) then Some(ToSpecial(args[0].r, args[1].r)) else None
  }

  /** A word cut above its low half: the fields read as one number in base 16 on top. */
  lemma WordHalves(tipo: nat, op: nat, a: nat, b: nat, low: nat)
    requires tipo < 8 && op < 32 && a < 16 && b < 16 && low < 0x1_0000
    ensures BuildWord(tipo, op, Operands(a, b, low)) == (tipo * 0x2000 + op * 0x100 + a * 0x10 + b) * 0x1_0000 + low
  {
  }

  lemma TopFields(tipo: nat, op: nat, rest: nat)
    requires tipo < 8 && op < 32 && rest < 0x100_0000
    ensures BuildWord(tipo, op, rest) / 0x2000_0000 == tipo
    ensures BuildWord(tipo, op, rest) / 0x100_0000 % 32 == op
  {
    Split24(tipo * 32 + op, rest);
  }

  lemma RegisterFields(tipo: nat, op: nat, a: nat, b: nat, low: nat)
    requires tipo < 8 && op < 32 && a < 16 && b < 16 && low < 0x1_0000
    ensures BuildWord(tipo, op, Operands(a, b, low)) / 0x10_0000 % 16 == a
    ensures BuildWord(tipo, op, Operands(a, b, low)) / 0x1_0000 % 16 == b
    ensures BuildWord(tipo, op, Operands(a, b, low)) % 0x1_0000 == low
  {
    WordHalves(tipo, op, a, b, low);
    Split16(tipo * 0x2000 + op * 0x100 + a * 0x10 + b, low);
    Split20(tipo * 0x200 + op * 0x10 + a, b * 0x1_0000 + low);
    LowDigit(tipo * 0x200 + op * 0x10 + a, b);
    LowDigit(tipo * 0x20 + op, a);
  }

  lemma WordFields(tipo: nat, op: nat, a: nat, b: nat, low: nat)
    requires tipo < 8 && op < 32 && a < 16 && b < 16 && low < 0x1_0000
    ensures var w := BuildWord(tipo, op, Operands(a, b, low));
      && w / 0x2000_0000 == tipo && w / 0x100_0000 % 32 == op
      && w / 0x10_0000 % 16 == a && w / 0x1_0000 % 16 == b && w % 0x1_0000 == low
  {
    TopFields(tipo, op, Operands(a, b, low));
    RegisterFields(tipo, op, a, b, low);
  }

  lemma LowDigit(q: nat, r: nat)
    requires r < 16
    ensures (q * 0x10 + r) % 16 == r
  {
  }

  lemma Split24(q: nat, r: nat)
    requires r < 0x100_0000
    ensures (q * 0x100_0000 + r) / 0x100_0000 == q
  {
  }

  lemma Split20(q: nat, r: nat)
    requires r < 0x10_0000
    ensures (q * 0x10_0000 + r) / 0x10_0000 == q
  {
  }

  lemma Split16(q: nat, r: nat)
    requires r < 0x1_0000
    ensures (q * 0x1_0000 + r) / 0x1_0000 == q && (q * 0x1_0000 + r) % 0x1_0000 == r
  {
  }

  lemma MnemonicRoundTrip(m: Mnemonic)
    ensures MnemonicOf(Opcode(m)) == Some(m)
  {
  }

  /** Encoding succeeds exactly on the grammar, and decoding the word gives back the instruction. */
  ghost predicate RoundTrips(s: Source, labels: Labels) {
    match EncodeSingle(s, labels)
    case Some(w) => Meaning(s, labels).Some? && Decode(w) == Meaning(s, labels)
    case None => Meaning(s, labels).None?
  }

  lemma DecodeAlu(w: u32, m: Mnemonic, a: nat, b: nat, c: nat)
    requires IsAlu(m) && w / 0x100_0000 % 32 == Opcode(m)
    requires w / 0x10_0000 % 16 == a && w / 0x1_0000 % 16 == b && w % 0x1_0000 == c * 0x1000
    ensures Decode(w) == Some(Alu(m, w / 0x2000_0000 == 4, a, b, c))
  {
    MnemonicRoundTrip(m);
  }

  lemma AluRoundTrips(s: Source, labels: Labels)
    requires IsAlu(s.mnemonic)
    ensures RoundTrips(s, labels)
  {
    var m := s.mnemonic;
    if EncodeSingle(s, labels).Some? {
      var tipo, c := PrefixFields(s.prefix).0, s.args[2].r;
      var w := EncodeSingle(s, labels).value;
      assert w == BuildWord(tipo, Opcode(m), Operands(s.args[0].r, s.args[1].r, c * 0x1000));
      WordFields(tipo, Opcode(m), s.args[0].r, s.args[1].r, c * 0x1000);
      DecodeAlu(w, m, s.args[0].r, s.args[1].r, c);
    }
  }

  /** The assembler's operand is what the operand stands for. */
  lemma OperandResolves(a: Arg, labels: Labels, kind: Option<Half>, signed: bool)
    ensures Resolve(a, labels, kind, signed) == Immediate(a, labels, kind != Some(Low), signed)
  {
    match a
    case Hi(e) => if e.name in labels { HalvesOf(labels[e.name] + e.offset); }
    case Lo(e) => if e.name in labels { HalvesOf(labels[e.name] + e.offset); }
    case Sym(e) => if e.name in labels { HalvesOf(labels[e.name] + e.offset); }
    case _ =>
  }

  lemma ImmediateRoundTrips(s: Source, labels: Labels)
    requires s.mnemonic.LDI? || s.mnemonic.ADI?
    ensures RoundTrips(s, labels)
  {
    if |s.args| == 2 {
      OperandResolves(s.args[1], labels, None, s.mnemonic.ADI?);
      OperandResolves(s.args[1], labels, Some(High), s.mnemonic.ADI?);
      OperandResolves(s.args[1], labels, Some(Low), s.mnemonic.ADI?);
      var imm := Immediate(s.args[1], labels, !s.prefix.SLT?, s.mnemonic.ADI?);
      if imm.Some? && IsReg(s.args[0]) {
        DecodeImmediate(s.mnemonic, PrefixFields(s.prefix).0, s.args[0].r, imm.value);
      }
    }
  }

  lemma DecodeImmediate(m: Mnemonic, tipo: nat, a: nat, imm: nat)
    requires (m.LDI? || m.ADI?) && tipo < 8 && a < 16 && imm < 0x1_0000
    ensures Decode(BuildWord(tipo, Opcode(m), Operands(a, 0, imm))) ==
      Some(if m.LDI? then LoadImm(tipo == 4, a, imm) else AddImm(tipo == 4, a, imm))
  {
    WordFields(tipo, Opcode(m), a, 0, imm);
  }

  /** `LDI R1, 5`. */
  lemma SmallImmediate(labels: Labels)
    ensures EncodeSingle(Source(NoPrefix, LDI, [Reg(1), Num(5)]), labels) == Some(0x0C10_0005)
  {
  }

  lemma MemoryRoundTrips(s: Source, labels: Labels)
    requires s.mnemonic.LOD? || s.mnemonic.STR?
    ensures RoundTrips(s, labels)
  {
    if EncodeSingle(s, labels).Some? {
      var tipo, low := PrefixFields(s.prefix).0, ParseImmediate(s.args[2], true).value;
      SignedImmediate(s.args[2]);
      DecodeMemory(s.mnemonic, tipo, s.args[0].r, s.args[1].r, low);
    }
  }

  lemma DecodeMemory(m: Mnemonic, tipo: nat, a: nat, b: nat, low: nat)
    requires (m.LOD? || m.STR?) && tipo < 3 && a < 16 && b < 16 && low < 0x1_0000
    ensures var size := SizeOf(tipo).value;
      Decode(BuildWord(tipo, Opcode(m), Operands(a, b, low))) == Some(if m.LOD? then Load(size, a, b, low) else Store(size, a, b, low))
  {
    WordFields(tipo, Opcode(m), a, b, low);
  }

  lemma SignedImmediate(arg: Arg)
    ensures ParseImmediate(arg, true) == if IsOffset(arg) then Some(arg.v % 0x1_0000) else None
  {
  }

  lemma OneRegRoundTrips(s: Source, labels: Labels)
    requires s.mnemonic.GOF? || s.mnemonic.JMP? || s.mnemonic.CAL?
    ensures RoundTrips(s, labels)
  {
    if EncodeSingle(s, labels).Some? {
      var r := s.args[0].r;
      if s.mnemonic.GOF? {
        WordFields(0, 11, r, 0, 0);
      } else {
        WordFields(0, Opcode(s.mnemonic), 0, r, 0);
      }
    }
  }

  lemma BareRoundTrips(s: Source, labels: Labels)
    requires IsBare(s.mnemonic)
    ensures RoundTrips(s, labels)
  {
    TopFields(0, Opcode(s.mnemonic), 0);
    DecodeBare(BuildWord(0, Opcode(s.mnemonic), 0), s.mnemonic);
    assert PrefixAllowed(s.prefix, s.mnemonic) <==> s.prefix.NoPrefix?;
  }

  lemma DecodeBare(w: u32, m: Mnemonic)
    requires IsBare(m) && w / 0x100_0000 % 32 == Opcode(m)
    ensures Decode(w) == Some(Bare(m))
  {
    MnemonicRoundTrip(m);
  }

  lemma OtherRoundTrips(s: Source, labels: Labels)
    requires s.mnemonic.BRH? || s.mnemonic.CYE? || s.mnemonic.CYR?
    ensures RoundTrips(s, labels)
  {
    if s.mnemonic.BRH? && |s.args| == 2 && s.args[0].Cond? { CondCodeIs(s.args[0].name); }
    if EncodeSingle(s, labels).Some? {
      WordFields(0, Opcode(s.mnemonic), if s.mnemonic.BRH? then CondCode(s.args[0].name).value else s.args[0].r, s.args[1].r, 0);
    }
  }

  lemma DecodeEncode(s: Source, labels: Labels)
    ensures RoundTrips(s, labels)
  {
    if IsBare(s.mnemonic) {
      BareRoundTrips(s, labels);
    } else if IsAlu(s.mnemonic) {
      AluRoundTrips(s, labels);
    } else if s.mnemonic.LDI? || s.mnemonic.ADI? {
      ImmediateRoundTrips(s, labels);
    } else if s.mnemonic.LOD? || s.mnemonic.STR? {
      MemoryRoundTrips(s, labels);
    } else if s.mnemonic.GOF? || s.mnemonic.JMP? || s.mnemonic.CAL? {
      OneRegRoundTrips(s, labels);
    } else {
      OtherRoundTrips(s, labels);
    }
  }

  /** Instructions of different meaning never share a word. */
  lemma EncodingInjective(s: Source, s': Source, labels: Labels)
    requires EncodeSingle(s, labels).Some? && EncodeSingle(s, labels) == EncodeSingle(s', labels)
    ensures Meaning(s, labels) == Meaning(s', labels)
  {
    DecodeEncode(s, labels);
    DecodeEncode(s', labels);
  }
}
