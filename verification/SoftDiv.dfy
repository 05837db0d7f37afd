/** The software division routines: restoring division in 32-bit words, one quotient bit at a time. */
module SoftDiv {
  import opened Machine

  /** The word shifted right by `i`: its upper bits. */
  function Upper(n: nat, i: nat): nat { if i == 0 then n else Upper(n / 2, i - 1) }

  /** The word shifted left by `i`. */
  function Lower(u: nat, i: nat): nat
    decreases i
  {
    if i == 0 then u else Lower(2 * u, i - 1)
  }

  /** Bit `i`. */
  function Bit(n: nat, i: nat): (b: nat)
    ensures b < 2
  {
    Upper(n, i) % 2
  }

  /** A left shift by one in a word, the freed bit set to `b`. */
  function ShiftIn(r: u32, b: nat): u32
    requires b < 2
  {
    (2 * r) % WORD + b
  }

  /** The word with bit `i` set: nothing is added when it was set before. */
  function SetBit(q: nat, i: nat): nat { if Bit(q, i) == 1 then q else q + Lower(1, i) }

  predicate IsQuotient(n: nat, d: nat, q: nat) { q * d <= n < q * d + d }

  ghost predicate IsRemainder(n: nat, d: nat, r: nat) { exists q: nat :: IsDivision(n, d, q, r) }

  /** What the two routines return belongs to one division. */
  lemma RoutinesAgree(n: nat, d: nat, q: nat, r: nat)
    requires IsQuotient(n, d, q) && IsRemainder(n, d, r)
    ensures IsDivision(n, d, q, r)
  {
    var q' :| IsDivision(n, d, q', r);
    DivisionIsUnique(n, d, q, n - q * d, q', r);
  }

  /** One bit lower, the upper bits double and take that bit in. */
  lemma {:induction false} UpperStep(n: nat, i: nat)
    ensures Upper(n, i) == 2 * Upper(n, i + 1) + Bit(n, i)
  {
    if i > 0 { UpperStep(n / 2, i - 1); }
  }

  lemma {:induction false} NothingAbove(n: nat, i: nat)
    requires n < Pow2(i)
    ensures Upper(n, i) == 0
  {
    if i > 0 { NothingAbove(n / 2, i - 1); }
  }

  lemma {:induction false} LowerZero(i: nat)
    ensures Lower(0, i) == 0
  {
    if i > 0 { LowerZero(i - 1); }
  }

  lemma WordEmptied(n: u32)
    ensures Upper(n, 32) == 0 && Lower(0, 32) == 0
  {
    assert Pow2(8) == 256;
    assert Pow2(16) == 65536;
    assert Pow2(24) == 0x100_0000;
    NothingAbove(n, 32);
    LowerZero(32);
  }

  /** A shift right undoes a shift left. */
  lemma {:induction false} ShiftsCancel(u: nat, i: nat)
    ensures Upper(Lower(u, i), i) == u
    decreases i
  {
    if i > 0 {
      ShiftsCancel(2 * u, i - 1);
      UpperStep(Lower(u, i), i - 1);
    }
  }

  lemma {:induction false} LowerAdds(u: nat, v: nat, i: nat)
    ensures Lower(u, i) + Lower(v, i) == Lower(u + v, i)
    decreases i
  {
    if i > 0 { LowerAdds(2 * u, 2 * v, i - 1); }
  }

  /** Setting the bit below a number shifted left makes the number above odd. */
  lemma SetLowest(u: nat, i: nat)
    ensures Lower(u, i + 1) == Lower(2 * u, i) && SetBit(Lower(u, i + 1), i) == Lower(2 * u + 1, i)
  {
    ShiftsCancel(2 * u, i);
    LowerAdds(2 * u, 1, i);
  }

  lemma QuotientFits(n: u32, d: nat, q: nat, r: nat)
    requires IsDivision(n, d, q, r)
    ensures q <= n
  {
    assert q * d == q * (d - 1) + q;
  }

  lemma {:induction false} UpperBelow(n: nat, i: nat)
    ensures Upper(n, i) <= n
  {
    if i > 0 { UpperBelow(n / 2, i - 1); }
  }

  /** The upper bits never fall below the remainder, so the shift loses nothing however large the divisor. */
  lemma ShiftFits(n: u32, d: nat, i: nat, u: nat, r: u32)
    requires IsDivision(Upper(n, i + 1), d, u, r)
    ensures ShiftIn(r, Bit(n, i)) == 2 * r + Bit(n, i) <= Upper(n, i) <= n
  {
    UpperStep(n, i);
    assert u * d >= 0;
    UpperBelow(n, i);
  }

  /** One turn: a subtraction exactly when the next quotient bit is 1. */
  lemma StepDivides(n: u32, d: nat, i: nat, u: nat, r: u32)
    requires IsDivision(Upper(n, i + 1), d, u, r)
    ensures var s := ShiftIn(r, Bit(n, i));
            if s >= d then IsDivision(Upper(n, i), d, 2 * u + 1, s - d) else IsDivision(Upper(n, i), d, 2 * u, s)
  {
    UpperStep(n, i);
    ShiftFits(n, d, i, u, r);
    assert (2 * u) * d == 2 * (u * d) && (2 * u + 1) * d == 2 * (u * d) + d;
  }

  /** The quotient, 0 for a zero divisor. */
  method Udivsi3(n: u32, d: u32) returns (q: u32)
    ensures if d == 0 then q == 0 else IsQuotient(n, d, q)
  {
    if d == 0 {
      return 0;
    }
    var quotient: nat, rest: u32 := 0, 0;
    ghost var u: nat := 0;
    WordEmptied(n);
    for i := 32 downto 0
      invariant IsDivision(Upper(n, i), d, u, rest) && quotient == Lower(u, i)
    {
      StepDivides(n, d, i, u, rest);
      SetLowest(u, i);
      rest := ShiftIn(rest, Bit(n, i));
      u := 2 * u;
      if rest >= d {
        rest := rest - d;
        quotient := SetBit(quotient, i);
        u := u + 1;
      }
    }
    QuotientFits(n, d, u, rest);
    return quotient;
  }

  /** The remainder, 0 for a zero divisor. */
  method Umodsi3(n: u32, d: u32) returns (r: u32)
    ensures if d == 0 then r == 0 else IsRemainder(n, d, r)
  {
    r := 0;
    ghost var q: nat := 0;
    if d == 0 {
      return;
    }
    WordEmptied(n);
    for i := 32 downto 0
      invariant IsDivision(Upper(n, i), d, q, r)
    {
      StepDivides(n, d, i, q, r);
      r := ShiftIn(r, Bit(n, i));
      q := 2 * q;
      if r >= d {
        r := r - d;
        q := q + 1;
      }
    }
  }
}
