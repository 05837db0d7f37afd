/** Number formatting: digits are written backwards from the end of a slot, and the eight slots take turns. */
module Format {
  import opened Machine

  const SLOTS: nat := 8
  const SLOT_SIZE: nat := 32
  const MINUS: byte := 45

  const FMT_INT: int := 0
  const FMT_HEX: int := 2
  const FMT_HEX_FULL: int := 3

  // ---------------------------------------------------------------------------
  // Reading a number back
  // ---------------------------------------------------------------------------

  function DigitChar(d: nat): (c: byte)
    requires d < 16
    ensures c != 0 && c != MINUS && DigitOf(c) == d
  {
    if d < 10 then 48 + d else 55 + d
  }

  function DigitOf(c: byte): nat {
    if 48 <= c <= 57 then c - 48 else if 65 <= c <= 70 then c - 55 else 0
  }

  function Value(text: seq<byte>, radix: nat): nat {
    if text == [] then 0 else Value(Front(text), radix) * radix + DigitOf(Last(text))
  }

  /** What a reader makes of a string printed in a format; every format but these three is the unsigned one. */
  function Parse(text: seq<byte>, fmt: int): (v: int) {
    if fmt == FMT_HEX || fmt == FMT_HEX_FULL then Value(text, 16)
    else if fmt == FMT_INT && text != [] && text[0] == MINUS then 0 - Value(text[1..], 10)
    else Value(text, 10)
  }

  /** The number a word stands for: two's complement in the signed format. */
  function Meant(num: u32, fmt: int): int {
    if fmt == FMT_INT && num >= 0x8000_0000 then num - WORD else num
  }

  // ---------------------------------------------------------------------------
  // The text of a number
  // ---------------------------------------------------------------------------

  /** The digits of a number, none for 0. */
  function Digits(n: nat, radix: nat): (text: seq<byte>)
    requires radix == 10 || radix == 16
    ensures n > 0 ==> text != []
    ensures forall i :: 0 <= i < |text| ==> text[i] != 0 && text[i] != MINUS
  {
    if n == 0 then [] else Digits(n / radix, radix) + [DigitChar(n % radix)]
  }

  /** The lowest `k` hexadecimal digits, leading zeros included. */
  function Nibbles(n: nat, k: nat): (text: seq<byte>)
    ensures |text| == k
    ensures forall i :: 0 <= i < |text| ==> text[i] != 0
  {
    if k == 0 then [] else Nibbles(n / 16, k - 1) + [DigitChar(n % 16)]
  }

  function DigitsOrZero(n: nat, radix: nat): (text: seq<byte>)
    requires radix == 10 || radix == 16
    ensures text != [] && forall i :: 0 <= i < |text| ==> text[i] != 0 && text[i] != MINUS
  {
    if n == 0 then [48] else Digits(n, radix)
  }

  function Printed(num: u32, fmt: int): (text: seq<byte>) {
    if fmt == FMT_HEX_FULL then Nibbles(num, 8)
    else if fmt == FMT_HEX then DigitsOrZero(num, 16)
    else if fmt == FMT_INT && num >= 0x8000_0000 then [MINUS] + DigitsOrZero(WORD - num, 10)
    else DigitsOrZero(num, 10)
  }

  lemma OneDigit(n: nat, radix: nat)
    requires radix == 10 || radix == 16
    ensures n / radix * radix + n % radix == n && n % radix < 16
  {
  }

  lemma {:induction false} ValueOfDigits(n: nat, radix: nat)
    requires radix == 10 || radix == 16
    ensures Value(Digits(n, radix), radix) == n
  {
    if n > 0 {
      ValueOfDigits(n / radix, radix);
      assert Front(Digits(n, radix)) == Digits(n / radix, radix);
      OneDigit(n, radix);
    }
  }

  lemma {:induction false} ValueOfNibbles(n: nat, k: nat)
    requires n < Power(16, k)
    ensures Value(Nibbles(n, k), 16) == n
  {
    if k > 0 {
      ValueOfNibbles(n / 16, k - 1);
      assert Front(Nibbles(n, k)) == Nibbles(n / 16, k - 1);
    }
  }

  function Power(b: nat, k: nat): nat { if k == 0 then 1 else b * Power(b, k - 1) }

  /** A number below the `k`-th power has at most `k` digits. */
  lemma {:induction false} DigitsFit(n: nat, radix: nat, k: nat)
    requires radix == 10 || radix == 16
    requires n < Power(radix, k)
    ensures |Digits(n, radix)| <= k
  {
    if n > 0 && k > 0 { DigitsFit(n / radix, radix, k - 1); }
  }

  lemma Shrinks(n: nat, radix: nat)
    requires n > 0 && (radix == 10 || radix == 16)
    ensures 0 <= n / radix < n
  {
  }

  /** Only 0 is printed with a leading zero. */
  lemma {:induction false} NoLeadingZero(n: nat, radix: nat)
    requires radix == 10 || radix == 16
    ensures DigitsOrZero(n, radix)[0] == 48 <==> n == 0
  {
    if n / radix > 0 { NoLeadingZero(n / radix, radix); }
  }

  /** Parsing what was printed gives the number back, for every word and every format. */
  lemma ParsePrinted(num: u32, fmt: int)
    ensures Parse(Printed(num, fmt), fmt) == Meant(num, fmt)
  {
    if fmt == FMT_HEX_FULL {
      assert Power(16, 8) == WORD;
      ValueOfNibbles(num, 8);
    } else if fmt == FMT_HEX {
      ValueOfDigitsOrZero(num, 16);
    } else if fmt == FMT_INT && num >= 0x8000_0000 {
      ValueOfDigitsOrZero(WORD - num, 10);
      assert Printed(num, fmt)[1..] == DigitsOrZero(WORD - num, 10);
    } else {
      ValueOfDigitsOrZero(num, 10);
    }
  }

  lemma ValueOfDigitsOrZero(n: nat, radix: nat)
    requires radix == 10 || radix == 16
    ensures Value(DigitsOrZero(n, radix), radix) == n
  {
    ValueOfDigits(n, radix);
    assert Front([48 as byte]) == [];
  }

  predicate AreDigits(text: seq<byte>, radix: nat) {
    forall i :: 0 <= i < |text| ==> ('0' <= text[i] as char <= '9' || (radix == 16 && 'A' <= text[i] as char <= 'F'))
  }

  lemma {:induction false} DigitsAreDigits(n: nat, radix: nat)
    requires radix == 10 || radix == 16
    ensures AreDigits(Digits(n, radix), radix)
  {
    if n > 0 { DigitsAreDigits(n / radix, radix); }
  }

  lemma {:induction false} NibblesAreDigits(n: nat, k: nat)
    ensures AreDigits(Nibbles(n, k), 16)
  {
    if k > 0 { NibblesAreDigits(n / 16, k - 1); }
  }

  /** The full hexadecimal format has eight digits; every other has no leading zero, and a minus sign only in front of a
      negative number in the signed format. */
  lemma PrintedShape(num: u32, fmt: int)
    ensures var text := Printed(num, fmt);
      if fmt == 3 then |text| == 8 && AreDigits(text, 16)
      else
        var sign := if fmt == 0 && num >= 0x8000_0000 then 1 else 0;
        && |text| > sign && AreDigits(text[sign..], if fmt == 2 then 16 else 10)
        && (sign == 1 ==> text[0] as char == '-') && (text[sign] as char == '0' <==> num == 0)
  {
    NibblesAreDigits(num, 8);
    DigitsAreDigits(num, 10);
    DigitsAreDigits(num, 16);
    DigitsAreDigits(WORD - num, 10);
    NoLeadingZero(num, 10);
    NoLeadingZero(num, 16);
    NoLeadingZero(WORD - num, 10);
    if fmt == FMT_INT && num >= 0x8000_0000 {
      assert Printed(num, fmt)[1..] == DigitsOrZero(WORD - num, 10);
    }
  }

  /** So no two words are printed alike. */
  lemma PrintedInjective(a: u32, b: u32, fmt: int)
    ensures Printed(a, fmt) == Printed(b, fmt) <==> a == b
  {
    ParsePrinted(a, fmt);
    ParsePrinted(b, fmt);
  }

  /** Eleven characters are enough, so the slot is never left. */
  lemma PrintedFits(num: u32, fmt: int)
    ensures 0 < |Printed(num, fmt)| <= 11 < SLOT_SIZE
    ensures forall i :: 0 <= i < |Printed(num, fmt)| ==> Printed(num, fmt)[i] != 0
  {
    assert Power(10, 10) == 10_000_000_000;
    assert Power(16, 8) == WORD;
    DigitsFit(num, 10, 10);
    DigitsFit(num, 16, 8);
    DigitsFit(WORD - num, 10, 10);
  }

  // ---------------------------------------------------------------------------
  // Branchless negation
  // ---------------------------------------------------------------------------

  /** Subtraction in a word. */
  function Minus(a: u32, b: u32): u32 { (a - b) % WORD }

  /** Exclusive or of the lowest `k` bits. */
  function Xor(a: nat, b: nat, k: nat): nat {
    if k == 0 then 0 else 2 * Xor(a / 2, b / 2, k - 1) + (if a % 2 == b % 2 then 0 else 1)
  }

  lemma {:induction false} XorBound(a: nat, b: nat, k: nat)
    ensures Xor(a, b, k) < Pow2(k)
  {
    if k > 0 { XorBound(a / 2, b / 2, k - 1); }
  }

  lemma {:induction false} XorZero(a: nat, k: nat)
    requires a < Pow2(k)
    ensures Xor(a, 0, k) == a
  {
    if k > 0 { XorZero(a / 2, k - 1); }
  }

  /** Against all ones it is the complement. */
  lemma {:induction false} XorOnes(a: nat, k: nat)
    requires a < Pow2(k)
    ensures Xor(a, Pow2(k) - 1, k) == Pow2(k) - 1 - a
  {
    if k > 0 {
      assert (Pow2(k) - 1) / 2 == Pow2(k - 1) - 1;
      XorOnes(a / 2, k - 1);
    }
  }

  lemma WordIsPow2()
    ensures Pow2(32) == WORD
  {
    assert Pow2(8) == 256;
    assert Pow2(16) == 65536;
    assert Pow2(24) == 0x100_0000;
  }

  lemma XorWord(num: u32)
    ensures Xor(num, 0, 32) == num && Xor(num, WORD - 1, 32) == WORD - 1 - num
  {
    WordIsPow2();
    XorZero(num, 32);
    XorOnes(num, 32);
  }

  /** All ones when the sign bit is set. */
  function SignMask(num: u32): (mask: u32)
    ensures mask == if num >= 0x8000_0000 then WORD - 1 else 0
  {
    Minus(0, num / 0x8000_0000)
  }

  /** The exclusive or of two words. */
  function Xor32(a: u32, b: u32): u32 {
    WordIsPow2();
    XorBound(a, b, 32);
    Xor(a, b, 32)
  }

  /** The branchless negation gives the distance from 0, 2^31 for the most negative number. */
  lemma NegationExact(num: u32)
    ensures Minus(Xor32(num, SignMask(num)), SignMask(num)) == if num < 0x8000_0000 then num else WORD - num
  {
    XorWord(num);
  }

  // ---------------------------------------------------------------------------
  // The formatter
  // ---------------------------------------------------------------------------

  /** `text`, with no NUL in it, stands from `p` and is followed by a NUL. */
  ghost predicate HoldsString(pool: seq<byte>, p: nat, text: seq<byte>) {
    && p + |text| < |pool| && pool[p..p + |text|] == text && pool[p + |text|] == 0
    && forall i :: 0 <= i < |text| ==> text[i] != 0
  }

  /** A result given out: where it stands and what it says. */
  datatype Issue = Issue(at: nat, text: seq<byte>)

  predicate InSlot(j: nat, slot: nat) { slot * SLOT_SIZE <= j < slot * SLOT_SIZE + SLOT_SIZE }

  /** The result lies in a slot, with its NUL. */
  ghost predicate Stands(pool: seq<byte>, r: Issue, slot: nat) {
    && InSlot(r.at, slot) && InSlot(r.at + |r.text|, slot)
    && HoldsString(pool, r.at, r.text)
  }

  /** It still stands when nothing in its slot changed. */
  lemma StillStands(before: seq<byte>, after: seq<byte>, r: Issue, slot: nat)
    requires Stands(before, r, slot) && |before| == |after|
    requires forall j :: 0 <= j < |before| && InSlot(j, slot) ==> after[j] == before[j]
    ensures Stands(after, r, slot)
  {
    assert after[r.at..r.at + |r.text|] == before[r.at..r.at + |r.text|];
  }

  /** The last eight results stand, each in the slot of its turn. */
  ghost predicate AllStand(pool: seq<byte>, issued: seq<Issue>) {
    forall k :: 0 <= k < |issued| && |issued| - SLOTS <= k ==> Stands(pool, issued[k], k % SLOTS)
  }

  lemma OneMoreStands(before: seq<byte>, after: seq<byte>, issued: seq<Issue>, r: Issue)
    requires AllStand(before, issued) && |before| == |after| && Stands(after, r, |issued| % SLOTS)
    requires forall j :: 0 <= j < |before| && !InSlot(j, |issued| % SLOTS) ==> after[j] == before[j]
    ensures AllStand(after, issued + [r])
  {
    var n := |issued|;
    forall k | 0 <= k < n && n + 1 - SLOTS <= k
      ensures Stands(after, issued[k], k % SLOTS)
    {
      assert k % SLOTS != n % SLOTS;
      StillStands(before, after, issued[k], k % SLOTS);
    }
  }

  class Formatter {
    const pool: array<byte>
    var index: nat
    ghost var issued: seq<Issue>

    /** Each of the last eight results still stands unchanged in its slot. */
    ghost predicate Valid()
      reads this, pool
    {
      && pool.Length == SLOTS * SLOT_SIZE && index == |issued| % SLOTS
      && AllStand(pool[..], issued)
    }

    constructor ()
      ensures Valid() && fresh(pool) && issued == []
    {
      pool := new byte[SLOTS * SLOT_SIZE](_ => 0);
      index, issued := 0, [];
    }

    /** The hexadecimal loop over all eight digits. */
    method WriteNibbles(num: u32, end: nat) returns (p: nat)
      requires 8 <= end < pool.Length
      modifies pool
      ensures p == end - 8 && pool[p..end] == Nibbles(num, 8)
      ensures forall j :: 0 <= j < pool.Length && !(p <= j < end) ==> pool[j] == old(pool[j])
    {
      p := end;
      var rest: u32 := num;
      for i := 0 to 8
        invariant p == end - i && Nibbles(num, 8) == Nibbles(rest, 8 - i) + pool[p..end]
        invariant forall j :: 0 <= j < pool.Length && !(p <= j < end) ==> pool[j] == old(pool[j])
      {
        ghost var done := pool[p..end];
        p := p - 1;
        pool[p] := DigitChar(rest % 16);
        assert pool[p..end] == [DigitChar(rest % 16)] + done;
        rest := rest / 16;
      }
    }

    /** The loops that stop at the leading digit, with the single 0 when there is none. */
    method WriteDigits(num: u32, radix: nat, end: nat) returns (p: nat)
      requires radix == 10 || radix == 16
      requires 0 < end < pool.Length && |DigitsOrZero(num, radix)| <= end
      modifies pool
      ensures p == end - |DigitsOrZero(num, radix)| && pool[p..end] == DigitsOrZero(num, radix)
      ensures forall j :: 0 <= j < pool.Length && !(p <= j < end) ==> pool[j] == old(pool[j])
    {
      p := end;
      if num == 0 {
        p := p - 1;
        pool[p] := 48;
        assert pool[p..end] == [48];
      } else {
        var rest: u32 := num;
        while rest > 0
          invariant 0 <= p <= end && |Digits(num, radix)| == |Digits(rest, radix)| + end - p
          invariant Digits(num, radix) == Digits(rest, radix) + pool[p..end]
          invariant forall j :: 0 <= j < pool.Length && !(p <= j < end) ==> pool[j] == old(pool[j])
        {
          ghost var done := pool[p..end];
          p := p - 1;
          pool[p] := DigitChar(rest % radix);
          assert pool[p..end] == [DigitChar(rest % radix)] + done;
          Shrinks(rest, radix);
          rest := rest / radix;
        }
      }
    }

    /** The three formats, and the sign, written before `end`. */
    method WriteNumber(num: u32, fmt: int, end: nat) returns (p: nat)
      requires 11 <= end < pool.Length
      modifies pool
      ensures p == end - |Printed(num, fmt)| && pool[p..end] == Printed(num, fmt)
      ensures forall j :: 0 <= j < pool.Length && !(p <= j < end) ==> pool[j] == old(pool[j])
    {
      PrintedFits(num, fmt);
      if fmt == FMT_HEX_FULL {
        p := WriteNibbles(num, end);
      } else if fmt == FMT_HEX {
        p := WriteDigits(num, 16, end);
      } else {
        var mask: u32, value: u32 := 0, num;
        if fmt == FMT_INT {
          NegationExact(num);
          mask := SignMask(num);
          value := Minus(Xor32(num, mask), mask);
        }
        p := WriteDigits(value, 10, end);
        if mask != 0 {
          ghost var digits := pool[p..end];
          p := p - 1;
          pool[p] := MINUS;
          assert pool[p..end] == [MINUS] + digits;
        }
      }
    }

    /** Print in the next slot: nothing outside it changes, and the seven results before stay. */
    method ToAscii(num: u32, fmt: int) returns (p: nat)
      requires Valid()
      modifies this, pool
      ensures Valid() && issued == old(issued) + [Issue(p, Printed(num, fmt))]
      ensures HoldsString(pool[..], p, Printed(num, fmt)) && InSlot(p, old(index)) && index == (old(index) + 1) % SLOTS
      ensures forall j :: 0 <= j < pool.Length && !InSlot(j, old(index)) ==> pool[j] == old(pool[j])
    {
      var base := index * SLOT_SIZE;
      index := (index + 1) % SLOTS;
      pool[base + SLOT_SIZE - 1] := 0;
      PrintedFits(num, fmt);
      p := WriteNumber(num, fmt, base + SLOT_SIZE - 1);
      assert Stands(pool[..], Issue(p, Printed(num, fmt)), old(index));
      OneMoreStands(old(pool[..]), pool[..], issued, Issue(p, Printed(num, fmt)));
      issued := issued + [Issue(p, Printed(num, fmt))];
    }
  }
}
