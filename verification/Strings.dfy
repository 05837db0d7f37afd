/** The string routines that scan a word at a time. Memory is a byte at every address. */
module Strings {
  type Memory = nat -> bv8

  /** Four bytes as a word, low byte first. */
  function Pack(b0: bv8, b1: bv8, b2: bv8, b3: bv8): bv32 {
    (b0 as bv32) | ((b1 as bv32) << 8) | ((b2 as bv32) << 16) | ((b3 as bv32) << 24)
  }

  /** The word at any address. */
  function WordAt(mem: Memory, a: nat): bv32 { Pack(mem(a), mem(a + 1), mem(a + 2), mem(a + 3)) }

  /** The test both routines use: not 0 when the word has a zero byte. */
  function ZeroByteTest(v: bv32): bv32 { (v - 0x0101_0101) & !v & 0x8080_8080 }

  /** The test is exact, although the borrow of the subtraction runs from byte to byte. */
  lemma ZeroByteExact(b0: bv8, b1: bv8, b2: bv8, b3: bv8)
    ensures ZeroByteTest(Pack(b0, b1, b2, b3)) != 0 <==> b0 == 0 || b1 == 0 || b2 == 0 || b3 == 0
  {
  }

  lemma DifferenceExact(a0: bv8, a1: bv8, a2: bv8, a3: bv8, b0: bv8, b1: bv8, b2: bv8, b3: bv8)
    ensures Pack(a0, a1, a2, a3) ^ Pack(b0, b1, b2, b3) == 0 <==> a0 == b0 && a1 == b1 && a2 == b2 && a3 == b3
  {
  }

  /** Character `k` of what starts at `s`. */
  function Char(mem: Memory, s: nat, k: nat): bv8 { mem(s + k) }

  /** The test on the word `n` characters into the string at `s` tells whether one of its four characters is NUL. */
  method HasZero(mem: Memory, s: nat, n: nat) returns (r: bool)
    ensures r <==> Char(mem, s, n) == 0 || Char(mem, s, n + 1) == 0 || Char(mem, s, n + 2) == 0 || Char(mem, s, n + 3) == 0
  {
    var w := s + n;
    ZeroByteExact(mem(w), mem(w + 1), mem(w + 2), mem(w + 3));
    assert s + (n + 1) == w + 1 && s + (n + 2) == w + 2 && s + (n + 3) == w + 3;
    r := ZeroByteTest(WordAt(mem, w)) != 0;
  }

  /** Exclusive or of two packed words. */
  function WordDifference(a0: bv8, a1: bv8, a2: bv8, a3: bv8, b0: bv8, b1: bv8, b2: bv8, b3: bv8): (differ: bool)
    ensures !differ <==> a0 == b0 && a1 == b1 && a2 == b2 && a3 == b3
  {
    DifferenceExact(a0, a1, a2, a3, b0, b1, b2, b3);
    Pack(a0, a1, a2, a3) ^ Pack(b0, b1, b2, b3) != 0
  }

  /** Exclusive or tells whether the words `n` characters into the strings at `s` and `t` differ. */
  method Differ(mem: Memory, s: nat, t: nat, n: nat) returns (r: bool)
    ensures !r <==> Char(mem, s, n) == Char(mem, t, n) && Char(mem, s, n + 1) == Char(mem, t, n + 1)
                    && Char(mem, s, n + 2) == Char(mem, t, n + 2) && Char(mem, s, n + 3) == Char(mem, t, n + 3)
  {
    r := WordDifference(Char(mem, s, n), Char(mem, s, n + 1), Char(mem, s, n + 2), Char(mem, s, n + 3),
                        Char(mem, t, n), Char(mem, t, n + 1), Char(mem, t, n + 2), Char(mem, t, n + 3));
  }

  // ---------------------------------------------------------------------------
  // Byte-at-a-time definitions
  // ---------------------------------------------------------------------------

  ghost predicate Terminated(mem: Memory, s: nat) { exists k: nat :: Char(mem, s, k) == 0 }

  /** The string at `s` has `n` characters. */
  ghost predicate HasLength(mem: Memory, s: nat, n: nat) {
    Char(mem, s, n) == 0 && forall k: nat :: k < n ==> Char(mem, s, k) != 0
  }

  /** The first `n` characters at `s` and `t` are equal and not NUL. */
  ghost predicate SameUpTo(mem: Memory, s: nat, t: nat, n: nat) {
    forall k: nat :: k < n ==> Char(mem, s, k) == Char(mem, t, k) && Char(mem, s, k) != 0
  }

  predicate Stops(mem: Memory, s: nat, t: nat, n: nat) { Char(mem, s, n) != Char(mem, t, n) || Char(mem, s, n) == 0 }

  /** The strings at `s` and `t` first differ, or end together, after `n` equal characters. */
  ghost predicate StopsAt(mem: Memory, s: nat, t: nat, n: nat) { Stops(mem, s, t, n) && SameUpTo(mem, s, t, n) }

  /** For every alignment of `s`: bytes up to a word boundary, then words. */
  method Strlen(mem: Memory, s: nat) returns (n: nat)
    requires Terminated(mem, s)
    ensures HasLength(mem, s, n)
  {
    ghost var z: nat :| Char(mem, s, z) == 0;
    n := 0;
    while (s + n) % 4 != 0
      invariant n <= z && forall k: nat :: k < n ==> Char(mem, s, k) != 0
      decreases z - n
    {
      if Char(mem, s, n) == 0 {
        return;
      }
      n := n + 1;
    }
    while true
      invariant n <= z && forall k: nat :: k < n ==> Char(mem, s, k) != 0
      decreases z - n
    {
      var found := HasZero(mem, s, n);
      if found {
        if Char(mem, s, n) == 0 {
          return n;
        }
        if Char(mem, s, n + 1) == 0 {
          return n + 1;
        }
        if Char(mem, s, n + 2) == 0 {
          return n + 2;
        }
        return n + 3;
      }
      n := n + 4;
    }
  }

  /** Which of the four characters after the first `i` stops the comparison, when one does. */
  method StopInWord(mem: Memory, s1: nat, s2: nat, i: nat) returns (j: nat)
    requires SameUpTo(mem, s1, s2, i)
    requires Stops(mem, s1, s2, i) || Stops(mem, s1, s2, i + 1) || Stops(mem, s1, s2, i + 2) || Stops(mem, s1, s2, i + 3)
    ensures StopsAt(mem, s1, s2, i + j)
  {
    j := 0;
    while j < 4
      invariant j <= 4 && SameUpTo(mem, s1, s2, i + j)
    {
      if Char(mem, s1, i + j) != Char(mem, s2, i + j) || Char(mem, s1, i + j) == 0 {
        return;
      }
      j := j + 1;
    }
  }

  /** For every alignment of both strings: the difference of the first two characters that differ, or 0. */
  method Strcmp(mem: Memory, s1: nat, s2: nat) returns (r: int)
    requires Terminated(mem, s1)
    ensures exists n :: StopsAt(mem, s1, s2, n) && r == mem(s1 + n) as int - mem(s2 + n) as int
  {
    ghost var z: nat :| Char(mem, s1, z) == 0;
    var i: nat := 0;
    while (s1 + i) % 4 != 0
      invariant i <= z && SameUpTo(mem, s1, s2, i)
      decreases z - i
    {
      if Char(mem, s1, i) != Char(mem, s2, i) || Char(mem, s1, i) == 0 {
        assert StopsAt(mem, s1, s2, i);
        return Char(mem, s1, i) as int - Char(mem, s2, i) as int;
      }
      i := i + 1;
    }
    while true
      invariant i <= z && SameUpTo(mem, s1, s2, i)
      decreases z - i
    {
      var hasZero := HasZero(mem, s1, i);
      var diff := Differ(mem, s1, s2, i);
      if hasZero || diff {
        var j := StopInWord(mem, s1, s2, i);
        return Char(mem, s1, i + j) as int - Char(mem, s2, i + j) as int;
      }
      i := i + 4;
    }
  }

  /** The two strings have one length and the same characters. */
  ghost predicate SameString(mem: Memory, s: nat, t: nat, n: nat) {
    HasLength(mem, s, n) && HasLength(mem, t, n) && forall k: nat :: k < n ==> Char(mem, s, k) == Char(mem, t, k)
  }

  /** The string at `s` comes before the one at `t`: after equal characters a smaller one, read as unsigned, the NUL
      being the smallest. */
  ghost predicate Before(mem: Memory, s: nat, t: nat) {
    exists k: nat :: SameUpTo(mem, s, t, k) && mem(s + k) as int < mem(t + k) as int
  }

  ghost predicate After(mem: Memory, s: nat, t: nat) {
    exists k: nat :: SameUpTo(mem, s, t, k) && mem(s + k) as int > mem(t + k) as int
  }

  /** The sign of a result is the order of the strings. */
  lemma SignMeansOrder(mem: Memory, s: nat, t: nat, n: nat, r: int)
    requires StopsAt(mem, s, t, n) && r == mem(s + n) as int - mem(t + n) as int
    ensures (r < 0 <==> Before(mem, s, t)) && (r > 0 <==> After(mem, s, t))
  {
    BeforeIff(mem, s, t, n);
    AfterIff(mem, s, t, n);
  }

  lemma BeforeIff(mem: Memory, s: nat, t: nat, n: nat)
    requires StopsAt(mem, s, t, n)
    ensures Before(mem, s, t) <==> mem(s + n) as int < mem(t + n) as int
  {
    if k: nat :| SameUpTo(mem, s, t, k) && mem(s + k) as int < mem(t + k) as int {
      DifferOnce(mem, s, t, k, n);
    }
  }

  lemma AfterIff(mem: Memory, s: nat, t: nat, n: nat)
    requires StopsAt(mem, s, t, n)
    ensures After(mem, s, t) <==> mem(s + n) as int > mem(t + n) as int
  {
    if k: nat :| SameUpTo(mem, s, t, k) && mem(s + k) as int > mem(t + k) as int {
      DifferOnce(mem, s, t, k, n);
    }
  }

  lemma DifferOnce(mem: Memory, s: nat, t: nat, k: nat, n: nat)
    requires StopsAt(mem, s, t, n) && SameUpTo(mem, s, t, k) && mem(s + k) as int != mem(t + k) as int
    ensures k == n
  {
    assert Char(mem, s, k) != Char(mem, t, k);
    StopIsUnique(mem, s, t, k, n);
  }

  /** A result of 0 means exactly that the strings are the same. */
  lemma ZeroMeansEqual(mem: Memory, s: nat, t: nat, n: nat)
    requires StopsAt(mem, s, t, n)
    ensures mem(s + n) == mem(t + n) <==> exists m :: SameString(mem, s, t, m)
  {
    if mem(s + n) == mem(t + n) {
      assert SameString(mem, s, t, n);
    } else {
      forall m ensures !SameString(mem, s, t, m) {
        SameStopsThere(mem, s, t, m, n);
      }
    }
  }

  /** Equal strings stop at their end, and only there. */
  lemma SameStopsThere(mem: Memory, s: nat, t: nat, m: nat, n: nat)
    requires StopsAt(mem, s, t, n)
    ensures SameString(mem, s, t, m) ==> n == m
  {
    if SameString(mem, s, t, m) {
      StopIsUnique(mem, s, t, m, n);
    }
  }

  lemma StopIsUnique(mem: Memory, s: nat, t: nat, m: nat, n: nat)
    requires StopsAt(mem, s, t, m) && StopsAt(mem, s, t, n)
    ensures m == n
  {
    assert m < n ==> !Stops(mem, s, t, m);
    assert n < m ==> !Stops(mem, s, t, n);
  }
}
