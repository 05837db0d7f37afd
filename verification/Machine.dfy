/** Words and powers of two shared by the models of the processor and its firmware. */
module Machine {

  const WORD: nat := 0x1_0000_0000

  /** A 32-bit unsigned word, as the C and VHDL code computes with it. */
  type u32 = x: nat | x < 0x1_0000_0000

  type byte = b: nat | b < 0x100

  datatype Option<T> = None | Some(value: T)

  function Pow2(n: nat): (p: nat)
    ensures p > 0
  {
    if n == 0 then 1 else 2 * Pow2(n - 1)
  }

  lemma {:induction false} Pow2Grows(n: nat)
    ensures n < Pow2(n)
  {
    if n > 0 { Pow2Grows(n - 1); }
  }

  /** `q` and `r` are the quotient and remainder of `n` by `d`. */
  predicate IsDivision(n: nat, d: nat, q: nat, r: nat) { n == q * d + r && r < d }

  lemma DivisionIsUnique(n: nat, d: nat, q: nat, r: nat, q': nat, r': nat)
    requires IsDivision(n, d, q, r) && IsDivision(n, d, q', r')
    ensures q == q' && r == r'
  {
    if q < q' {
      Larger(d, q, q');
      assert false;
    } else if q' < q {
      Larger(d, q', q);
      assert false;
    }
  }

  lemma Larger(d: nat, q: nat, q': nat)
    requires q < q'
    ensures q * d + d <= q' * d
  {
    assert q' * d == (q' - q - 1) * d + (q * d + d);
  }

  /** The first `n` numbers. */
  function UpTo(n: nat): (s: set<nat>)
    ensures forall i: nat :: i in s <==> i < n
    ensures |s| == n
  {
    if n == 0 then {} else UpTo(n - 1) + {n - 1}
  }

  function Members<T(!new)>(s: seq<T>): (m: set<T>)
    ensures forall x :: x in m <==> x in s
  {
    if s == [] then {} else {s[0]} + Members(s[1..])
  }

  ghost predicate Distinct<T>(s: seq<T>) {
    forall j, k :: 0 <= j < k < |s| ==> s[j] != s[k]
  }

  lemma {:induction false} MembersCount<T(!new)>(s: seq<T>)
    ensures |Members(s)| <= |s|
    ensures Distinct(s) ==> |Members(s)| == |s|
  {
    if s != [] {
      MembersCount(s[1..]);
      if Distinct(s) {
        assert s[0] !in s[1..];
      }
    }
  }

  lemma SubsetCount<T>(a: set<T>, b: set<T>)
    requires a <= b
    ensures |a| <= |b|
    ensures |a| == |b| ==> a == b
  {
    assert b == a + (b - a);
  }

  /** Distinct numbers below `n` are at most `n` many. */
  lemma Pigeonhole(s: seq<nat>, n: nat)
    requires Distinct(s) && forall j :: 0 <= j < |s| ==> s[j] < n
    ensures |s| <= n
    ensures |s| == n ==> forall i :: 0 <= i < n ==> i in s
  {
    MembersCount(s);
    SubsetCount(Members(s), UpTo(n));
    if |s| == n {
      forall i | 0 <= i < n ensures i in s { assert i in UpTo(n); }
    }
  }

  /** A list that holds every member of a distinct list is at least as long. */
  lemma Covers<T(!new)>(a: seq<T>, b: seq<T>)
    requires Distinct(a) && forall j :: 0 <= j < |a| ==> a[j] in b
    ensures |a| <= |b|
  {
    MembersCount(a);
    MembersCount(b);
    SubsetCount(Members(a), Members(b));
  }

  /** A run without its last clock. */
  function Front<T>(s: seq<T>): (r: seq<T>)
    requires s != []
    ensures |r| == |s| - 1
  {
    s[..|s| - 1]
  }

  function Last<T>(s: seq<T>): T
    requires s != []
  {
    s[|s| - 1]
  }
}
