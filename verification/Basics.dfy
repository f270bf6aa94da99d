/** Small pieces every module shares: an option type, sums over the threads of a machine, and remainders. */
module Basics {

  datatype Option<+T> = None | Some(value: T)

  /** The sum of `weight` over the elements of `s`; the machines use it to count tokens that threads hold. */
  function SumBy<T>(s: seq<T>, weight: T -> nat): nat
  {
    if s == [] then 0 else weight(s[0]) + SumBy(s[1..], weight)
  }

  /** Replacing one element changes the sum by the difference of the two weights. */
  lemma {:induction false} SumByUpdate<T>(s: seq<T>, i: nat, x: T, weight: T -> nat)
    requires i < |s|
    ensures SumBy(s[i := x], weight) + weight(s[i]) == SumBy(s, weight) + weight(x)
  {
    var u := s[i := x];
    if i == 0 {
      assert u[1..] == s[1..];
    } else {
      assert u[1..] == s[1..][i - 1 := x];
      SumByUpdate(s[1..], i - 1, x, weight);
    }
  }

  /** A sum is at least each of its terms, and no more than the bound on a term times the length. */
  lemma {:induction false} SumByTerm<T>(s: seq<T>, i: nat, weight: T -> nat)
    requires i < |s|
    ensures weight(s[i]) <= SumBy(s, weight)
  {
    if i > 0 {
      SumByTerm(s[1..], i - 1, weight);
    }
  }

  lemma {:induction false} SumByBound<T>(s: seq<T>, weight: T -> nat)
    requires forall i :: 0 <= i < |s| ==> weight(s[i]) <= 1
    ensures SumBy(s, weight) <= |s|
  {
    if s != [] {
      assert weight(s[0]) <= 1;
      assert forall i :: 0 <= i < |s[1..]| ==> s[1..][i] == s[i + 1];
      SumByBound(s[1..], weight);
    }
  }

  /** A positive sum has a positive term. */
  lemma {:induction false} SumByWitness<T>(s: seq<T>, weight: T -> nat) returns (i: nat)
    requires SumBy(s, weight) > 0
    ensures i < |s| && weight(s[i]) > 0
  {
    if weight(s[0]) > 0 {
      i := 0;
    } else {
      var j := SumByWitness(s[1..], weight);
      i := j + 1;
    }
  }

  lemma {:induction false} SumByZero<T>(s: seq<T>, weight: T -> nat)
    requires forall i :: 0 <= i < |s| ==> weight(s[i]) == 0
    ensures SumBy(s, weight) == 0
  {
    if s != [] {
      assert weight(s[0]) == 0;
      assert forall i :: 0 <= i < |s[1..]| ==> s[1..][i] == s[i + 1];
      SumByZero(s[1..], weight);
    }
  }

  /** A remainder is known by its multiple. */
  lemma ModIs(x: int, q: int, r: int, n: int)
    requires 0 <= r < n && x == q * n + r
    ensures x % n == r
  {
    var d := x / n - q;
    assert x == (x / n) * n + x % n;
    assert d * n == r - x % n;
    assert d > 0 ==> d * n >= n;
    assert d < 0 ==> d * n <= -n;
  }
}
