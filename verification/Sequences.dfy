/** Sequences: regrouping, and the weighted sums that the thread pool and the log semaphore are counted with. */
module Sequences {

  lemma Associative<T>(a: seq<T>, b: seq<T>, c: seq<T>)
    ensures a + (b + c) == (a + b) + c
  {
  }

  function Sum<T>(s: seq<T>, weight: T -> nat): nat {
    if s == [] then 0 else Sum(s[..|s| - 1], weight) + weight(s[|s| - 1])
  }

  lemma SumAppend<T>(s: seq<T>, x: T, weight: T -> nat)
    ensures Sum(s + [x], weight) == Sum(s, weight) + weight(x)
  {
    assert (s + [x])[..|s|] == s;
  }

  /** Replacing one element moves the sum by exactly the difference of the two weights. */
  lemma {:induction false} SumUpdate<T>(s: seq<T>, i: nat, x: T, weight: T -> nat)
    requires i < |s|
    ensures Sum(s[i := x], weight) + weight(s[i]) == Sum(s, weight) + weight(x)
  {
    var n := |s| - 1;
    if i == n {
      assert s[i := x][..n] == s[..n];
    } else {
      assert s[i := x][..n] == s[..n][i := x];
      SumUpdate(s[..n], i, x, weight);
    }
  }

  /** A sum is zero exactly when every weight is. */
  lemma {:induction false} SumZero<T>(s: seq<T>, weight: T -> nat)
    ensures Sum(s, weight) == 0 <==> forall i :: 0 <= i < |s| ==> weight(s[i]) == 0
  {
    if s != [] {
      var t := s[..|s| - 1];
      SumZero(t, weight);
      assert forall i :: 0 <= i < |t| ==> t[i] == s[i];
    }
  }

  lemma {:induction false} SumAtLeastElement<T>(s: seq<T>, i: nat, weight: T -> nat)
    requires i < |s|
    ensures weight(s[i]) <= Sum(s, weight)
  {
    if i < |s| - 1 {
      SumAtLeastElement(s[..|s| - 1], i, weight);
    }
  }

  /** A positive sum has a positive weight in it. */
  lemma {:induction false} SumPositive<T>(s: seq<T>, weight: T -> nat) returns (i: nat)
    requires Sum(s, weight) > 0
    ensures i < |s| && weight(s[i]) > 0
  {
    i := |s| - 1;
    if weight(s[i]) == 0 {
      i := SumPositive(s[..i], weight);
    }
  }

  /** Weights that add up have sums that add up. */
  lemma {:induction false} SumOfTwo<T>(s: seq<T>, weight: T -> nat, one: T -> nat, other: T -> nat)
    requires forall i :: 0 <= i < |s| ==> weight(s[i]) == one(s[i]) + other(s[i])
    ensures Sum(s, weight) == Sum(s, one) + Sum(s, other)
  {
    if s != [] {
      SumOfTwo(s[..|s| - 1], weight, one, other);
    }
  }

  /** A weight that is bounded by multiples of two others has a sum that is. */
  lemma {:induction false} SumBounded<T>(s: seq<T>, weight: T -> nat, a: nat, one: T -> nat, b: nat, other: T -> nat)
    requires forall i :: 0 <= i < |s| ==> weight(s[i]) <= a * one(s[i]) + b * other(s[i])
    ensures Sum(s, weight) <= a * Sum(s, one) + b * Sum(s, other)
  {
    if s != [] {
      var n := |s| - 1;
      SumBounded(s[..n], weight, a, one, b, other);
      assert a * (Sum(s[..n], one) + one(s[n])) == a * Sum(s[..n], one) + a * one(s[n]);
      assert b * (Sum(s[..n], other) + other(s[n])) == b * Sum(s[..n], other) + b * other(s[n]);
    }
  }
}
