/** Sequences of ids without repetition. */
module Distinct {

  /** A sequence without repetition holds each of its elements once. */
  lemma {:induction false} DistinctCount(xs: seq<nat>, x: nat)
    requires forall i, j :: 0 <= i < j < |xs| ==> xs[i] != xs[j]
    ensures multiset(xs)[x] == if x in xs then 1 else 0
  {
    if xs != [] {
      var n := |xs| - 1;
      DistinctCount(xs[..n], x);
      assert xs == xs[..n] + [xs[n]];
    }
  }

  /** Distinct ids among lo .. n-1 are at most n-lo, and n-lo exactly when none is missing. */
  lemma {:induction false} DistinctIds(xs: seq<nat>, lo: nat, n: nat)
    requires lo <= n
    requires forall i :: 0 <= i < |xs| ==> lo <= xs[i] < n
    requires forall i, j :: 0 <= i < j < |xs| ==> xs[i] != xs[j]
    ensures |xs| <= n - lo
    ensures (forall v: nat :: lo <= v < n ==> v in xs) ==> |xs| == n - lo
    decreases n
  {
    if xs == [] {
      assert n > lo ==> lo !in xs;
    } else if n - 1 in xs {
      var k :| 0 <= k < |xs| && xs[k] == n - 1;
      var ys := xs[..k] + xs[k + 1..];
      assert forall v: nat :: v in xs && v != n - 1 ==> v in ys;
      DistinctIds(ys, lo, n - 1);
    } else {
      assert xs[0] < n - 1;
      DistinctIds(xs, lo, n - 1);
    }
  }

  lemma RepeatCounts(xs: seq<nat>, i: nat, j: nat)
    requires i < j < |xs|
    ensures xs[i] == xs[j] ==> multiset(xs)[xs[i]] >= 2
  {
    assert xs == xs[..i] + [xs[i]] + xs[i + 1..j] + [xs[j]] + xs[j + 1..];
  }
}
