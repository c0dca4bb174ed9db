/** Sequences of numbers without repetition, and how many numbers they can hold. */
module Sequences {
  predicate Distinct(c: seq<nat>) {
    forall i, j | 0 <= i < j < |c| :: c[i] != c[j]
  }

  function Elems(c: seq<nat>): set<nat> {
    set n | n in c
  }

  ghost function Numbers(total: nat): (r: set<nat>)
    ensures forall n: nat :: n in r <==> n < total
  {
    if total == 0 then {} else Numbers(total - 1) + {total - 1}
  }

  lemma {:induction false} DistinctCount(c: seq<nat>)
    requires Distinct(c)
    ensures |Elems(c)| == |c|
  {
    if c != [] {
      var n := |c| - 1;
      DistinctCount(c[..n]);
      assert Elems(c) == Elems(c[..n]) + {c[n]};
    }
  }

  lemma {:induction false} NumbersCount(n: nat)
    ensures |Numbers(n)| == n
  {
    if n > 0 {
      NumbersCount(n - 1);
    }
  }

  lemma {:induction false} SubsetCount(a: set<nat>, b: set<nat>)
    requires a <= b
    ensures |a| <= |b|
  {
    if a != {} {
      var n :| n in a;
      SubsetCount(a - {n}, b - {n});
    }
  }

  lemma DistinctBelow(c: seq<nat>, n: nat)
    requires Distinct(c) && forall k | 0 <= k < |c| :: c[k] < n
    ensures |c| <= n
  {
    DistinctCount(c);
    NumbersCount(n);
    SubsetCount(Elems(c), Numbers(n));
  }
}
