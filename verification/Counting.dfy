/** Sizes of finite sets of natural numbers. */
module Counting {
  predicate Distinct(fs: seq<nat>) {
    forall j, k :: 0 <= j < k < |fs| ==> fs[j] != fs[k]
  }

  ghost function Elements(fs: seq<nat>): (s: set<nat>)
    ensures forall x :: x in s <==> x in fs
  {
    if fs == [] then {} else Elements(fs[..|fs| - 1]) + {fs[|fs| - 1]}
  }

  /** The numbers lo, lo+1, .., hi-1. */
  ghost function Range(lo: nat, hi: nat): (s: set<nat>)
    requires lo <= hi
    ensures |s| == hi - lo && forall x :: x in s <==> lo <= x < hi
    decreases hi
  {
    if lo == hi then {} else Range(lo, hi - 1) + {hi - 1}
  }

  lemma SubsetSize<T>(a: set<T>, b: set<T>)
    requires a <= b
    ensures |a| <= |b|
  {
    if a != {} {
      var x :| x in a;
      SubsetSize(a - {x}, b - {x});
    }
  }

  lemma {:induction false} DistinctSize(fs: seq<nat>)
    requires Distinct(fs)
    ensures |Elements(fs)| == |fs|
  {
    if fs != [] {
      var rest := fs[..|fs| - 1];
      DistinctSize(rest);
      assert fs[|fs| - 1] !in rest;
    }
  }

  /** Distinct numbers below b are at most b many. */
  lemma DistinctBelow(fs: seq<nat>, b: nat)
    requires Distinct(fs) && forall k :: 0 <= k < |fs| ==> fs[k] < b
    ensures |fs| <= b
  {
    DistinctSize(fs);
    SubsetSize(Elements(fs), Range(0, b));
  }
}
