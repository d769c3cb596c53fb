/**
 * Sums over the allele axis of a cohort's allele counts, shared by the
 * diversity, divergence and Tajima's D computations of sgkit/stats/popgen.py.
 * Counts are unbounded naturals (the source's int64 never overflows here).
 */
module Counts {

  /** `an`: the number of called alleles of one cohort, `ac.sum(axis=-1)`. */
  function Total(x: seq<nat>): nat {
    if x == [] then 0 else Total(x[..|x| - 1]) + x[|x| - 1]
  }

  /** Ordered pairs of sampled alleles of one cohort that carry the same allele: Σ ac[k]*(ac[k]-1). */
  function SameWithin(x: seq<nat>): int {
    if x == [] then 0 else SameWithin(x[..|x| - 1]) + x[|x| - 1] * (x[|x| - 1] as int - 1)
  }

  /** Pairs of one allele from each of two cohorts that carry the same allele: Σ x[k]*y[k]. */
  function Shared(x: seq<nat>, y: seq<nat>): nat
    requires |x| == |y|
  {
    if x == [] then 0 else Shared(x[..|x| - 1], y[..|y| - 1]) + x[|x| - 1] * y[|y| - 1]
  }

  /** A (cohorts, alleles) count matrix: every cohort has a count for every allele. */
  predicate Rectangular(ac: seq<seq<nat>>) {
    forall i, j :: 0 <= i < |ac| && 0 <= j < |ac| ==> |ac[i]| == |ac[j]|
  }

  /** Number of alleles with a positive count. */
  function Observed(x: seq<nat>): nat {
    if x == [] then 0 else Observed(x[..|x| - 1]) + (if x[|x| - 1] > 0 then 1 else 0)
  }

  lemma {:induction false} SharedSymmetric(x: seq<nat>, y: seq<nat>)
    requires |x| == |y|
    ensures Shared(x, y) == Shared(y, x)
  {
    if x != [] {
      SharedSymmetric(x[..|x| - 1], y[..|y| - 1]);
    }
  }

  /** Shared pairs are a subset of all cross-cohort pairs. */
  lemma {:induction false} SharedAtMostProduct(x: seq<nat>, y: seq<nat>)
    requires |x| == |y|
    ensures Shared(x, y) <= Total(x) * Total(y)
  {
    if x != [] {
      var x', y' := x[..|x| - 1], y[..|y| - 1];
      var a, b := x[|x| - 1], y[|y| - 1];
      SharedAtMostProduct(x', y');
      calc {
        Total(x) * Total(y);
        (Total(x') + a) * (Total(y') + b);
        Total(x') * Total(y') + a * Total(y') + b * Total(x') + a * b;
      }
      assert 0 <= a * Total(y') && 0 <= b * Total(x');
    }
  }

  /** A cohort with no called alleles shares no pair with any cohort. */
  lemma {:induction false} SharedOfEmptyCohort(x: seq<nat>, y: seq<nat>)
    requires |x| == |y|
    requires Total(x) == 0 || Total(y) == 0
    ensures Shared(x, y) == 0
  {
    if x != [] {
      SharedOfEmptyCohort(x[..|x| - 1], y[..|y| - 1]);
    }
  }

  /** Same-allele pairs within a cohort are a subset of all its ordered pairs. */
  lemma {:induction false} SameWithinBounds(x: seq<nat>)
    ensures 0 <= SameWithin(x) <= Total(x) * (Total(x) as int - 1)
  {
    if x != [] {
      var x' := x[..|x| - 1];
      var a: int, t: int := x[|x| - 1], Total(x');
      SameWithinBounds(x');
      assert 0 <= a * (a - 1) by {
        if a > 0 { assert a - 1 >= 0; }
      }
      calc {
        Total(x) * (Total(x) as int - 1);
        (t + a) * (t + a - 1);
        t * (t - 1) + a * (a - 1) + 2 * a * t;
      }
      assert 0 <= 2 * a * t;
    }
  }

  /** A cohort with at most one called allele has at most one allele observed. */
  lemma {:induction false} ObservedAtMostTotal(x: seq<nat>)
    ensures Observed(x) <= Total(x)
  {
    if x != [] {
      ObservedAtMostTotal(x[..|x| - 1]);
    }
  }
}
