/**
 * Per-variant, per-cohort nucleotide diversity (sgkit/stats/popgen.py,
 * `diversity`): the probability that two alleles drawn without replacement
 * from one cohort differ, or NaN where the cohort has fewer than two called
 * alleles.
 */
module NucleotideDiversity {
  import opened Cells
  import opened Counts

  /** `n_same`: Σ ac[k]*(ac[k]-1)/2, summed in floating point. */
  function PairsWithin(x: seq<nat>): real {
    if x == [] then 0.0
    else PairsWithin(x[..|x| - 1]) + (x[|x| - 1] as real) * (x[|x| - 1] as real - 1.0) / 2.0
  }

  lemma {:induction false} PairsWithinIsHalfSameWithin(x: seq<nat>)
    ensures PairsWithin(x) == (SameWithin(x) as real) / 2.0
  {
    if x != [] {
      PairsWithinIsHalfSameWithin(x[..|x| - 1]);
    }
  }

  /** `n_pairs` of line 86: unordered pairs of called alleles, in floating point. */
  function HalfPairs(an: nat): real {
    (an as real) * (an as real - 1.0) / 2.0
  }

  /** Ordered pairs of called alleles, `an*(an-1)` in integers. */
  function OrderedPairs(an: nat): nat {
    if an == 0 then 0 else an * (an - 1)
  }

  lemma PairCounts(an: nat)
    ensures HalfPairs(an) == (OrderedPairs(an) as real) / 2.0
    ensures OrderedPairs(an) == an * (an as int - 1)
    ensures OrderedPairs(an) == 0 <==> an <= 1
  {
    var r := an as real;
    if an >= 2 {
      assert an * (an - 1) >= an;
    }
    assert (an * (an as int - 1)) as real == r * (r - 1.0);
  }

  /** Diversity of one cohort at one variant, as lines 85-91 compute it. */
  function Diversity(x: seq<nat>): Cell {
    var nPairs := HalfPairs(Total(x));
    var nDiff := nPairs - PairsWithin(x);
    // `n_pairs.where(n_pairs != 0)` turns a zero count into NaN, and n_diff / NaN is NaN
    if nPairs != 0.0 then Val(nDiff / nPairs) else Undefined
  }

  /** Same-allele pairs within a cohort are at most all its pairs. */
  lemma PairsWithinBounds(x: seq<nat>)
    ensures 0.0 <= PairsWithin(x) <= HalfPairs(Total(x))
  {
    PairsWithinIsHalfSameWithin(x);
    SameWithinBounds(x);
    PairCounts(Total(x));
  }

  /**
   * Diversity is undefined exactly when the cohort has no pair of called
   * alleles (an is 0 or 1); otherwise it is a probability.
   */
  lemma DiversityIsProbability(x: seq<nat>)
    ensures Diversity(x) == Undefined <==> Total(x) <= 1
    ensures Diversity(x).Val? ==> 0.0 <= Diversity(x).r <= 1.0
  {
    var nPairs := HalfPairs(Total(x));
    PairCounts(Total(x));
    PairsWithinBounds(x);
    if nPairs != 0.0 {
      RatioInUnit(nPairs - PairsWithin(x), nPairs);
    }
  }

  /** `stat_diversity` per variant: one row of cohort values per variant of `ac` (variant, cohort, allele). */
  function DiversityTensor(ac: seq<seq<seq<nat>>>): (pi: seq<seq<Cell>>)
    ensures |pi| == |ac|
    ensures forall v :: 0 <= v < |ac| ==> |pi[v]| == |ac[v]|
  {
    seq(|ac|, v requires 0 <= v < |ac| => seq(|ac[v]|, c requires 0 <= c < |ac[v]| => Diversity(ac[v][c])))
  }

  /** The zero-denominator rule at tensor level: a cohort with fewer than two called alleles gets NaN, never 0. */
  lemma DiversityUndefinedWhereUncalled(ac: seq<seq<seq<nat>>>, v: nat, c: nat)
    requires v < |ac| && c < |ac[v]|
    ensures DiversityTensor(ac)[v][c] == Undefined <==> Total(ac[v][c]) <= 1
  {
    DiversityIsProbability(ac[v][c]);
  }
}
