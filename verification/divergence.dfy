/**
 * The `_divergence` kernel of sgkit/stats/popgen.py: from one variant's
 * (cohorts, alleles) count matrix it fills a cohorts x cohorts buffer with
 * between-cohort divergence off the diagonal and within-cohort diversity on it.
 */
module Divergence {
  import opened Cells
  import opened Counts
  import opened NucleotideDiversity
  import opened Blocks

  /**
   * Divergence of two cohorts: the probability that an allele drawn from each
   * differs. The kernel divides without a guard; with nonnegative counts a zero
   * number of pairs comes with a zero number of differences, so the quotient is
   * 0/0, which is NaN, and never an infinity.
   */
  function Between(x: seq<nat>, y: seq<nat>): (d: Cell)
    requires |x| == |y|
    ensures d == Undefined <==> Total(x) * Total(y) == 0
    ensures d.Val? ==> 0.0 <= d.r <= 1.0
  {
    var nPairs := Total(x) * Total(y);
    var nDiff := nPairs - Shared(x, y);
    SharedAtMostProduct(x, y);
    if nPairs == 0 then
      SharedOfEmptyCohort(x, y);
      Quot(Val(nDiff as real), Val(nPairs as real))
    else
      RatioInUnit(nDiff as real, nPairs as real);
      Quot(Val(nDiff as real), Val(nPairs as real))
  }

  /** The diagonal cell: ordered pairs within one cohort, written only when there are any. */
  function Within(x: seq<nat>): Cell {
    var nPairs := OrderedPairs(Total(x));
    var nDiff := nPairs - SameWithin(x);
    if nPairs != 0 then Val(nDiff as real / nPairs as real) else Undefined
  }

  /** Cell (i, j) of the kernel's output for count matrix `ac`. */
  function DivergenceCell(ac: seq<seq<nat>>, i: nat, j: nat): Cell
    requires Rectangular(ac) && i < |ac| && j < |ac|
  {
    if i == j then Within(ac[i]) else Between(ac[i], ac[j])
  }

  /** Divergence is symmetric in its two cohorts. */
  lemma BetweenSymmetric(x: seq<nat>, y: seq<nat>)
    requires |x| == |y|
    ensures Between(x, y) == Between(y, x)
  {
    SharedSymmetric(x, y);
  }

  /** The diagonal is the cohort's diversity: the factor 2 of ordered pairs cancels. */
  lemma WithinIsDiversity(x: seq<nat>)
    ensures Within(x) == Diversity(x)
  {
    var t := Total(x);
    PairCounts(t);
    PairsWithinIsHalfSameWithin(x);
    if OrderedPairs(t) != 0 {
      var p := OrderedPairs(t) as real;
      var s := SameWithin(x) as real;
      HalvesCancel(p, s);
    }
  }

  lemma HalvesCancel(p: real, s: real)
    requires p != 0.0
    ensures (p / 2.0 - s / 2.0) / (p / 2.0) == (p - s) / p
  {
    var q := (p - s) / p;
    assert q * p == p - s;
    assert q * (p / 2.0) == p / 2.0 - s / 2.0;
  }

  /** The full output matrix: symmetric, with each cohort's diversity on the diagonal. */
  function DivergenceMatrix(ac: seq<seq<nat>>): (m: seq<seq<Cell>>)
    requires Rectangular(ac)
    ensures |m| == |ac| && forall i :: 0 <= i < |ac| ==> |m[i]| == |ac|
    ensures forall i, j :: 0 <= i < |ac| && 0 <= j < |ac| ==> m[i][j] == m[j][i]
    ensures forall i :: 0 <= i < |ac| ==> m[i][i] == Diversity(ac[i])
  {
    var m := seq(|ac|, i requires 0 <= i < |ac| => seq(|ac|, j requires 0 <= j < |ac| => DivergenceCell(ac, i, j)));
    forall i, j | 0 <= i < |ac| && 0 <= j < |ac| ensures m[i][j] == m[j][i] {
      if i != j { BetweenSymmetric(ac[i], ac[j]); }
    }
    forall i | 0 <= i < |ac| ensures m[i][i] == Diversity(ac[i]) {
      WithinIsDiversity(ac[i]);
    }
    m
  }

  /** `da.map_blocks(_divergence, ac)`: one divergence matrix per variant, whatever the chunking. */
  function DivergenceTensor(ac: seq<seq<seq<nat>>>): (d: seq<seq<seq<Cell>>>)
    requires forall v :: 0 <= v < |ac| ==> Rectangular(ac[v])
    ensures |d| == |ac|
    ensures forall v :: 0 <= v < |ac| ==> d[v] == DivergenceMatrix(ac[v])
  {
    MapRows((x: seq<seq<nat>>) requires Rectangular(x) => DivergenceMatrix(x), ac)
  }

  /** The inner loop over alleles of lines 145-147: Σ ac[i,k]*ac[j,k]. */
  method CountShared(x: seq<nat>, y: seq<nat>) returns (nSame: int)
    requires |x| == |y|
    ensures nSame == Shared(x, y)
  {
    nSame := 0;
    for k := 0 to |x|
      invariant nSame == Shared(x[..k], y[..k])
    {
      assert x[..k + 1][..k] == x[..k] && y[..k + 1][..k] == y[..k];
      nSame := nSame + x[k] * y[k];
    }
    assert x[..|x|] == x && y[..|y|] == y;
  }

  /** The inner loop over alleles of lines 156-158: Σ ac[i,k]*(ac[i,k]-1). */
  method CountSameWithin(x: seq<nat>) returns (nSame: int)
    ensures nSame == SameWithin(x)
  {
    nSame := 0;
    for k := 0 to |x|
      invariant nSame == SameWithin(x[..k])
    {
      assert x[..k + 1][..k] == x[..k];
      nSame := nSame + x[k] * (x[k] as int - 1);
    }
    assert x[..|x|] == x;
  }

  /**
   * `_divergence`: NaN-fill `out`, write each pair i < j to both (i, j) and
   * (j, i), then write each diagonal cell whose pair count is nonzero.
   */
  method DivergenceKernel(ac: seq<seq<nat>>, out: array2<Cell>)
    requires Rectangular(ac)
    requires out.Length0 == |ac| && out.Length1 == |ac|
    modifies out
    ensures forall i, j :: 0 <= i < |ac| && 0 <= j < |ac| ==> out[i, j] == DivergenceCell(ac, i, j)
  {
    var an := seq(|ac|, i requires 0 <= i < |ac| => Total(ac[i]));
    forall i, j | 0 <= i < |ac| && 0 <= j < |ac| {
      out[i, j] := Undefined;
    }
    FillBetween(ac, an, out);
    FillWithin(ac, an, out);
  }

  /** Lines 142-151: divergence for each cohort pair, written symmetrically, with no zero guard. */
  method FillBetween(ac: seq<seq<nat>>, an: seq<nat>, out: array2<Cell>)
    requires Rectangular(ac)
    requires |an| == |ac| && forall i :: 0 <= i < |ac| ==> an[i] == Total(ac[i])
    requires out.Length0 == |ac| && out.Length1 == |ac|
    requires forall p, q :: 0 <= p < |ac| && 0 <= q < |ac| ==> out[p, q] == Undefined
    modifies out
    ensures forall p, q :: 0 <= p < |ac| && 0 <= q < |ac| ==>
      out[p, q] == if p != q then Between(ac[p], ac[q]) else Undefined
  {
    var nCohorts := |ac|;
    for i := 0 to nCohorts
      invariant forall p, q :: 0 <= p < nCohorts && 0 <= q < nCohorts ==>
        out[p, q] == if p != q && (p < i || q < i) then Between(ac[p], ac[q]) else Undefined
    {
      for j := i + 1 to nCohorts
        invariant forall p, q :: 0 <= p < nCohorts && 0 <= q < nCohorts ==>
          out[p, q] == if p != q && (p < i || q < i || (p == i && q < j) || (q == i && p < j))
                       then Between(ac[p], ac[q]) else Undefined
      {
        var nPairs := an[i] * an[j];
        var nSame := CountShared(ac[i], ac[j]);
        var nDiff := nPairs - nSame;
        if nPairs == 0 {
          SharedOfEmptyCohort(ac[i], ac[j]);
        }
        var div := Quot(Val(nDiff as real), Val(nPairs as real));
        BetweenSymmetric(ac[i], ac[j]);
        out[i, j] := div;
        out[j, i] := div;
      }
    }
  }

  /** Lines 154-162: diversity on the diagonal, written only where the pair count is nonzero. */
  method FillWithin(ac: seq<seq<nat>>, an: seq<nat>, out: array2<Cell>)
    requires |an| == |ac| && forall i :: 0 <= i < |ac| ==> an[i] == Total(ac[i])
    requires out.Length0 == |ac| && out.Length1 == |ac|
    requires forall p :: 0 <= p < |ac| ==> out[p, p] == Undefined
    modifies out
    ensures forall p, q :: 0 <= p < |ac| && 0 <= q < |ac| ==>
      out[p, q] == if p != q then old(out[p, q]) else Within(ac[p])
  {
    var nCohorts := |ac|;
    for i := 0 to nCohorts
      invariant forall p, q :: 0 <= p < nCohorts && 0 <= q < nCohorts ==>
        out[p, q] == if p != q || p >= i then old(out[p, q]) else Within(ac[p])
    {
      var nPairs := an[i] * (an[i] as int - 1);
      PairCounts(an[i]);
      var nSame := CountSameWithin(ac[i]);
      var nDiff := nPairs - nSame;
      if nPairs != 0 {
        out[i, i] := Val(nDiff as real / nPairs as real);
      }
    }
  }
}
