/**
 * The population branching statistic kernel `_pbs` of sgkit/stats/popgen.py.
 * Its input `t` is the transformed Fst matrix `-log(1 - clip(fst, 0, 1 - eps))`
 * of one window, so every entry is NaN or nonnegative; the transform itself
 * is not part of this model. Only ascending cohort triples i < j < k are
 * written; every other cell of the cohorts^3 output stays NaN.
 */
module Pbs {
  import opened Cells
  import opened Fst
  import opened Blocks

  /** Every entry above the diagonal is NaN or nonnegative, as the clip and log transform guarantee. */
  predicate NonNegativeUpper(t: seq<seq<Cell>>)
    requires Square(t)
  {
    forall a, b :: 0 <= a < b < |t| ==> t[a][b].Val? ==> t[a][b].r >= 0.0
  }

  /** `norm = 1 + (t[i,j] + t[i,k] + t[j,k]) / 2` */
  function Norm(t: seq<seq<Cell>>, i: nat, j: nat, k: nat): Cell
    requires Square(t) && i < |t| && j < |t| && k < |t|
  {
    Add(Val(1.0), Quot(Add(Add(t[i][j], t[i][k]), t[j][k]), Val(2.0)))
  }

  /** With nonnegative inputs the unguarded denominator is at least 1, so the division is safe. */
  lemma NormAtLeastOne(t: seq<seq<Cell>>, i: nat, j: nat, k: nat)
    requires Square(t) && NonNegativeUpper(t) && i < j < k < |t|
    ensures Norm(t, i, j, k).Val? ==> Norm(t, i, j, k).r >= 1.0
    ensures Norm(t, i, j, k) != Val(0.0)
  {
  }

  /** Cell (i, j, k) of the kernel's output. */
  function PbsCell(t: seq<seq<Cell>>, i: nat, j: nat, k: nat): Cell
    requires Square(t) && NonNegativeUpper(t) && i < |t| && j < |t| && k < |t|
  {
    if i < j < k then
      var ret := Quot(Sub(Add(t[i][j], t[i][k]), t[j][k]), Val(2.0));
      NormAtLeastOne(t, i, j, k);
      Quot(ret, Norm(t, i, j, k))
    else
      Undefined
  }

  /**
   * The output tensor: a cohorts^3 cube in which only ascending triples can
   * be defined, so the permutations of a triple stay NaN.
   */
  function PbsTensor(t: seq<seq<Cell>>): (p: seq<seq<seq<Cell>>>)
    requires Square(t) && NonNegativeUpper(t)
    ensures |p| == |t|
    ensures forall i :: 0 <= i < |t| ==> |p[i]| == |t|
    ensures forall i, j :: 0 <= i < |t| && 0 <= j < |t| ==> |p[i][j]| == |t|
    ensures forall i, j, k :: 0 <= i < |t| && 0 <= j < |t| && 0 <= k < |t| && !(i < j < k) ==>
      p[i][j][k] == Undefined
  {
    seq(|t|, i requires 0 <= i < |t| =>
      seq(|t|, j requires 0 <= j < |t| =>
        seq(|t|, k requires 0 <= k < |t| => PbsCell(t, i, j, k))))
  }

  /** `da.map_blocks(_pbs, t)`: one PBS cube per window, whatever the chunking. */
  function PbsBlocks(t: seq<seq<seq<Cell>>>): (p: seq<seq<seq<seq<Cell>>>>)
    requires forall w :: 0 <= w < |t| ==> Square(t[w]) && NonNegativeUpper(t[w])
    ensures |p| == |t|
    ensures forall w :: 0 <= w < |t| ==> p[w] == PbsTensor(t[w])
  {
    MapRows((m: seq<seq<Cell>>) requires Square(m) && NonNegativeUpper(m) => PbsTensor(m), t)
  }

  /**
   * For an ascending triple the cell is defined exactly when the three entries
   * it reads are, and then it is finite and strictly between -1 and 1.
   */
  lemma PbsBounded(t: seq<seq<Cell>>, i: nat, j: nat, k: nat)
    requires Square(t) && NonNegativeUpper(t) && i < j < k < |t|
    ensures PbsCell(t, i, j, k).Val? <==> t[i][j].Val? && t[i][k].Val? && t[j][k].Val?
    ensures PbsCell(t, i, j, k).Val? ==> -1.0 < PbsCell(t, i, j, k).r < 1.0
  {
    if t[i][j].Val? && t[i][k].Val? && t[j][k].Val? {
      var a, b, c := t[i][j].r, t[i][k].r, t[j][k].r;
      var ret := (a + b - c) / 2.0;
      var norm := 1.0 + (a + b + c) / 2.0;
      assert -norm < ret < norm;
      var q := ret / norm;
      assert q * norm == ret;
      assert PbsCell(t, i, j, k) == Val(q);
    }
  }

  /** The written value for an ascending triple with defined inputs. */
  lemma PbsValue(t: seq<seq<Cell>>, i: nat, j: nat, k: nat)
    requires Square(t) && NonNegativeUpper(t) && i < j < k < |t|
    requires t[i][j].Val? && t[i][k].Val? && t[j][k].Val?
    ensures PbsCell(t, i, j, k) ==
      Val(((t[i][j].r + t[i][k].r - t[j][k].r) / 2.0) / (1.0 + (t[i][j].r + t[i][k].r + t[j][k].r) / 2.0))
  {
  }

  /** Only the strict upper triangle of `t` is read. */
  lemma PbsReadsStrictUpper(t: seq<seq<Cell>>, u: seq<seq<Cell>>)
    requires Square(t) && Square(u) && |t| == |u| && NonNegativeUpper(t) && NonNegativeUpper(u)
    requires forall a, b :: 0 <= a < b < |t| ==> t[a][b] == u[a][b]
    ensures PbsTensor(t) == PbsTensor(u)
  {
    var p, p' := PbsTensor(t), PbsTensor(u);
    forall i | 0 <= i < |t| ensures p[i] == p'[i] {
      forall j | 0 <= j < |t| ensures p[i][j] == p'[i][j] {
        forall k | 0 <= k < |t| ensures p[i][j][k] == p'[i][j][k] {
          if i < j < k {
            assert t[i][j] == u[i][j] && t[i][k] == u[i][k] && t[j][k] == u[j][k];
          }
        }
      }
    }
  }

  /** `_pbs`: NaN-fill `out`, then write every ascending triple once. */
  method PbsKernel(t: seq<seq<Cell>>, out: array3<Cell>)
    requires Square(t) && NonNegativeUpper(t)
    requires out.Length0 == |t| && out.Length1 == |t| && out.Length2 == |t|
    modifies out
    ensures forall i, j, k :: 0 <= i < |t| && 0 <= j < |t| && 0 <= k < |t| ==>
      out[i, j, k] == PbsCell(t, i, j, k)
  {
    var n := |t|;
    forall i, j, k | 0 <= i < n && 0 <= j < n && 0 <= k < n {
      out[i, j, k] := Undefined;
    }
    for i := 0 to n
      invariant forall p, q, r :: 0 <= p < n && 0 <= q < n && 0 <= r < n ==>
        out[p, q, r] == if p < i then PbsCell(t, p, q, r) else Undefined
    {
      for j := i + 1 to n
        invariant forall p, q, r :: 0 <= p < n && 0 <= q < n && 0 <= r < n ==>
          out[p, q, r] == if p < i || (p == i && q < j) then PbsCell(t, p, q, r) else Undefined
      {
        for k := j + 1 to n
          invariant forall p, q, r :: 0 <= p < n && 0 <= q < n && 0 <= r < n ==>
            out[p, q, r] == if p < i || (p == i && q < j) || (p == i && q == j && r < k)
                            then PbsCell(t, p, q, r) else Undefined
        {
          var ret := Quot(Sub(Add(t[i][j], t[i][k]), t[j][k]), Val(2.0));
          var norm := Add(Val(1.0), Quot(Add(Add(t[i][j], t[i][k]), t[j][k]), Val(2.0)));
          NormAtLeastOne(t, i, j, k);
          ret := Quot(ret, norm);
          out[i, j, k] := ret;
        }
      }
    }
  }
}
