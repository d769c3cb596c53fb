/**
 * Fst between pairs of cohorts (sgkit/stats/popgen.py, `_Fst_Hudson`,
 * `_Fst_Nei` and the estimator dispatch of `Fst`). Each kernel maps one
 * variant's (or window's) divergence matrix, diversity on its diagonal, to a
 * symmetric Fst matrix whose diagonal is NaN. Only the cells d[i][j] with
 * i <= j are read.
 */
module Fst {
  import opened Cells
  import opened Results
  import opened Blocks

  /** A cohorts x cohorts matrix. */
  predicate Square(d: seq<seq<Cell>>) {
    forall i :: 0 <= i < |d| ==> |d[i]| == |d|
  }

  function Min(i: nat, j: nat): nat { if i < j then i else j }
  function Max(i: nat, j: nat): nat { if i < j then j else i }

  /**
   * Hudson's estimator for the pair written at (i, j) and (j, i), i != j:
   * `1 - ((d[i,i] + d[j,j]) / 2) / d[i,j]` for the lower index i, guarded by
   * `d[i,j] != 0.0`.
   */
  function HudsonCell(d: seq<seq<Cell>>, i: nat, j: nat): Cell
    requires Square(d) && i < |d| && j < |d|
  {
    if i == j then Undefined
    else
      var a, b := Min(i, j), Max(i, j);
      if DiffersFromZero(d[a][b]) then
        Sub(Val(1.0), Quot(Quot(Add(d[a][a], d[b][b]), Val(2.0)), d[a][b]))
      else
        Undefined
  }

  /**
   * Nei's estimator: with `den = d[i,i] + 2*d[i,j] + d[j,j]`,
   * `1 - 2*(d[i,i] + d[j,j]) / den`, guarded by `den != 0.0`.
   */
  function NeiCell(d: seq<seq<Cell>>, i: nat, j: nat): Cell
    requires Square(d) && i < |d| && j < |d|
  {
    if i == j then Undefined
    else
      var a, b := Min(i, j), Max(i, j);
      var den := Add(Add(d[a][a], Scale(2.0, d[a][b])), d[b][b]);
      if DiffersFromZero(den) then
        Sub(Val(1.0), Quot(Scale(2.0, Add(d[a][a], d[b][b])), den))
      else
        Undefined
  }

  /** The cohort-pair statistic matrices the two kernels produce. */
  predicate IsFstMatrix(d: seq<seq<Cell>>, m: seq<seq<Cell>>) {
    && |m| == |d|
    && (forall i :: 0 <= i < |m| ==> |m[i]| == |d|)
    && (forall i :: 0 <= i < |m| ==> m[i][i] == Undefined)
    && (forall i, j :: 0 <= i < |m| && 0 <= j < |m| ==> m[i][j] == m[j][i])
  }

  function HudsonMatrix(d: seq<seq<Cell>>): (m: seq<seq<Cell>>)
    requires Square(d)
    ensures IsFstMatrix(d, m)
  {
    seq(|d|, i requires 0 <= i < |d| => seq(|d|, j requires 0 <= j < |d| => HudsonCell(d, i, j)))
  }

  function NeiMatrix(d: seq<seq<Cell>>): (m: seq<seq<Cell>>)
    requires Square(d)
    ensures IsFstMatrix(d, m)
  {
    seq(|d|, i requires 0 <= i < |d| => seq(|d|, j requires 0 <= j < |d| => NeiCell(d, i, j)))
  }

  /**
   * Hudson's Fst for i < j is undefined exactly when the guard fails
   * (d[i][j] is zero) or one of the three divergences it reads is NaN;
   * otherwise it is the estimator's value.
   */
  lemma HudsonDefinedness(d: seq<seq<Cell>>, i: nat, j: nat)
    requires Square(d) && i < j < |d|
    ensures HudsonCell(d, i, j) == Undefined <==>
      d[i][j] == Val(0.0) || d[i][j] == Undefined || d[i][i] == Undefined || d[j][j] == Undefined
    ensures HudsonCell(d, i, j).Val? ==>
      HudsonCell(d, i, j).r == 1.0 - ((d[i][i].r + d[j][j].r) / 2.0) / d[i][j].r
  {
  }

  /** Nei's Fst for i < j is undefined exactly when its denominator is zero or an input is NaN. */
  lemma NeiDefinedness(d: seq<seq<Cell>>, i: nat, j: nat)
    requires Square(d) && i < j < |d|
    ensures NeiCell(d, i, j) == Undefined <==>
      d[i][j] == Undefined || d[i][i] == Undefined || d[j][j] == Undefined ||
      d[i][i].r + 2.0 * d[i][j].r + d[j][j].r == 0.0
    ensures NeiCell(d, i, j).Val? ==>
      NeiCell(d, i, j).r == 1.0 - 2.0 * (d[i][i].r + d[j][j].r) / (d[i][i].r + 2.0 * d[i][j].r + d[j][j].r)
  {
  }

  /** With nonnegative diversities and a positive divergence, Hudson's Fst is at most 1. */
  lemma HudsonAtMostOne(d: seq<seq<Cell>>, i: nat, j: nat)
    requires Square(d) && i < j < |d|
    requires d[i][i].Val? && d[j][j].Val? && d[i][j].Val?
    requires d[i][i].r >= 0.0 && d[j][j].r >= 0.0 && d[i][j].r > 0.0
    ensures HudsonCell(d, i, j).Val? && HudsonCell(d, i, j).r <= 1.0
  {
    var within := (d[i][i].r + d[j][j].r) / 2.0;
    assert within / d[i][j].r >= 0.0;
  }

  /** With nonnegative divergences, not all zero, Nei's Fst lies in [-1, 1]. */
  lemma NeiWithinUnit(d: seq<seq<Cell>>, i: nat, j: nat)
    requires Square(d) && i < j < |d|
    requires d[i][i].Val? && d[j][j].Val? && d[i][j].Val?
    requires d[i][i].r >= 0.0 && d[j][j].r >= 0.0 && d[i][j].r >= 0.0
    requires d[i][i].r + d[j][j].r + d[i][j].r > 0.0
    ensures NeiCell(d, i, j).Val? && -1.0 <= NeiCell(d, i, j).r <= 1.0
  {
    var w := d[i][i].r + d[j][j].r;
    var den := w + 2.0 * d[i][j].r;
    assert den > 0.0;
    RatioInUnit(w, den);
    assert 2.0 * w / den == 2.0 * (w / den);
  }

  /** Neither kernel reads a cell below the diagonal. */
  lemma FstReadsUpperTriangle(d: seq<seq<Cell>>, e: seq<seq<Cell>>)
    requires Square(d) && Square(e) && |d| == |e|
    requires forall i, j :: 0 <= i <= j < |d| ==> d[i][j] == e[i][j]
    ensures HudsonMatrix(d) == HudsonMatrix(e)
    ensures NeiMatrix(d) == NeiMatrix(e)
  {
    var h, h' := HudsonMatrix(d), HudsonMatrix(e);
    var n, n' := NeiMatrix(d), NeiMatrix(e);
    forall i | 0 <= i < |d| ensures h[i] == h'[i] && n[i] == n'[i] {
      forall j | 0 <= j < |d| ensures h[i][j] == h'[i][j] && n[i][j] == n'[i][j] {
        var a, b := Min(i, j), Max(i, j);
        assert d[a][a] == e[a][a] && d[b][b] == e[b][b] && d[a][b] == e[a][b];
      }
    }
  }

  /** `_Fst_Hudson`: NaN-fill `out`, then write each guarded pair i < j to both (i, j) and (j, i). */
  method FstHudsonKernel(d: seq<seq<Cell>>, out: array2<Cell>)
    requires Square(d)
    requires out.Length0 == |d| && out.Length1 == |d|
    modifies out
    ensures forall i, j :: 0 <= i < |d| && 0 <= j < |d| ==> out[i, j] == HudsonCell(d, i, j)
  {
    var nCohorts := |d|;
    forall i, j | 0 <= i < nCohorts && 0 <= j < nCohorts {
      out[i, j] := Undefined;
    }
    for i := 0 to nCohorts
      invariant forall p, q :: 0 <= p < nCohorts && 0 <= q < nCohorts ==>
        out[p, q] == if p < i || q < i then HudsonCell(d, p, q) else Undefined
    {
      for j := i + 1 to nCohorts
        invariant forall p, q :: 0 <= p < nCohorts && 0 <= q < nCohorts ==>
          out[p, q] == if p < i || q < i || (p == i && q < j) || (q == i && p < j)
                       then HudsonCell(d, p, q) else Undefined
      {
        if DiffersFromZero(d[i][j]) {
          var fst := Sub(Val(1.0), Quot(Quot(Add(d[i][i], d[j][j]), Val(2.0)), d[i][j]));
          out[i, j] := fst;
          out[j, i] := fst;
        }
      }
    }
  }

  /** `_Fst_Nei`: as Hudson's kernel, with Nei's estimator and its denominator guard. */
  method FstNeiKernel(d: seq<seq<Cell>>, out: array2<Cell>)
    requires Square(d)
    requires out.Length0 == |d| && out.Length1 == |d|
    modifies out
    ensures forall i, j :: 0 <= i < |d| && 0 <= j < |d| ==> out[i, j] == NeiCell(d, i, j)
  {
    var nCohorts := |d|;
    forall i, j | 0 <= i < nCohorts && 0 <= j < nCohorts {
      out[i, j] := Undefined;
    }
    for i := 0 to nCohorts
      invariant forall p, q :: 0 <= p < nCohorts && 0 <= q < nCohorts ==>
        out[p, q] == if p < i || q < i then NeiCell(d, p, q) else Undefined
    {
      for j := i + 1 to nCohorts
        invariant forall p, q :: 0 <= p < nCohorts && 0 <= q < nCohorts ==>
          out[p, q] == if p < i || q < i || (p == i && q < j) || (q == i && p < j)
                       then NeiCell(d, p, q) else Undefined
      {
        var den := Add(Add(d[i][i], Scale(2.0, d[i][j])), d[j][j]);
        if DiffersFromZero(den) {
          var fst := Sub(Val(1.0), Quot(Scale(2.0, Add(d[i][i], d[j][j])), den));
          out[i, j] := fst;
          out[j, i] := fst;
        }
      }
    }
  }

  datatype Estimator = Hudson | Nei

  /** The message of the ValueError raised for an unknown estimator name. */
  function UnknownEstimatorMessage(name: string): string {
    "Estimator '" + name + "' is not a known estimator: dict_keys(['Hudson', 'Nei'])"
  }

  /**
   * The dispatch of lines 437-442: no name selects Hudson, "Hudson" and "Nei"
   * select their estimator, and any other name is an error naming both.
   */
  function SelectEstimator(name: Option<string>): (r: Result<Estimator>)
    ensures r.Success? <==> name.None? || name.value == "Hudson" || name.value == "Nei"
    ensures r.Success? ==> (r.value == Nei <==> name == Some("Nei"))
    ensures r.Failure? ==> r.error == UnknownEstimatorMessage(name.value)
  {
    match name
    case None => Success(Hudson)
    case Some(n) =>
      if n == "Hudson" then Success(Hudson)
      else if n == "Nei" then Success(Nei)
      else Failure(UnknownEstimatorMessage(n))
  }

  function EstimatorMatrix(e: Estimator, d: seq<seq<Cell>>): seq<seq<Cell>>
    requires Square(d)
  {
    match e
    case Hudson => HudsonMatrix(d)
    case Nei => NeiMatrix(d)
  }

  /**
   * `Fst` on a divergence tensor, one matrix per variant or window: the
   * estimator is resolved first, then its kernel is mapped over the blocks.
   */
  function FstTensor(estimator: Option<string>, div: seq<seq<seq<Cell>>>): (r: Result<seq<seq<seq<Cell>>>>)
    requires forall v :: 0 <= v < |div| ==> Square(div[v])
    ensures r.Success? <==> SelectEstimator(estimator).Success?
    ensures r.Success? ==> |r.value| == |div| && forall v :: 0 <= v < |div| ==> IsFstMatrix(div[v], r.value[v])
    ensures r.Success? ==> forall v :: 0 <= v < |div| ==>
      r.value[v] == if estimator == Some("Nei") then NeiMatrix(div[v]) else HudsonMatrix(div[v])
  {
    match SelectEstimator(estimator)
    case Failure(msg) => Failure(msg)
    case Success(e) =>
      var kernel := (m: seq<seq<Cell>>) requires Square(m) => EstimatorMatrix(e, m);
      Success(MapRows(kernel, div))
  }

  /** An unknown estimator fails with the same error whatever the divergence input: nothing is computed first. */
  lemma UnknownEstimatorFailsFirst(name: string, div: seq<seq<seq<Cell>>>)
    requires name != "Hudson" && name != "Nei"
    requires forall v :: 0 <= v < |div| ==> Square(div[v])
    ensures FstTensor(Some(name), div) == Failure(UnknownEstimatorMessage(name))
  {
  }
}
