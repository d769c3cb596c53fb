/**
 * Tajima's D (sgkit/stats/popgen.py, `Tajimas_D`): the segregating-site count
 * S, the sample size n, Watterson's theta, the variance constants of the
 * classical formula as exact reals, and the zero-standard-deviation guard.
 * The square root is not modelled: the caller supplies it, pinned down by
 * the precondition.
 */
module TajimasD {
  import opened Cells
  import opened Counts
  import opened Results

  /** A variant is segregating when more than one allele has a positive count, cohorts pooled. */
  predicate Segregating(x: seq<nat>) {
    Observed(x) > 1
  }

  /** `S = ((ac > 0).sum(axis=1) > 1).sum()` over the (variants, alleles) counts. */
  function SegregatingSites(ac: seq<seq<nat>>): (s: nat)
    ensures s <= |ac|
  {
    if ac == [] then 0
    else SegregatingSites(ac[..|ac| - 1]) + (if Segregating(ac[|ac| - 1]) then 1 else 0)
  }

  /** S of a concatenation of variant chunks is the sum of the chunks' S. */
  lemma {:induction false} SegregatingSitesAdditive(xs: seq<seq<nat>>, ys: seq<seq<nat>>)
    ensures SegregatingSites(xs + ys) == SegregatingSites(xs) + SegregatingSites(ys)
  {
    if ys == [] {
      assert xs + ys == xs;
    } else {
      SegregatingSitesAdditive(xs, ys[..|ys| - 1]);
      assert (xs + ys)[..|xs + ys| - 1] == xs + ys[..|ys| - 1];
    }
  }

  /** `n = ac.sum(axis=1).max()`: the largest allele total over the variants. */
  function MaxTotal(ac: seq<seq<nat>>): nat
    requires |ac| > 0
  {
    if |ac| == 1 then Total(ac[0])
    else
      var m := MaxTotal(ac[..|ac| - 1]);
      var last := Total(ac[|ac| - 1]);
      if last > m then last else m
  }

  /** No variant has more called alleles than `n`. */
  lemma {:induction false} MaxTotalIsUpperBound(ac: seq<seq<nat>>)
    requires |ac| > 0
    ensures forall v :: 0 <= v < |ac| ==> Total(ac[v]) <= MaxTotal(ac)
  {
    if |ac| > 1 {
      MaxTotalIsUpperBound(ac[..|ac| - 1]);
      assert forall v :: 0 <= v < |ac| - 1 ==> ac[v] == ac[..|ac| - 1][v];
    }
  }

  /** The maximum is attained: some variant has exactly `n` called alleles. */
  lemma {:induction false} MaxTotalAttained(ac: seq<seq<nat>>) returns (v: nat)
    requires |ac| > 0
    ensures v < |ac| && Total(ac[v]) == MaxTotal(ac)
  {
    if |ac| == 1 {
      v := 0;
    } else if Total(ac[|ac| - 1]) > MaxTotal(ac[..|ac| - 1]) {
      v := |ac| - 1;
    } else {
      v := MaxTotalAttained(ac[..|ac| - 1]);
    }
  }

  /** When no variant has two called alleles, no variant segregates. */
  lemma {:induction false} NoSegregatingSitesInSmallSamples(ac: seq<seq<nat>>)
    requires |ac| > 0
    ensures MaxTotal(ac) <= 1 ==> SegregatingSites(ac) == 0
  {
    if |ac| > 1 {
      NoSegregatingSitesInSmallSamples(ac[..|ac| - 1]);
    }
    ObservedAtMostTotal(ac[|ac| - 1]);
  }

  /** Σ_{k=1}^{m} 1/k: with m = n-1, `a1 = (1 / da.arange(1, n)).sum()`. */
  function Harmonic(m: nat): real {
    if m == 0 then 0.0 else Harmonic(m - 1) + 1.0 / (m as real)
  }

  /** Σ_{k=1}^{m} 1/k^2: with m = n-1, `a2`. */
  function Harmonic2(m: nat): real {
    if m == 0 then 0.0 else Harmonic2(m - 1) + 1.0 / ((m as real) * (m as real))
  }

  lemma {:induction false} HarmonicBounds(m: nat)
    ensures m >= 1 ==> Harmonic(m) >= 1.0
    ensures Harmonic(m) >= 0.0 && Harmonic2(m) >= 0.0
  {
    if m > 0 {
      HarmonicBounds(m - 1);
      var r := m as real;
      assert r * r > 0.0;
    }
  }

  /** `arange(1, n)` is empty for n <= 1, so a1 is 0 there. */
  function A1(n: nat): real {
    Harmonic(if n == 0 then 0 else n - 1)
  }

  function A2(n: nat): real {
    Harmonic2(if n == 0 then 0 else n - 1)
  }

  /** `e1 = c1 / a1` with `c1 = b1 - 1/a1` and `b1 = (n+1) / (3(n-1))`. */
  function E1(n: nat): real
    requires n >= 2
  {
    HarmonicBounds(n - 1);
    var a1 := A1(n);
    var nr := n as real;
    var b1 := (nr + 1.0) / (3.0 * (nr - 1.0));
    var c1 := b1 - 1.0 / a1;
    c1 / a1
  }

  /**
   * `e2 = c2 / (a1^2 + a2)` with `c2 = b2 - (n+2)/(a1 n) + a2/a1^2` and
   * `b2 = 2(n^2 + n + 3) / (9 n (n-1))`.
   */
  function E2(n: nat): real
    requires n >= 2
  {
    HarmonicBounds(n - 1);
    var a1, a2 := A1(n), A2(n);
    var nr := n as real;
    assert 9.0 * nr * (nr - 1.0) > 0.0 by {
      assert nr * (nr - 1.0) >= nr;
    }
    assert a1 * nr > 0.0 && a1 * a1 > 0.0;
    var b2 := 2.0 * (nr * nr + nr + 3.0) / (9.0 * nr * (nr - 1.0));
    var c2 := b2 - (nr + 2.0) / (a1 * nr) + a2 / (a1 * a1);
    c2 / (a1 * a1 + a2)
  }

  /**
   * `e1*S + e2*S*(S-1)`, the square of `d_stdev`. For n <= 1, a1 is 0 and the
   * float constants are inf - inf or 0/0, so the variance is NaN.
   */
  function Variance(s: nat, n: nat): Cell {
    if n >= 2 then Val(E1(n) * (s as real) + E2(n) * (s as real) * (s as real - 1.0)) else Undefined
  }

  /** `root` is the square root of the variance wherever that root is a real number. */
  predicate IsRootOf(root: real, variance: Cell) {
    variance.Val? && variance.r >= 0.0 ==> root >= 0.0 && root * root == variance.r
  }

  /** `d_stdev = np.sqrt(variance)`: NaN for a NaN or negative variance. */
  function StdDev(variance: Cell, root: real): Cell {
    if variance.Val? && variance.r >= 0.0 then Val(root) else Undefined
  }

  /** `theta = S / a1` for S segregating sites and sample size n; a1 is 0 only when S is 0 too, and 0/0 is NaN. */
  function WattersonTheta(s: nat, n: nat): Cell
    requires n <= 1 ==> s == 0
  {
    HarmonicBounds(if n == 0 then 0 else n - 1);
    Quot(Val(s as real), Val(A1(n)))
  }

  /** Watterson's theta of the variants `ac`. */
  function Theta(ac: seq<seq<nat>>): Cell
    requires |ac| > 0
  {
    NoSegregatingSitesInSmallSamples(ac);
    WattersonTheta(SegregatingSites(ac), MaxTotal(ac))
  }

  /** The value bound to `stat_Tajimas_D`: one scalar, or one value per diversity cell. */
  datatype TajimaD = Scalar(c: Cell) | PerCell(values: seq<seq<Cell>>)

  /** The final step: the scalar NaN when `d_stdev == 0`, otherwise `(div - theta) / d_stdev` for every diversity cell. */
  function Standardize(div: seq<seq<Cell>>, theta: Cell, dStdev: Cell): TajimaD {
    if dStdev == Val(0.0) then Scalar(Undefined)
    else
      PerCell(seq(|div|, w requires 0 <= w < |div| =>
        seq(|div[w]|, c requires 0 <= c < |div[w]| => Quot(Sub(div[w][c], theta), dStdev))))
  }

  /**
   * `ac.sum(axis=1).max()` over zero variants raises; the exception's type and
   * text depend on the array backend, so the model carries only this label.
   */
  const NoVariants: string := "maximum over an empty variants axis"

  /** `Tajimas_D` for the pooled allele counts `ac` and the diversity `div`; `root` is the square root of the variance. */
  function Tajima(ac: seq<seq<nat>>, div: seq<seq<Cell>>, root: real): Result<TajimaD>
    requires |ac| > 0 ==> IsRootOf(root, Variance(SegregatingSites(ac), MaxTotal(ac)))
  {
    if ac == [] then Failure(NoVariants)
    else Success(Standardize(div, Theta(ac), StdDev(Variance(SegregatingSites(ac), MaxTotal(ac)), root)))
  }

  /**
   * Away from the guard the result keeps the shape of the diversity; each cell
   * is NaN exactly where the diversity, theta or the standard deviation is,
   * and otherwise the difference of diversity and theta over the deviation.
   */
  lemma StandardizeCells(div: seq<seq<Cell>>, theta: Cell, dStdev: Cell)
    requires dStdev != Val(0.0)
    ensures Standardize(div, theta, dStdev).PerCell?
    ensures |Standardize(div, theta, dStdev).values| == |div|
    ensures forall w :: 0 <= w < |div| ==> |Standardize(div, theta, dStdev).values[w]| == |div[w]|
    ensures forall w, c :: 0 <= w < |div| && 0 <= c < |div[w]| ==>
      (Standardize(div, theta, dStdev).values[w][c] == Undefined <==>
        div[w][c] == Undefined || theta == Undefined || dStdev == Undefined)
    ensures forall w, c :: 0 <= w < |div| && 0 <= c < |div[w]| && Standardize(div, theta, dStdev).values[w][c].Val? ==>
      Standardize(div, theta, dStdev).values[w][c].r == (div[w][c].r - theta.r) / dStdev.r
  {
  }

  /** Tajima's D is undefined for an empty variant set: the maximum raises, whatever the diversity. */
  lemma TajimaOfNoVariants(div: seq<seq<Cell>>, root: real)
    ensures Tajima([], div, root).Failure?
  {
  }

  /** The standard deviation is zero exactly when the variance is zero. */
  lemma StdDevZeroIff(variance: Cell, root: real)
    requires IsRootOf(root, variance)
    ensures StdDev(variance, root) == Val(0.0) <==> variance == Val(0.0)
  {
    if variance.Val? && variance.r >= 0.0 {
      if root == 0.0 {
        calc {
          variance.r;
          root * root;
          0.0;
        }
      } else {
        PositiveSquare(root);
        calc {
          variance.r;
          root * root;
        > 0.0;
        }
      }
    }
  }

  lemma PositiveSquare(r: real)
    requires r != 0.0
    ensures r * r > 0.0
  {
    if r > 0.0 {
      assert r * r > 0.0;
    } else {
      assert r * r > 0.0;
    }
  }

  /** With no segregating site the variance is zero, or NaN for a sample below two. */
  lemma VarianceWithoutSites(n: nat)
    ensures Variance(0, n) == if n >= 2 then Val(0.0) else Undefined
  {
  }

  /**
   * The guard: D collapses to the scalar NaN exactly when the variance is
   * zero; otherwise it is computed cell by cell as `StandardizeCells` states.
   */
  lemma TajimaGuard(ac: seq<seq<nat>>, div: seq<seq<Cell>>, root: real)
    requires |ac| > 0 && IsRootOf(root, Variance(SegregatingSites(ac), MaxTotal(ac)))
    ensures Tajima(ac, div, root).Success?
    ensures Tajima(ac, div, root).value.Scalar? <==> Variance(SegregatingSites(ac), MaxTotal(ac)) == Val(0.0)
    ensures Tajima(ac, div, root).value.Scalar? ==> Tajima(ac, div, root).value.c == Undefined
  {
    var variance := Variance(SegregatingSites(ac), MaxTotal(ac));
    var d := Standardize(div, Theta(ac), StdDev(variance, root));
    StandardizeGuard(div, Theta(ac), variance, root);
    assert Tajima(ac, div, root) == Success(d);
    assert d.Scalar? <==> variance == Val(0.0);
  }

  /** The guard on the standard deviation, for any variance and its root. */
  lemma StandardizeGuard(div: seq<seq<Cell>>, theta: Cell, variance: Cell, root: real)
    requires IsRootOf(root, variance)
    ensures Standardize(div, theta, StdDev(variance, root)).Scalar? <==> variance == Val(0.0)
    ensures Standardize(div, theta, StdDev(variance, root)).Scalar? ==>
      Standardize(div, theta, StdDev(variance, root)).c == Undefined
  {
    StdDevZeroIff(variance, root);
  }

  /** Nothing in the result is a number. */
  predicate AllUndefined(d: TajimaD) {
    match d
    case Scalar(c) => c == Undefined
    case PerCell(values) =>
      forall w, c :: 0 <= w < |values| && 0 <= c < |values[w]| ==> values[w][c] == Undefined
  }

  /**
   * With no segregating site Tajima's D is undefined everywhere: a zero
   * variance hits the guard and gives the scalar NaN, a NaN variance gives
   * NaN in every cell.
   */
  lemma NoSegregatingSitesNoD(ac: seq<seq<nat>>, div: seq<seq<Cell>>, root: real)
    requires |ac| > 0 && IsRootOf(root, Variance(SegregatingSites(ac), MaxTotal(ac)))
    requires SegregatingSites(ac) == 0
    ensures Tajima(ac, div, root).Success? && AllUndefined(Tajima(ac, div, root).value)
  {
    var variance := Variance(0, MaxTotal(ac));
    VarianceWithoutSites(MaxTotal(ac));
    UndefinedWithoutDeviation(div, Theta(ac), variance, root);
    assert Tajima(ac, div, root) == Success(Standardize(div, Theta(ac), StdDev(variance, root)));
  }

  /** A zero or NaN variance leaves nothing defined: the scalar NaN, or NaN in every cell. */
  lemma UndefinedWithoutDeviation(div: seq<seq<Cell>>, theta: Cell, variance: Cell, root: real)
    requires IsRootOf(root, variance)
    requires variance == Val(0.0) || variance == Undefined
    ensures AllUndefined(Standardize(div, theta, StdDev(variance, root)))
  {
    StdDevZeroIff(variance, root);
    var dStdev := StdDev(variance, root);
    if dStdev != Val(0.0) {
      StandardizeCells(div, theta, dStdev);
    }
  }

  /** theta is NaN exactly when the sample size is below two, and otherwise the nonnegative S / a1. */
  lemma WattersonThetaDefinedness(s: nat, n: nat)
    requires n <= 1 ==> s == 0
    ensures WattersonTheta(s, n) == Undefined <==> n <= 1
    ensures WattersonTheta(s, n).Val? ==> WattersonTheta(s, n).r >= 0.0 && WattersonTheta(s, n).r * A1(n) == s as real
  {
    HarmonicBounds(if n == 0 then 0 else n - 1);
    if n >= 2 {
      QuotientOfNonNegatives(s as real, A1(n));
    }
  }
}
