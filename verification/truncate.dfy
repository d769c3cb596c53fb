/**
 * The index arithmetic of `truncate` (sgkit/display.py). Every dimension
 * named in `max_sizes` that is longer than its maximum keeps a head and a
 * tail of its positions, and the head holds one extra entry that pandas
 * shows as the ellipsis row or column. Positions stand for the dimension's
 * coordinate labels, which `ds.sel` then selects.
 */
module Truncate {
  import opened Results

  /** `size // 2 + size % 2 + 1`: Dafny's `/` and `%` by the positive 2 round down as Python's do. */
  function HeadCount(size: int): int {
    size / 2 + size % 2 + 1
  }

  /** `-size // 2`, which Python reads as `(-size) // 2`. */
  function TailStart(size: int): int {
    (-size) / 2
  }

  /** Python's normalisation of a slice bound against a sequence of length `len`. */
  function SliceBound(len: nat, i: int): (b: nat)
    ensures b <= len
  {
    if i < 0 then (if len + i < 0 then 0 else len + i)
    else if i < len then i
    else len
  }

  /** The positions `lo, lo + 1, ..., hi - 1`. */
  function Range(lo: nat, hi: nat): (r: seq<nat>)
    requires lo <= hi
    ensures |r| == hi - lo
    ensures forall k :: 0 <= k < |r| ==> r[k] == lo + k
  {
    seq(hi - lo, k requires 0 <= k < hi - lo => lo + k)
  }

  /** The positions of `x[start:stop]` for `x` of length `len`. */
  function Slice(len: nat, start: int, stop: int): seq<nat> {
    var lo, hi := SliceBound(len, start), SliceBound(len, stop);
    if lo <= hi then Range(lo, hi) else []
  }

  /** `ds[dim][0:n_head]` */
  function Head(len: nat, size: int): seq<nat> {
    Slice(len, 0, HeadCount(size))
  }

  /** `ds[dim][n_tail:]`, as written: for `n_tail == 0` this is the whole dimension. */
  function Tail(len: nat, size: int): seq<nat> {
    Slice(len, TailStart(size), len)
  }

  /** The tail that is evidently meant: the last `ceil(size / 2)` positions, none when that is zero. */
  function IntendedTail(len: nat, size: int): seq<nat> {
    if TailStart(size) == 0 then [] else Tail(len, size)
  }

  /** The selection made for one dimension as written: none when it is short enough, else `np.append(head, tail)`. */
  function Selection(len: nat, size: int): Option<seq<nat>> {
    if len <= size then None else Some(Head(len, size) + Tail(len, size))
  }

  /** The selection with the intended tail. */
  function IntendedSelection(len: nat, size: int): Option<seq<nat>> {
    if len <= size then None else Some(Head(len, size) + IntendedTail(len, size))
  }

  predicate StrictlyIncreasing(s: seq<nat>) {
    forall a, b :: 0 <= a < b < |s| ==> s[a] < s[b]
  }

  /** Every selected position is a position of the dimension, and a dimension is selected exactly when it is too long. */
  lemma SelectionInBounds(len: nat, size: int)
    ensures Selection(len, size).Some? <==> len > size
    ensures IntendedSelection(len, size).Some? <==> len > size
    ensures Selection(len, size).Some? ==> forall k :: 0 <= k < |Selection(len, size).value| ==> Selection(len, size).value[k] < len
    ensures IntendedSelection(len, size).Some? ==>
      forall k :: 0 <= k < |IntendedSelection(len, size).value| ==> IntendedSelection(len, size).value[k] < len
  {
    if len > size {
      var h, t := Head(len, size), Tail(len, size);
      assert forall k :: 0 <= k < |h| ==> h[k] < len;
      assert forall k :: 0 <= k < |t| ==> t[k] < len;
    }
  }

  /**
   * For a positive size below the length, the head is the first
   * `size // 2 + size % 2 + 1` positions and the tail the last
   * `ceil(size / 2)`.
   */
  lemma HeadAndTail(len: nat, size: int)
    requires 1 <= size < len
    ensures HeadCount(size) == (size + 1) / 2 + 1 <= len
    ensures TailStart(size) == -((size + 1) / 2) < 0
    ensures Head(len, size) == Range(0, (size + 1) / 2 + 1)
    ensures Tail(len, size) == Range(len - (size + 1) / 2, len)
    ensures IntendedTail(len, size) == Tail(len, size)
  {
    var m := size / 2;
    if size % 2 == 0 {
      assert size == 2 * m;
      assert -size == 2 * (-m);
      assert (-size) / 2 == -m;
      assert (size + 1) / 2 == m;
    } else {
      assert size == 2 * m + 1;
      assert -size == 2 * (-m - 1) + 1;
      assert (-size) / 2 == -m - 1;
      assert (size + 1) / 2 == m + 1;
    }
  }

  /**
   * The size bound of the docstring: a positive maximum size `n` leaves
   * `n + 1` positions when `n` is even and `n + 2` when it is odd.
   */
  lemma SelectionLength(len: nat, size: int)
    requires 1 <= size < len
    ensures |Selection(len, size).value| == if size % 2 == 0 then size + 1 else size + 2
  {
    HeadAndTail(len, size);
  }

  /**
   * The selection runs in increasing order without repeats, except when an
   * odd size is one below the length: then head and tail share one position.
   */
  lemma SelectionIncreasing(len: nat, size: int)
    requires 1 <= size < len
    ensures StrictlyIncreasing(Selection(len, size).value) <==> !(size % 2 == 1 && len == size + 1)
  {
    HeadAndTail(len, size);
    var h, t := Head(len, size), Tail(len, size);
    var s := Selection(len, size).value;
    assert s == h + t;
    if size % 2 == 1 && len == size + 1 {
      assert s[|h| - 1] == s[|h|];
    } else {
      assert h[|h| - 1] < t[0];
      forall a, b | 0 <= a < b < |s| ensures s[a] < s[b] {
        if b < |h| || |h| <= a {
        } else {
          assert s[a] <= h[|h| - 1] && t[0] <= s[b];
        }
      }
    }
  }

  /** A maximum size of zero keeps position 0 and then the whole dimension, because `[-0:]` is `[0:]`. */
  lemma ZeroSizeKeepsEverything(len: nat)
    requires len >= 1
    ensures Selection(len, 0) == Some([0] + Range(0, len))
    ensures |Selection(len, 0).value| == len + 1
  {
    assert HeadCount(0) == 1 && TailStart(0) == 0;
    assert Head(len, 0) == Range(0, 1) == [0];
    assert Tail(len, 0) == Range(0, len);
  }

  /** A dimension of length 3 with maximum size 0 comes out longer than it went in. */
  lemma ZeroSizeExample()
    ensures Selection(3, 0) == Some([0, 0, 1, 2])
  {
    ZeroSizeKeepsEverything(3);
    var r := Range(0, 3);
    assert r == [0, 1, 2];
    assert [0] + r == [0, 0, 1, 2];
  }

  /**
   * With the intended tail the docstring's bound holds for every nonnegative
   * size: `n + 1` positions for even `n`, `n + 2` for odd, strictly
   * increasing unless an odd size is one below the length; for a positive
   * size it is the selection as written.
   */
  lemma IntendedSelectionLength(len: nat, size: int)
    requires 0 <= size < len
    ensures |IntendedSelection(len, size).value| == if size % 2 == 0 then size + 1 else size + 2
    ensures StrictlyIncreasing(IntendedSelection(len, size).value) <==> !(size % 2 == 1 && len == size + 1)
    ensures size >= 1 ==> IntendedSelection(len, size) == Selection(len, size)
  {
    if size == 0 {
      assert HeadCount(0) == 1 && TailStart(0) == 0;
      assert IntendedSelection(len, size).value == [0];
    } else {
      HeadAndTail(len, size);
      SelectionLength(len, size);
      SelectionIncreasing(len, size);
    }
  }

  /** The keys of `max_sizes`, a mapping, are distinct. */
  predicate DistinctKeys(maxSizes: seq<(string, int)>) {
    forall a, b :: 0 <= a < b < |maxSizes| ==> maxSizes[a].0 != maxSizes[b].0
  }

  /** The selection of a too-long dimension: with the intended tail, or the tail as written. */
  function Chosen(len: nat, size: int, intended: bool): seq<nat>
    requires len > size
  {
    (if intended then IntendedSelection(len, size) else Selection(len, size)).value
  }

  /**
   * The loop of `truncate` over `max_sizes.items()`, building the `sel`
   * mapping from dimension name to the selected positions; `dims` holds the
   * length of every dimension of the dataset. Looking up a dimension the
   * dataset does not have raises a KeyError naming it. With `intended` false
   * each selection is the one the code writes (`Selection`), with it true
   * the one with the intended tail (`IntendedSelection`); the two differ
   * only for a maximum size below 1.
   */
  method Truncate(dims: map<string, nat>, maxSizes: seq<(string, int)>, intended: bool) returns (r: Result<map<string, seq<nat>>>)
    requires DistinctKeys(maxSizes)
    ensures r.Failure? <==> exists i :: 0 <= i < |maxSizes| && maxSizes[i].0 !in dims
    ensures r.Failure? ==>
      exists i :: 0 <= i < |maxSizes| && maxSizes[i].0 !in dims && r.error == maxSizes[i].0 &&
        forall k :: 0 <= k < i ==> maxSizes[k].0 in dims
    ensures r.Success? ==> forall d :: d in r.value ==>
      exists i :: 0 <= i < |maxSizes| && maxSizes[i].0 == d && dims[d] > maxSizes[i].1
    ensures r.Success? ==> forall i :: 0 <= i < |maxSizes| ==>
      if dims[maxSizes[i].0] <= maxSizes[i].1 then maxSizes[i].0 !in r.value
      else maxSizes[i].0 in r.value && r.value[maxSizes[i].0] == Chosen(dims[maxSizes[i].0], maxSizes[i].1, intended)
  {
    var sel: map<string, seq<nat>> := map[];
    for i := 0 to |maxSizes|
      invariant forall k :: 0 <= k < i ==> maxSizes[k].0 in dims
      invariant forall d :: d in sel ==> exists k :: 0 <= k < i && maxSizes[k].0 == d && dims[d] > maxSizes[k].1
      invariant forall k :: 0 <= k < i ==>
        if dims[maxSizes[k].0] <= maxSizes[k].1 then maxSizes[k].0 !in sel
        else maxSizes[k].0 in sel && sel[maxSizes[k].0] == Chosen(dims[maxSizes[k].0], maxSizes[k].1, intended)
    {
      var (dim, size) := maxSizes[i];
      if dim !in dims {
        return Failure(dim);
      }
      if dims[dim] > size {
        sel := sel[dim := Chosen(dims[dim], size, intended)];
      }
    }
    return Success(sel);
  }

  /**
   * The lengths of the dimensions after `ds.sel(sel)`: a selected dimension
   * takes the length of its selection, the others keep theirs.
   */
  function Truncated(dims: map<string, nat>, sel: map<string, seq<nat>>): (t: map<string, nat>)
    ensures t.Keys == dims.Keys
  {
    map d | d in dims :: if d in sel then |sel[d]| else dims[d]
  }

  /**
   * The docstring's promise for the truncated dataset: every dimension named
   * with a maximum size `n` has at most `n + 2` entries, at most `n + 1` when
   * `n` is even, and every other dimension keeps its length. With the
   * intended tail (`intended`) this holds for every `n >= 0`; with the tail
   * as written only for `n >= 1`, since `n = 0` keeps the whole dimension
   * and one more position (`ZeroSizeExample`).
   */
  lemma TruncatedSizes(dims: map<string, nat>, maxSizes: seq<(string, int)>, sel: map<string, seq<nat>>, intended: bool)
    requires DistinctKeys(maxSizes)
    requires forall i :: 0 <= i < |maxSizes| ==> maxSizes[i].0 in dims
    requires forall d :: d in sel ==> exists i :: 0 <= i < |maxSizes| && maxSizes[i].0 == d && dims[d] > maxSizes[i].1
    requires forall i :: 0 <= i < |maxSizes| ==>
      if dims[maxSizes[i].0] <= maxSizes[i].1 then maxSizes[i].0 !in sel
      else maxSizes[i].0 in sel && sel[maxSizes[i].0] == Chosen(dims[maxSizes[i].0], maxSizes[i].1, intended)
    ensures forall i :: 0 <= i < |maxSizes| && maxSizes[i].1 >= (if intended then 0 else 1) ==>
      Truncated(dims, sel)[maxSizes[i].0] <= maxSizes[i].1 + 1 + maxSizes[i].1 % 2
    ensures forall d :: d in dims && (forall i :: 0 <= i < |maxSizes| ==> maxSizes[i].0 != d) ==>
      Truncated(dims, sel)[d] == dims[d]
  {
    var t := Truncated(dims, sel);
    forall i | 0 <= i < |maxSizes| && maxSizes[i].1 >= (if intended then 0 else 1)
      ensures t[maxSizes[i].0] <= maxSizes[i].1 + 1 + maxSizes[i].1 % 2
    {
      var (dim, size) := maxSizes[i];
      if dims[dim] > size {
        IntendedSelectionLength(dims[dim], size);
      }
    }
  }
}
