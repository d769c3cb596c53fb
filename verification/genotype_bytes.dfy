/**
 * `_format_genotype_bytes` of sgkit/display.py: one genotype call, given as
 * the NUL-padded text of each allele laid end to end (`chars`), is written
 * into a byte buffer as VCF GT text (section 1.6.2 of the VCF 4.3
 * specification): allele slots of `chars_per_allele` bytes separated by `/`
 * or `|`, `.` for a missing allele, gap alleles dropped together with their
 * separator, and finally every NUL byte moved to the end.
 */
module GenotypeBytes {

  type byte = b: int | 0 <= b < 256

  const Dash: byte := 45
  const One: byte := 49
  const Dot: byte := 46

  /** `124 if phased else 47`: `|` or `/`. */
  function Separator(phased: bool): byte {
    if phased then 124 else 47
  }

  /** The text of an allele ends at its first `-` byte, when it has one. */
  function FirstDash(a: seq<byte>): (k: nat)
    ensures k <= |a|
    ensures forall c :: 0 <= c < k ==> a[c] != Dash
    ensures k < |a| ==> a[k] == Dash
  {
    if a == [] then 0
    else if a[0] == Dash then 0
    else 1 + FirstDash(a[1..])
  }

  /** The byte after a `-` is always read; a `-` is never the last input byte. */
  predicate DashNotLast(chars: seq<byte>) {
    |chars| == 0 || chars[|chars| - 1] != Dash
  }

  /** `s * width`: where slot `s` starts when slots are `width` bytes apart. */
  function Offset(s: nat, width: nat): nat {
    if s == 0 then 0 else Offset(s - 1, width) + width
  }

  lemma {:induction false} OffsetIsProduct(s: nat, width: nat)
    ensures Offset(s, width) == s * width
  {
    if s > 0 {
      OffsetIsProduct(s - 1, width);
    }
  }

  /** A later slot starts after an earlier one ends. */
  lemma {:induction false} OffsetMonotone(s: nat, t: nat, width: nat)
    requires s < t
    ensures Offset(s, width) + width == Offset(s + 1, width) <= Offset(t, width)
  {
    if s < t - 1 {
      OffsetMonotone(s, t - 1, width);
    }
  }

  /** The bytes of allele `s`: slot `s` of the input. */
  function Allele(chars: seq<byte>, cpa: nat, s: nat): (a: seq<byte>)
    requires Offset(s, cpa) + cpa <= |chars|
    ensures |a| == cpa
  {
    chars[Offset(s, cpa) .. Offset(s, cpa) + cpa]
  }

  /** Whether the `-` that ends allele `s` is followed by a byte other than `1`: the allele is a gap. */
  predicate IsGap(chars: seq<byte>, cpa: nat, s: nat)
    requires Offset(s, cpa) + cpa <= |chars| && DashNotLast(chars)
  {
    var k := FirstDash(Allele(chars, cpa, s));
    k < cpa && chars[Offset(s, cpa) + k + 1] != One
  }

  /**
   * The output slot of allele `s`: its bytes up to the first `-`; there, `.`
   * when the `-` starts `-1` (a missing allele) and NUL otherwise (a gap);
   * NUL after it.
   */
  function SlotBytes(chars: seq<byte>, cpa: nat, s: nat): (r: seq<byte>)
    requires Offset(s, cpa) + cpa <= |chars| && DashNotLast(chars)
    ensures |r| == cpa
  {
    var a := Allele(chars, cpa, s);
    var k := FirstDash(a);
    seq(cpa, c requires 0 <= c < cpa =>
      if c < k then a[c]
      else if c == k && chars[Offset(s, cpa) + k + 1] == One then Dot
      else 0)
  }

  /** The byte before slot `s` (s >= 1): the separator, or NUL when allele `s` is a gap. */
  function SeparatorBefore(chars: seq<byte>, cpa: nat, s: nat, phased: bool): byte
    requires Offset(s, cpa) + cpa <= |chars| && DashNotLast(chars)
  {
    if IsGap(chars, cpa, s) then 0 else Separator(phased)
  }

  /**
   * Slots laid end to end, each slot `s >= 1` right after the byte
   * `seps[s]`; `seps[0]` is not used.
   */
  function Join(slots: seq<seq<byte>>, seps: seq<byte>): seq<byte>
    requires |seps| == |slots|
  {
    if |slots| == 0 then []
    else if |slots| == 1 then slots[0]
    else Join(slots[..|slots| - 1], seps[..|slots| - 1]) + [seps[|slots| - 1]] + slots[|slots| - 1]
  }

  /** Every slot is `width` bytes wide. */
  predicate Uniform(slots: seq<seq<byte>>, width: nat) {
    forall s :: 0 <= s < |slots| ==> |slots[s]| == width
  }

  /** Joined slots of `width` bytes take `width + 1` bytes each, less the first separator. */
  lemma {:induction false} JoinLength(slots: seq<seq<byte>>, seps: seq<byte>, width: nat)
    requires |seps| == |slots| >= 1 && Uniform(slots, width)
    ensures |Join(slots, seps)| == Offset(|slots|, width + 1) - 1
  {
    if |slots| > 1 {
      JoinLength(slots[..|slots| - 1], seps[..|slots| - 1], width);
    }
  }

  /** Slot `s` starts at `s * (width + 1)`, right after its separator byte. */
  lemma {:induction false} JoinSlot(slots: seq<seq<byte>>, seps: seq<byte>, width: nat, s: nat)
    requires |seps| == |slots| && Uniform(slots, width) && s < |slots|
    ensures Offset(s, width + 1) + width <= |Join(slots, seps)|
    ensures Join(slots, seps)[Offset(s, width + 1) .. Offset(s, width + 1) + width] == slots[s]
    ensures s >= 1 ==> Offset(s, width + 1) >= 1 && Join(slots, seps)[Offset(s, width + 1) - 1] == seps[s]
  {
    var n := |slots|;
    JoinLength(slots, seps, width);
    if n > 1 {
      var init, initSeps := slots[..n - 1], seps[..n - 1];
      var prev := Join(init, initSeps);
      JoinLength(init, initSeps, width);
      assert Join(slots, seps) == prev + [seps[n - 1]] + slots[n - 1];
      if s < n - 1 {
        JoinSlot(init, initSeps, width, s);
        assert init[s] == slots[s];
        if s >= 1 {
          assert initSeps[s] == seps[s];
        }
      } else {
        assert Offset(s, width + 1) == |prev| + 1;
      }
    }
  }

  /** The output slots of the first `k` alleles. */
  function Slots(chars: seq<byte>, cpa: nat, k: nat): (r: seq<seq<byte>>)
    requires Offset(k, cpa) <= |chars| && DashNotLast(chars)
    ensures |r| == k && Uniform(r, cpa)
  {
    if k == 0 then [] else Slots(chars, cpa, k - 1) + [SlotBytes(chars, cpa, k - 1)]
  }

  /** The separator bytes before the first `k` slots. */
  function Separators(chars: seq<byte>, cpa: nat, k: nat, phased: bool): (r: seq<byte>)
    requires Offset(k, cpa) <= |chars| && DashNotLast(chars)
    ensures |r| == k
  {
    if k == 0 then [] else Separators(chars, cpa, k - 1, phased) + [SeparatorBefore(chars, cpa, k - 1, phased)]
  }

  lemma {:induction false} SlotsIndex(chars: seq<byte>, cpa: nat, k: nat, phased: bool, s: nat)
    requires Offset(k, cpa) <= |chars| && DashNotLast(chars) && s < k
    ensures Offset(s, cpa) + cpa <= |chars|
    ensures Slots(chars, cpa, k)[s] == SlotBytes(chars, cpa, s)
    ensures Separators(chars, cpa, k, phased)[s] == SeparatorBefore(chars, cpa, s, phased)
  {
    if s < k - 1 {
      SlotsIndex(chars, cpa, k - 1, phased, s);
    }
  }

  /** The buffer after the slot loop, for the first `k` slots. */
  function Layout(chars: seq<byte>, cpa: nat, k: nat, phased: bool): seq<byte>
    requires Offset(k, cpa) <= |chars| && DashNotLast(chars)
  {
    if k == 0 then []
    else if k == 1 then SlotBytes(chars, cpa, 0)
    else Layout(chars, cpa, k - 1, phased) + [SeparatorBefore(chars, cpa, k - 1, phased)] + SlotBytes(chars, cpa, k - 1)
  }

  /** The layout joins the slots with their separators. */
  lemma {:induction false} LayoutIsJoin(chars: seq<byte>, cpa: nat, k: nat, phased: bool)
    requires Offset(k, cpa) <= |chars| && DashNotLast(chars)
    ensures Layout(chars, cpa, k, phased) == Join(Slots(chars, cpa, k), Separators(chars, cpa, k, phased))
  {
    if k > 1 {
      LayoutIsJoin(chars, cpa, k - 1, phased);
      var slots, seps := Slots(chars, cpa, k), Separators(chars, cpa, k, phased);
      assert slots[..k - 1] == Slots(chars, cpa, k - 1);
      assert seps[..k - 1] == Separators(chars, cpa, k - 1, phased);
    }
  }

  /**
   * The layout of the whole call is `ploidy * (cpa + 1) - 1` bytes: slot `s`
   * holds allele `s` from `s * (cpa + 1)` on, and for `s >= 1` the byte before
   * it is the separator, or NUL before a gap.
   */
  lemma LayoutSlot(chars: seq<byte>, cpa: nat, k: nat, phased: bool, s: nat)
    requires Offset(k, cpa) <= |chars| && DashNotLast(chars) && s < k
    ensures |Layout(chars, cpa, k, phased)| == Offset(k, cpa + 1) - 1
    ensures Offset(s, cpa) + cpa <= |chars| && Offset(s, cpa + 1) + cpa <= Offset(k, cpa + 1) - 1
    ensures Layout(chars, cpa, k, phased)[Offset(s, cpa + 1) .. Offset(s, cpa + 1) + cpa] == SlotBytes(chars, cpa, s)
    ensures s >= 1 ==>
      Offset(s, cpa + 1) >= 1 &&
      Layout(chars, cpa, k, phased)[Offset(s, cpa + 1) - 1] == SeparatorBefore(chars, cpa, s, phased)
  {
    var slots, seps := Slots(chars, cpa, k), Separators(chars, cpa, k, phased);
    LayoutIsJoin(chars, cpa, k, phased);
    JoinLength(slots, seps, cpa);
    JoinSlot(slots, seps, cpa, s);
    SlotsIndex(chars, cpa, k, phased, s);
  }

  /** The NUL bytes are dropped, the others kept in order. */
  function NonZero(s: seq<byte>): (r: seq<byte>)
    ensures |r| <= |s|
  {
    if s == [] then [] else (if s[0] != 0 then [s[0]] else []) + NonZero(s[1..])
  }

  function Zeros(n: nat): (r: seq<byte>)
    ensures |r| == n
  {
    seq(n, c => 0)
  }

  /** Every nonzero byte moved to the front in its original order, NULs after. */
  function Compacted(s: seq<byte>): seq<byte> {
    NonZero(s) + Zeros(|s| - |NonZero(s)|)
  }

  lemma {:induction false} NonZeroAppend(a: seq<byte>, b: seq<byte>)
    ensures NonZero(a + b) == NonZero(a) + NonZero(b)
  {
    if a != [] {
      NonZeroAppend(a[1..], b);
      assert (a + b)[0] == a[0] && (a + b)[1..] == a[1..] + b;
      var head := if a[0] != 0 then [a[0]] else [];
      calc {
        NonZero(a + b);
        head + NonZero(a[1..] + b);
        head + (NonZero(a[1..]) + NonZero(b));
        (head + NonZero(a[1..])) + NonZero(b);
        NonZero(a) + NonZero(b);
      }
    } else {
      assert a + b == b;
    }
  }

  lemma {:induction false} NonZeroOfZeros(z: seq<byte>)
    requires forall c :: 0 <= c < |z| ==> z[c] == 0
    ensures NonZero(z) == []
  {
    if z != [] {
      NonZeroOfZeros(z[1..]);
    }
  }

  lemma {:induction false} NonZeroOfNonZeros(s: seq<byte>)
    requires forall c :: 0 <= c < |s| ==> s[c] != 0
    ensures NonZero(s) == s
  {
    if s != [] {
      NonZeroOfNonZeros(s[1..]);
    }
  }

  /** Compaction is a permutation of the buffer. */
  lemma {:induction false} CompactedIsPermutation(s: seq<byte>)
    ensures |Compacted(s)| == |s|
    ensures multiset(Compacted(s)) == multiset(s)
  {
    if s != [] {
      CompactedIsPermutation(s[1..]);
      var nz, z := NonZero(s[1..]), Zeros(|s[1..]| - |NonZero(s[1..])|);
      assert s == [s[0]] + s[1..];
      if s[0] != 0 {
        assert Compacted(s) == [s[0]] + (nz + z);
      } else {
        assert Compacted(s) == nz + (z + [0]);
        assert z + [0] == [0] + z;
      }
    }
  }

  /** Every NUL in the buffer is followed by NULs only. */
  predicate ZerosLast(s: seq<byte>) {
    forall p, q :: 0 <= p < q < |s| && s[p] == 0 ==> s[q] == 0
  }

  /** A buffer whose NULs all come last is its own compaction. */
  lemma {:induction false} ZerosLastIsCompacted(s: seq<byte>)
    requires ZerosLast(s)
    ensures s == Compacted(s)
  {
    if s != [] {
      if s[0] == 0 {
        NonZeroOfZeros(s);
        assert s == Zeros(|s|);
      } else {
        assert ZerosLast(s[1..]) by {
          forall p, q | 0 <= p < q < |s[1..]| && s[1..][p] == 0 ensures s[1..][q] == 0 {
            assert s[p + 1] == 0;
          }
        }
        ZerosLastIsCompacted(s[1..]);
        assert s == [s[0]] + s[1..];
      }
    }
  }

  /** Moving the first nonzero byte after a run of NULs to the run's start keeps the nonzero bytes. */
  lemma SwapKeepsNonZero(s: seq<byte>, i: nat, j: nat)
    requires i < j < |s| && s[i] == 0 && s[j] != 0
    requires forall k :: i < k < j ==> s[k] == 0
    ensures NonZero(s[i := s[j]][j := 0]) == NonZero(s)
  {
    var t := s[i := s[j]][j := 0];
    var run := s[i + 1 .. j];
    var before, after := s[..i], s[j + 1..];
    var middle, middle' := [0] + run + [s[j]], [s[j]] + run + [0];
    assert s == before + middle + after;
    assert t == before + middle' + after;
    NonZeroOfZeros(run);
    NonZeroOfZeros([0]);
    assert NonZero([s[j]]) == [s[j]];
    NonZeroAppend([0] + run, [s[j]]);
    NonZeroAppend([0], run);
    NonZeroAppend([s[j]] + run, [0]);
    NonZeroAppend([s[j]], run);
    assert NonZero(middle) == NonZero(middle') == [s[j]];
    NonZeroAppend(before + middle, after);
    NonZeroAppend(before, middle);
    NonZeroAppend(before + middle', after);
    NonZeroAppend(before, middle');
  }

  /** Lines 100-108: for each NUL, swap in the next nonzero byte after it. */
  method ShuffleZerosToEnd(out: array<byte>)
    modifies out
    ensures out[..] == Compacted(old(out[..]))
  {
    ghost var a := out[..];
    var c := out.Length;
    for i := 0 to c
      invariant NonZero(out[..]) == NonZero(a)
      invariant forall p, q :: 0 <= p < i && p < q < c && out[p] == 0 ==> out[q] == 0
    {
      if out[i] == 0 {
        for j := i + 1 to c
          invariant out[i] == 0
          invariant NonZero(out[..]) == NonZero(a)
          invariant forall p, q :: 0 <= p < i && p < q < c && out[p] == 0 ==> out[q] == 0
          invariant forall k :: i < k < j ==> out[k] == 0
        {
          if out[j] != 0 {
            SwapKeepsNonZero(out[..], i, j);
            out[i] := out[j];
            out[j] := 0;
            break;
          }
        }
      }
    }
    ZerosLastIsCompacted(out[..]);
    assert |out[..]| == |a|;
  }

  /** A slot whose allele has a `-` at `k`: its bytes before `k`, then `.` or NUL, then NULs. */
  lemma SlotBytesAtDash(chars: seq<byte>, cpa: nat, s: nat, k: nat, w: seq<byte>)
    requires Offset(s, cpa) + cpa <= |chars| && DashNotLast(chars)
    requires k < cpa && Allele(chars, cpa, s)[k] == Dash
    requires forall c :: 0 <= c < k ==> Allele(chars, cpa, s)[c] != Dash
    requires |w| == cpa && forall c :: 0 <= c < k ==> w[c] == Allele(chars, cpa, s)[c]
    requires w[k] == if chars[Offset(s, cpa) + k + 1] == One then Dot else 0
    requires forall c :: k < c < cpa ==> w[c] == 0
    ensures w == SlotBytes(chars, cpa, s)
  {
    assert FirstDash(Allele(chars, cpa, s)) == k;
  }

  /** A slot whose allele has no `-` is the allele itself. */
  lemma SlotBytesWithoutDash(chars: seq<byte>, cpa: nat, s: nat)
    requires Offset(s, cpa) + cpa <= |chars| && DashNotLast(chars)
    requires forall c :: 0 <= c < cpa ==> Allele(chars, cpa, s)[c] != Dash
    ensures SlotBytes(chars, cpa, s) == Allele(chars, cpa, s)
  {
    assert FirstDash(Allele(chars, cpa, s)) == cpa;
  }

  /**
   * Lines 76-99, one slot: its separator, then its bytes up to the first `-`,
   * where a missing allele leaves `.` and a gap removes the slot and its
   * separator. The zeroing slices may run past the slot; nothing before it changes.
   */
  method WriteSlot(chars: seq<byte>, cpa: nat, slot: nat, phased: bool, offsetInp: nat, offsetOut: nat, out: array<byte>)
    requires DashNotLast(chars)
    requires offsetInp == Offset(slot, cpa) && offsetInp + cpa <= |chars|
    requires offsetOut == Offset(slot, cpa + 1) && offsetOut + cpa <= out.Length
    modifies out
    ensures slot > 0 ==> offsetOut > 0 && out[..offsetOut - 1] == old(out[..offsetOut - 1])
    ensures slot > 0 ==> out[offsetOut - 1] == SeparatorBefore(chars, cpa, slot, phased)
    ensures out[offsetOut .. offsetOut + cpa] == SlotBytes(chars, cpa, slot)
  {
    ghost var a := Allele(chars, cpa, slot);
    if slot > 0 {
      out[offsetOut - 1] := Separator(phased);
    }
    for ch := 0 to cpa
      invariant slot > 0 ==> out[..offsetOut - 1] == old(out[..offsetOut - 1])
      invariant slot > 0 ==> out[offsetOut - 1] == Separator(phased)
      invariant forall c :: 0 <= c < ch ==> a[c] != Dash && out[offsetOut + c] == a[c]
    {
      var i := offsetInp + ch;
      var j := offsetOut + ch;
      var val := chars[i];
      if val == Dash {
        assert a[ch] == Dash;
        ghost var before := out[..];
        EndAllele(chars[i + 1], j, cpa, slot > 0, offsetOut - 1, out);
        EndAlleleLayout(chars, cpa, slot, phased, ch, offsetOut, before, out[..]);
        return;
      } else {
        out[j] := val;
      }
    }
    SlotBytesWithoutDash(chars, cpa, slot);
    assert !IsGap(chars, cpa, slot) by {
      assert FirstDash(a) == cpa;
    }
  }

  /** What `EndAllele` leaves behind is the slot's layout, its separator and the untouched prefix. */
  lemma EndAlleleLayout(chars: seq<byte>, cpa: nat, slot: nat, phased: bool, ch: nat, offsetOut: nat,
                        before: seq<byte>, after: seq<byte>)
    requires DashNotLast(chars)
    requires Offset(slot, cpa) + cpa <= |chars|
    requires offsetOut == Offset(slot, cpa + 1) && offsetOut + cpa <= |before| == |after|
    requires ch < cpa && Allele(chars, cpa, slot)[ch] == Dash
    requires forall c :: 0 <= c < ch ==>
      Allele(chars, cpa, slot)[c] != Dash && before[offsetOut + c] == Allele(chars, cpa, slot)[c]
    requires slot > 0 ==> offsetOut > 0 && before[offsetOut - 1] == Separator(phased)
    requires forall k :: 0 <= k < |after| ==>
      var j, next := offsetOut + ch, chars[Offset(slot, cpa) + ch + 1];
      after[k] == if j <= k < j + cpa then (if k == j && next == One then Dot else 0)
                  else if slot > 0 && k == offsetOut - 1 && next != One then 0
                  else before[k]
    ensures slot > 0 ==> after[..offsetOut - 1] == before[..offsetOut - 1]
    ensures slot > 0 ==> after[offsetOut - 1] == SeparatorBefore(chars, cpa, slot, phased)
    ensures after[offsetOut .. offsetOut + cpa] == SlotBytes(chars, cpa, slot)
  {
    assert FirstDash(Allele(chars, cpa, slot)) == ch;
    SlotBytesAtDash(chars, cpa, slot, ch, after[offsetOut .. offsetOut + cpa]);
  }

  /**
   * Lines 83-98: a `-` at output position `j` ends the allele. When the next
   * input byte is `1` the allele is missing: `.` at `j` and NUL over the next
   * `cpa - 1` bytes. Otherwise it is a gap: NUL over `cpa` bytes from `j` and
   * over the separator at `sepAt`, if the slot has one. Slices stop at the end of `out`.
   */
  method EndAllele(next: byte, j: nat, cpa: nat, hasSep: bool, sepAt: int, out: array<byte>)
    requires 1 <= cpa && j < out.Length && (hasSep ==> 0 <= sepAt < j)
    modifies out
    ensures forall k :: 0 <= k < out.Length ==>
      out[k] == if j <= k < j + cpa then (if k == j && next == One then Dot else 0)
                else if hasSep && k == sepAt && next != One then 0
                else old(out[k])
  {
    if next == One {
      out[j] := Dot;
      forall k | j + 1 <= k < j + cpa && k < out.Length {
        out[k] := 0;
      }
    } else {
      forall k | j <= k < j + cpa && k < out.Length {
        out[k] := 0;
      }
      if hasSep {
        out[sepAt] := 0;
      }
    }
  }

  /** Lines 74-99: the slot loop, writing separators and allele bytes into `out`. */
  method WriteSlots(chars: seq<byte>, ploidy: nat, cpa: nat, phased: bool, out: array<byte>)
    requires ploidy >= 1 && Offset(ploidy, cpa) == |chars| && DashNotLast(chars)
    requires out.Length == Offset(ploidy, cpa + 1) - 1
    modifies out
    ensures out[..] == Layout(chars, cpa, ploidy, phased)
  {
    for slot := 0 to ploidy
      invariant Offset(slot, cpa) <= |chars| && Offset(slot, cpa + 1) <= out.Length + 1
      invariant slot >= 1 ==> out[..Offset(slot, cpa + 1) - 1] == Layout(chars, cpa, slot, phased)
    {
      OffsetMonotone(slot, ploidy, cpa);
      OffsetMonotone(slot, ploidy, cpa + 1);
      WriteNextSlot(chars, cpa, slot, phased, out);
    }
    assert out[..] == out[..out.Length];
  }

  /** Lines 77-78: where slot `slot` starts in the input and in the output. */
  method SlotOffsets(slot: nat, cpa: nat) returns (offsetInp: nat, offsetOut: nat)
    ensures offsetInp == Offset(slot, cpa) && offsetOut == Offset(slot, cpa + 1)
  {
    OffsetIsProduct(slot, cpa);
    OffsetIsProduct(slot, cpa + 1);
    offsetInp := slot * cpa;
    offsetOut := slot * (cpa + 1);
  }

  /** One turn of the slot loop: the written prefix grows by one slot of the layout. */
  method WriteNextSlot(chars: seq<byte>, cpa: nat, slot: nat, phased: bool, out: array<byte>)
    requires DashNotLast(chars) && Offset(slot + 1, cpa) <= |chars| && Offset(slot + 1, cpa + 1) <= out.Length + 1
    requires slot >= 1 ==> out[..Offset(slot, cpa + 1) - 1] == Layout(chars, cpa, slot, phased)
    modifies out
    ensures out[..Offset(slot + 1, cpa + 1) - 1] == Layout(chars, cpa, slot + 1, phased)
  {
    var offsetInp, offsetOut := SlotOffsets(slot, cpa);
    assert Offset(slot + 1, cpa + 1) - 1 == offsetOut + cpa;
    ghost var before := out[..];
    WriteSlot(chars, cpa, slot, phased, offsetInp, offsetOut, out);
    if slot == 0 {
      FirstSlotStep(chars, cpa, phased, out[..]);
    } else {
      NextSlotStep(chars, cpa, slot, phased, offsetOut, before, out[..]);
    }
  }

  /** Writing slot 0 makes the written prefix the one-slot layout. */
  lemma FirstSlotStep(chars: seq<byte>, cpa: nat, phased: bool, after: seq<byte>)
    requires DashNotLast(chars) && cpa <= |chars| && cpa <= |after|
    requires after[0 .. cpa] == SlotBytes(chars, cpa, 0)
    ensures cpa == Offset(1, cpa) && after[..cpa] == Layout(chars, cpa, 1, phased)
  {
    assert after[..cpa] == after[0 .. cpa];
  }

  /** Writing slot `slot > 0` and its separator after the layout of the earlier slots extends that layout. */
  lemma NextSlotStep(chars: seq<byte>, cpa: nat, slot: nat, phased: bool, p: nat, before: seq<byte>, after: seq<byte>)
    requires DashNotLast(chars) && Offset(slot + 1, cpa) <= |chars| && slot >= 1
    requires 1 <= p && p + cpa <= |after| && |before| == |after|
    requires before[..p - 1] == Layout(chars, cpa, slot, phased)
    requires after[..p - 1] == before[..p - 1] && after[p - 1] == SeparatorBefore(chars, cpa, slot, phased)
    requires after[p .. p + cpa] == SlotBytes(chars, cpa, slot)
    ensures after[..p + cpa] == Layout(chars, cpa, slot + 1, phased)
  {
    PrefixExtend(before, after, p, SeparatorBefore(chars, cpa, slot, phased), SlotBytes(chars, cpa, slot));
  }

  /** Writing a separator at `p - 1` and a slot from `p` on, past an unchanged prefix, extends that prefix. */
  lemma PrefixExtend(before: seq<byte>, after: seq<byte>, p: nat, sep: byte, w: seq<byte>)
    requires 1 <= p && p + |w| <= |after| && |before| == |after|
    requires after[..p - 1] == before[..p - 1] && after[p - 1] == sep
    requires after[p .. p + |w|] == w
    ensures after[..p + |w|] == before[..p - 1] + [sep] + w
  {
    assert after[..p + |w|] == after[..p - 1] + [after[p - 1]] + after[p .. p + |w|];
  }

  /**
   * `_format_genotype_bytes` for one call: `chars` holds the `ploidy` alleles'
   * text, `len(chars) // ploidy` bytes each, and `out` has room for them and
   * `ploidy - 1` separators.
   */
  method FormatGenotypeBytes(chars: seq<byte>, ploidy: nat, phased: bool, out: array<byte>)
    requires ploidy >= 1 && |chars| % ploidy == 0 && DashNotLast(chars)
    requires out.Length == |chars| + ploidy - 1
    modifies out
    ensures Offset(ploidy, |chars| / ploidy) == |chars|
    ensures out[..] == Compacted(Layout(chars, |chars| / ploidy, ploidy, phased))
  {
    var cpa := |chars| / ploidy;
    OffsetIsProduct(ploidy, cpa);
    OffsetIsProduct(ploidy, cpa + 1);
    WriteSlots(chars, ploidy, cpa, phased, out);
    ShuffleZerosToEnd(out);
  }
}
