/**
 * What `_format_genotype_bytes` of sgkit/display.py produces for the input
 * `genotype_as_bytes` gives it: each allele of a call is cast to a
 * fixed-width byte string (`astype("|S{max_allele_chars}")`), so a called
 * allele is its decimal digits, a missing allele `-1` and a gap `-2`, each
 * padded with NUL bytes. The formatted text is the VCF GT field: the called
 * alleles and `.` for missing ones, separated by `/` or `|`, with gaps and
 * their separators dropped.
 */
module GenotypeText {
  import opened GenotypeBytes

  /** One allele of a call, as the integer encoding distinguishes it. */
  datatype AlleleCode = Called(digits: seq<byte>) | Missing | Gap

  /** The allele's text fits the byte width and a called allele's text is plain nonzero digits. */
  predicate Fits(g: AlleleCode, cpa: nat) {
    match g
    case Called(digits) => |digits| <= cpa && forall c :: 0 <= c < |digits| ==> digits[c] != 0 && digits[c] != Dash
    case Missing => cpa >= 2
    case Gap => cpa >= 2
  }

  predicate AllFit(gs: seq<AlleleCode>, cpa: nat) {
    forall s :: 0 <= s < |gs| ==> Fits(gs[s], cpa)
  }

  /** The text of the integer: its digits, `-1` or `-2`. */
  function Text(g: AlleleCode): seq<byte> {
    match g
    case Called(digits) => digits
    case Missing => [Dash, One]
    case Gap => [Dash, 50]
  }

  /** The fixed-width byte string of one allele. */
  function Padded(g: AlleleCode, cpa: nat): (p: seq<byte>)
    requires Fits(g, cpa)
    ensures |p| == cpa
  {
    Text(g) + Zeros(cpa - |Text(g)|)
  }

  /** The input bytes of a call: the alleles' byte strings end to end. */
  function Encode(gs: seq<AlleleCode>, cpa: nat): (chars: seq<byte>)
    requires AllFit(gs, cpa)
    ensures |chars| == Offset(|gs|, cpa)
  {
    if gs == [] then [] else Encode(gs[..|gs| - 1], cpa) + Padded(gs[|gs| - 1], cpa)
  }

  /** How an allele appears in the GT field. */
  function Shown(g: AlleleCode): seq<byte> {
    match g
    case Called(digits) => digits
    case Missing => [Dot]
    case Gap => []
  }

  /**
   * The GT field: each allele shown in turn, each one after the first
   * preceded by the separator unless it is a gap.
   */
  function Render(gs: seq<AlleleCode>, phased: bool): seq<byte> {
    if gs == [] then []
    else
      var last := gs[|gs| - 1];
      Render(gs[..|gs| - 1], phased) + (if |gs| > 1 && !last.Gap? then [Separator(phased)] else []) + Shown(last)
  }

  /** Slot `s` of `chars` is the byte string of allele `s`, for every allele of `gs`. */
  predicate SlotsHold(chars: seq<byte>, gs: seq<AlleleCode>, cpa: nat)
    requires AllFit(gs, cpa)
  {
    |chars| == Offset(|gs|, cpa) &&
    forall s :: 0 <= s < |gs| ==> Offset(s, cpa) + cpa <= |chars| && Allele(chars, cpa, s) == Padded(gs[s], cpa)
  }

  /** Appending one allele's byte string adds its slot and keeps the others. */
  lemma SlotsExtend(prev: seq<byte>, init: seq<AlleleCode>, g: AlleleCode, cpa: nat)
    requires AllFit(init, cpa) && Fits(g, cpa) && SlotsHold(prev, init, cpa)
    ensures AllFit(init + [g], cpa) && SlotsHold(prev + Padded(g, cpa), init + [g], cpa)
  {
    var gs, chars := init + [g], prev + Padded(g, cpa);
    assert AllFit(gs, cpa) by {
      forall s | 0 <= s < |gs| ensures Fits(gs[s], cpa) {
        if s < |init| { assert gs[s] == init[s]; }
      }
    }
    forall s | 0 <= s < |gs|
      ensures Offset(s, cpa) + cpa <= |chars| && Allele(chars, cpa, s) == Padded(gs[s], cpa)
    {
      if s < |init| {
        assert gs[s] == init[s];
        EarlierSlotKept(prev, Padded(g, cpa), cpa, s, |init|);
      } else {
        assert chars[Offset(s, cpa) .. Offset(s, cpa) + cpa] == Padded(g, cpa);
      }
    }
  }

  /** Appending bytes after slot `n - 1` leaves every earlier slot as it was. */
  lemma EarlierSlotKept(prev: seq<byte>, tail: seq<byte>, cpa: nat, s: nat, n: nat)
    requires s < n && |prev| == Offset(n, cpa)
    ensures Offset(s, cpa) + cpa <= |prev|
    ensures Allele(prev + tail, cpa, s) == Allele(prev, cpa, s)
  {
    OffsetMonotone(s, n, cpa);
    SliceOfConcat(prev, tail, Offset(s, cpa), Offset(s, cpa) + cpa);
  }

  /** The encoded input holds each allele's byte string in its slot. */
  lemma {:induction false} EncodeSlots(gs: seq<AlleleCode>, cpa: nat)
    requires AllFit(gs, cpa)
    ensures SlotsHold(Encode(gs, cpa), gs, cpa)
  {
    if gs != [] {
      var init := gs[..|gs| - 1];
      assert AllFit(init, cpa);
      EncodeSlots(init, cpa);
      SlotsExtend(Encode(init, cpa), init, gs[|gs| - 1], cpa);
      assert init + [gs[|gs| - 1]] == gs;
    }
  }

  lemma SliceOfConcat(p: seq<byte>, q: seq<byte>, lo: nat, hi: nat)
    requires lo <= hi <= |p|
    ensures (p + q)[lo .. hi] == p[lo .. hi]
  {
  }

  lemma PaddedLastNotDash(g: AlleleCode, cpa: nat)
    requires Fits(g, cpa) && cpa >= 1
    ensures Padded(g, cpa)[cpa - 1] != Dash
  {
  }

  /** An encoded call never ends in `-`, so the kernel's look-ahead stays inside the input. */
  lemma {:induction false} EncodedDashNotLast(gs: seq<AlleleCode>, cpa: nat)
    requires AllFit(gs, cpa)
    ensures DashNotLast(Encode(gs, cpa))
  {
    if gs != [] {
      var init := gs[..|gs| - 1];
      assert AllFit(init, cpa);
      if cpa == 0 {
        EncodedDashNotLast(init, cpa);
        assert Encode(gs, cpa) == Encode(init, cpa);
      } else {
        PaddedLastNotDash(gs[|gs| - 1], cpa);
      }
    }
  }

  /** `chars` holds the byte strings of `gs`, slot by slot, and satisfies the kernel's input condition. */
  predicate Encodes(chars: seq<byte>, gs: seq<AlleleCode>, cpa: nat) {
    AllFit(gs, cpa) && SlotsHold(chars, gs, cpa) && DashNotLast(chars)
  }

  lemma EncodeEncodes(gs: seq<AlleleCode>, cpa: nat)
    requires AllFit(gs, cpa)
    ensures Encodes(Encode(gs, cpa), gs, cpa)
  {
    EncodedDashNotLast(gs, cpa);
    EncodeSlots(gs, cpa);
  }

  /** The output slot of an encoded allele is how it is shown, NUL-padded, and it is a gap exactly when it is one. */
  lemma SlotOfEncode(chars: seq<byte>, gs: seq<AlleleCode>, cpa: nat, s: nat)
    requires Encodes(chars, gs, cpa) && s < |gs|
    ensures Offset(s, cpa) + cpa <= |chars|
    ensures |Shown(gs[s])| <= cpa
    ensures SlotBytes(chars, cpa, s) == Shown(gs[s]) + Zeros(cpa - |Shown(gs[s])|)
    ensures IsGap(chars, cpa, s) <==> gs[s].Gap?
  {
    SlotOfAllele(chars, cpa, s, gs[s]);
  }

  lemma SlotOfAllele(chars: seq<byte>, cpa: nat, s: nat, g: AlleleCode)
    requires Offset(s, cpa) + cpa <= |chars| && DashNotLast(chars)
    requires Fits(g, cpa) && Allele(chars, cpa, s) == Padded(g, cpa)
    ensures |Shown(g)| <= cpa
    ensures SlotBytes(chars, cpa, s) == Shown(g) + Zeros(cpa - |Shown(g)|)
    ensures IsGap(chars, cpa, s) <==> g.Gap?
  {
    var a := Allele(chars, cpa, s);
    var k := FirstDash(a);
    if g.Called? {
      assert forall c :: 0 <= c < cpa ==> a[c] != Dash;
      assert k == cpa;
    } else {
      assert a[0] == Dash && a[1] == Text(g)[1];
      assert k == 0;
      assert chars[Offset(s, cpa) + 1] == a[1];
    }
  }

  /** Compacting the output slot of an encoded allele leaves what the allele shows. */
  lemma SlotCompacts(chars: seq<byte>, gs: seq<AlleleCode>, cpa: nat, s: nat)
    requires Encodes(chars, gs, cpa) && s < |gs|
    ensures Offset(s, cpa) + cpa <= |chars|
    ensures NonZero(SlotBytes(chars, cpa, s)) == Shown(gs[s])
  {
    SlotOfEncode(chars, gs, cpa, s);
    ShownSurvivesCompaction(gs[s], cpa);
  }

  /** Compacting a slot leaves what the allele shows. */
  lemma ShownSurvivesCompaction(g: AlleleCode, cpa: nat)
    requires Fits(g, cpa)
    ensures |Shown(g)| <= cpa
    ensures NonZero(Shown(g) + Zeros(cpa - |Shown(g)|)) == Shown(g)
  {
    NonZeroAppend(Shown(g), Zeros(cpa - |Shown(g)|));
    NonZeroOfZeros(Zeros(cpa - |Shown(g)|));
    NonZeroOfNonZeros(Shown(g));
  }

  /** The GT text of one more allele. */
  lemma RenderStep(gs: seq<AlleleCode>, k: nat, phased: bool)
    requires 1 <= k <= |gs|
    ensures Render(gs[..k], phased) ==
      Render(gs[..k - 1], phased) + (if k > 1 && !gs[k - 1].Gap? then [Separator(phased)] else []) + Shown(gs[k - 1])
  {
    assert gs[..k][..k - 1] == gs[..k - 1];
  }

  lemma NonZeroAppend3(a: seq<byte>, b: seq<byte>, c: seq<byte>)
    ensures NonZero(a + b + c) == NonZero(a) + NonZero(b) + NonZero(c)
  {
    NonZeroAppend(a + b, c);
    NonZeroAppend(a, b);
  }

  /** The byte before slot `s` survives compaction exactly when allele `s` is not a gap. */
  lemma SeparatorSurvivesCompaction(chars: seq<byte>, gs: seq<AlleleCode>, cpa: nat, s: nat, phased: bool)
    requires Encodes(chars, gs, cpa) && s < |gs|
    ensures Offset(s, cpa) + cpa <= |chars|
    ensures NonZero([SeparatorBefore(chars, cpa, s, phased)]) == if gs[s].Gap? then [] else [Separator(phased)]
  {
    SlotOfEncode(chars, gs, cpa, s);
  }

  /** The nonzero bytes of the first `k` laid-out slots are the GT text of the first `k` alleles. */
  lemma {:induction false} LayoutRenders(chars: seq<byte>, gs: seq<AlleleCode>, cpa: nat, k: nat, phased: bool)
    requires Encodes(chars, gs, cpa) && k <= |gs|
    ensures Offset(k, cpa) <= |chars|
    ensures NonZero(Layout(chars, cpa, k, phased)) == Render(gs[..k], phased)
  {
    if k < |gs| {
      OffsetMonotone(k, |gs|, cpa);
    }
    if k == 0 {
      assert gs[..0] == [];
    } else if k == 1 {
      SlotCompacts(chars, gs, cpa, 0);
      RenderStep(gs, 1, phased);
      assert gs[..0] == [];
    } else {
      LayoutRenders(chars, gs, cpa, k - 1, phased);
      SlotCompacts(chars, gs, cpa, k - 1);
      SeparatorSurvivesCompaction(chars, gs, cpa, k - 1, phased);
      LayoutRendersStep(chars, gs, cpa, k, phased);
    }
  }

  /** One more slot: its separator and its bytes compact to the next allele's part of the GT text. */
  lemma LayoutRendersStep(chars: seq<byte>, gs: seq<AlleleCode>, cpa: nat, k: nat, phased: bool)
    requires DashNotLast(chars) && 2 <= k <= |gs| && Offset(k, cpa) <= |chars|
    requires NonZero(Layout(chars, cpa, k - 1, phased)) == Render(gs[..k - 1], phased)
    requires NonZero([SeparatorBefore(chars, cpa, k - 1, phased)]) == if gs[k - 1].Gap? then [] else [Separator(phased)]
    requires NonZero(SlotBytes(chars, cpa, k - 1)) == Shown(gs[k - 1])
    ensures NonZero(Layout(chars, cpa, k, phased)) == Render(gs[..k], phased)
  {
    RenderStep(gs, k, phased);
    var prev, sep, slot := Layout(chars, cpa, k - 1, phased), SeparatorBefore(chars, cpa, k - 1, phased), SlotBytes(chars, cpa, k - 1);
    assert Layout(chars, cpa, k, phased) == prev + [sep] + slot;
    NonZeroAppend3(prev, [sep], slot);
  }

  /** Compaction leaves the GT text of the whole call, then NUL padding. */
  lemma CompactedRenders(chars: seq<byte>, gs: seq<AlleleCode>, cpa: nat, phased: bool)
    requires Encodes(chars, gs, cpa)
    ensures Offset(|gs|, cpa) <= |chars|
    ensures NonZero(Layout(chars, cpa, |gs|, phased)) == Render(gs, phased)
    ensures Compacted(Layout(chars, cpa, |gs|, phased)) ==
      Render(gs, phased) + Zeros(|Layout(chars, cpa, |gs|, phased)| - |Render(gs, phased)|)
  {
    LayoutRenders(chars, gs, cpa, |gs|, phased);
    assert gs[..|gs|] == gs;
  }

  /**
   * For a call encoded as `genotype_as_bytes` encodes it, the formatted
   * buffer is the GT field followed by NUL padding.
   */
  lemma FormatsAsGenotypeField(gs: seq<AlleleCode>, cpa: nat, phased: bool)
    requires AllFit(gs, cpa)
    ensures |Encode(gs, cpa)| == |gs| * cpa && DashNotLast(Encode(gs, cpa))
    ensures NonZero(Layout(Encode(gs, cpa), cpa, |gs|, phased)) == Render(gs, phased)
    ensures Compacted(Layout(Encode(gs, cpa), cpa, |gs|, phased)) ==
      Render(gs, phased) + Zeros(|Layout(Encode(gs, cpa), cpa, |gs|, phased)| - |Render(gs, phased)|)
  {
    OffsetIsProduct(|gs|, cpa);
    EncodeEncodes(gs, cpa);
    CompactedRenders(Encode(gs, cpa), gs, cpa, phased);
  }
}
