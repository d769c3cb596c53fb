# sgkit population-genetics kernels and genotype display, in Dafny

This project models two parts of sgkit.

The first is the core of `sgkit/stats/popgen.py`:
- nucleotide diversity per variant and cohort;
- the `_divergence` kernel, which fills a cohorts x cohorts matrix with between-cohort divergence and puts within-cohort diversity on the diagonal;
- the Fst kernels with Hudson's and Nei's estimators, and the `Fst` estimator dispatch;
- the population branching statistic kernel `_pbs`;
- Tajima's D: the segregating-site count S, the sample size n, Watterson's theta, the variance constants and the zero-deviation guard;
- block-wise application of a kernel with `map_blocks`.

The second is the byte-level formatting of a genotype call in `sgkit/display.py`:
- `_format_genotype_bytes` writes a call as VCF GT text (section 1.6.2 of the VCF 4.3 specification);
- the index arithmetic of `truncate` selects the head and tail of each long dimension.

Floating-point values are exact reals. NaN is the explicit cell `Undefined`, and arithmetic on it gives `Undefined`. Counts are unbounded naturals.

The kernels that fill an `out` buffer in nested loops are methods over `array2`, `array3` or `array` buffers. Each is proved to produce, cell by cell, a specification function of its input. The properties promised by the source are then proved as lemmas about those functions:
- definedness;
- symmetry;
- bounds;
- the cancellation that makes the divergence diagonal equal the diversity;
- the compacted display buffer being the GT text followed by NUL bytes.

Modules:
- `Cells`: NaN-aware cells.
- `Counts`: sums over the allele axis.
- `Results`: `Option` and `Result`.
- `NucleotideDiversity`.
- `Divergence`.
- `Blocks`: `map_blocks`.
- `Fst`.
- `Pbs`.
- `TajimasD`.
- `GenotypeBytes`: `_format_genotype_bytes`.
- `GenotypeText`: what the formatter makes of the byte strings that `genotype_as_bytes` passes it.
- `Truncate`.

## Model

| member | source | states |
|---|---|---|
| Counts.SharedSymmetric | sgkit/stats/popgen.py:144-147 | the number of same-allele pairs drawn one from each of two cohorts, Σ ac[i,k]*ac[j,k], is symmetric in the two cohorts |
| Counts.SharedAtMostProduct | sgkit/stats/popgen.py:144-148 | same-allele cross pairs never exceed all cross pairs an[i]*an[j], so n_diff is nonnegative |
| Counts.SharedOfEmptyCohort | sgkit/stats/popgen.py:144-147 | a cohort with no called allele shares no pair with any cohort, so an unguarded zero denominator comes with a zero numerator |
| Counts.SameWithinBounds | sgkit/stats/popgen.py:155-158 | the ordered same-allele pairs within a cohort, Σ ac[k]*(ac[k]-1), lie between 0 and an*(an-1) |
| Counts.ObservedAtMostTotal | sgkit/stats/popgen.py:543 | the number of alleles with a positive count is at most the number of called alleles |
| NucleotideDiversity.PairsWithin | sgkit/stats/popgen.py:87 | n_same, the floating-point sum of ac*(ac-1)/2 over the alleles; PairsWithinIsHalfSameWithin and PairsWithinBounds state it |
| NucleotideDiversity.PairsWithinIsHalfSameWithin | sgkit/stats/popgen.py:87 | the floating-point n_same, Σ ac*(ac-1)/2, is half the integer count of ordered same-allele pairs |
| NucleotideDiversity.HalfPairs | sgkit/stats/popgen.py:86 | n_pairs = an*(an-1)/2, the unordered pairs of called alleles; PairCounts states it |
| NucleotideDiversity.PairCounts | sgkit/stats/popgen.py:86 | n_pairs = an*(an-1)/2 is half the ordered pair count, and that count is zero exactly when an <= 1 |
| NucleotideDiversity.PairsWithinBounds | sgkit/stats/popgen.py:86-88 | 0 <= n_same <= n_pairs |
| NucleotideDiversity.Diversity | sgkit/stats/popgen.py:84-91 | the diversity of one cohort at one variant, (n_pairs - n_same) / n_pairs with NaN where n_pairs is zero; its meaning is stated by DiversityIsProbability |
| NucleotideDiversity.DiversityIsProbability | sgkit/stats/popgen.py:84-91 | diversity is NaN exactly when the cohort has at most one called allele, and otherwise lies in [0, 1] |
| NucleotideDiversity.DiversityTensor | sgkit/stats/popgen.py:84-91 | stat_diversity has one row per variant and one cell per cohort of that variant |
| NucleotideDiversity.DiversityUndefinedWhereUncalled | sgkit/stats/popgen.py:89-91 | in the diversity tensor a cohort with fewer than two called alleles gets NaN, never 0 |
| Divergence.Between | sgkit/stats/popgen.py:144-149 | the unguarded quotient (an[i]*an[j] - n_same) / (an[i]*an[j]) is NaN exactly when a cohort has no called allele (0/0, never an infinity), and otherwise lies in [0, 1] |
| Divergence.Within | sgkit/stats/popgen.py:155-162 | the diagonal value n_diff / n_pairs over ordered pairs, NaN where n_pairs is zero; WithinIsDiversity relates it to the diversity |
| Divergence.DivergenceCell | sgkit/stats/popgen.py:142-162 | cell (i, j) of the kernel's output: the within-cohort value on the diagonal, the divergence of the pair off it |
| Divergence.BetweenSymmetric | sgkit/stats/popgen.py:148-151 | the value written to (i, j) and (j, i) does not depend on the order of the cohorts |
| Divergence.WithinIsDiversity | sgkit/stats/popgen.py:155-162 | the diagonal value n_diff / n_pairs over ordered pairs equals the diversity of lines 84-91: the factor 2 cancels, and both are NaN for the same cohorts |
| Divergence.DivergenceMatrix | sgkit/stats/popgen.py:126-162 | the output matrix is symmetric and carries each cohort's diversity on its diagonal |
| Divergence.DivergenceTensor | sgkit/stats/popgen.py:254-256 | the block-mapped kernel gives, for every variant, that variant's divergence matrix |
| Divergence.CountShared | sgkit/stats/popgen.py:145-147 | the inner loop returns Σ_k ac[i,k]*ac[j,k] |
| Divergence.CountSameWithin | sgkit/stats/popgen.py:156-158 | the inner loop returns Σ_k ac[i,k]*(ac[i,k]-1) |
| Divergence.DivergenceKernel | sgkit/stats/popgen.py:137-162 | after the NaN fill and both loops, every cell of `out` is the divergence of its pair off the diagonal and the within-cohort value on it |
| Divergence.FillBetween | sgkit/stats/popgen.py:142-151 | the pair loop writes the divergence to both (i, j) and (j, i) for every i != j and leaves the diagonal NaN |
| Divergence.FillWithin | sgkit/stats/popgen.py:154-162 | the diagonal loop writes the within-cohort value where the pair count is nonzero, leaves NaN elsewhere on the diagonal, and changes nothing off it |
| Blocks.MapRows | sgkit/stats/popgen.py:256 | applying the kernel over the variant axis gives one result per variant, in order, each the kernel of that variant's row |
| Blocks.MapChunks | sgkit/stats/popgen.py:255-256 | chunk-wise application gives one result chunk per input chunk, of the same length |
| Blocks.MapRowsConcat | sgkit/stats/popgen.py:256 | mapping a kernel commutes with concatenation of variant chunks |
| Blocks.ChunkingIsInvisible | sgkit/stats/popgen.py:255-256 | the concatenated chunk results equal the kernel mapped over all variants, whatever the chunking |
| Fst.HudsonMatrix | sgkit/stats/popgen.py:310-317 | Hudson's Fst matrix has a NaN diagonal and is symmetric |
| Fst.NeiMatrix | sgkit/stats/popgen.py:342-350 | Nei's Fst matrix has a NaN diagonal and is symmetric |
| Fst.HudsonCell | sgkit/stats/popgen.py:310-317 | cell (i, j) of Hudson's Fst: NaN on the diagonal, and for the lower index i the guarded 1 - ((d[i,i]+d[j,j])/2)/d[i,j]; HudsonDefinedness states when it is defined |
| Fst.NeiCell | sgkit/stats/popgen.py:342-350 | cell (i, j) of Nei's Fst: NaN on the diagonal, and for the lower index i the guarded 1 - 2(d[i,i]+d[j,j])/den; NeiDefinedness states when it is defined |
| Fst.EstimatorMatrix | sgkit/stats/popgen.py:437-451 | the matrix of the selected estimator's kernel |
| Fst.HudsonDefinedness | sgkit/stats/popgen.py:312-317 | for i < j the cell is NaN exactly when d[i,j] is zero or an input is NaN, and otherwise is 1 - ((d[i,i]+d[j,j])/2)/d[i,j] |
| Fst.NeiDefinedness | sgkit/stats/popgen.py:344-350 | for i < j the cell is NaN exactly when den = d[i,i]+2d[i,j]+d[j,j] is zero or an input is NaN, and otherwise is 1 - 2(d[i,i]+d[j,j])/den |
| Fst.HudsonAtMostOne | sgkit/stats/popgen.py:314-315 | with nonnegative diversities and a positive divergence, Hudson's Fst is defined and at most 1 |
| Fst.NeiWithinUnit | sgkit/stats/popgen.py:346-348 | with nonnegative inputs, not all zero, Nei's Fst is defined and lies in [-1, 1] |
| Fst.FstReadsUpperTriangle | sgkit/stats/popgen.py:312-315 | neither estimator reads a cell below the diagonal of d: matrices that agree on and above it give the same Fst |
| Fst.FstHudsonKernel | sgkit/stats/popgen.py:310-317 | after the NaN fill and the guarded pair loop, every cell of `out` is Hudson's Fst of its pair |
| Fst.FstNeiKernel | sgkit/stats/popgen.py:342-350 | after the NaN fill and the guarded pair loop, every cell of `out` is Nei's Fst of its pair |
| Fst.UnknownEstimatorMessage | sgkit/stats/popgen.py:439-441 | the ValueError text: the name that was given and the known names `dict_keys(['Hudson', 'Nei'])`; SelectEstimator returns it for every other name |
| Fst.SelectEstimator | sgkit/stats/popgen.py:437-442 | no name selects Hudson, "Hudson" and "Nei" select their estimator, and every other name is an error with the ValueError's message |
| Fst.FstTensor | sgkit/stats/popgen.py:437-451 | succeeds exactly when the estimator name is valid; then every block is Nei's matrix of its divergence when the name is "Nei" and Hudson's otherwise (no name or "Hudson"), each with a NaN diagonal and symmetric |
| Fst.UnknownEstimatorFailsFirst | sgkit/stats/popgen.py:437-441 | an unknown estimator fails with the same error whatever the divergence input, before anything is computed |
| Pbs.NormAtLeastOne | sgkit/stats/popgen.py:599 | with the nonnegative t that the clip and log transform produce, norm is at least 1 where it is defined, so it is never zero |
| Pbs.Norm | sgkit/stats/popgen.py:599 | norm = 1 + (t[i,j] + t[i,k] + t[j,k]) / 2 |
| Pbs.PbsCell | sgkit/stats/popgen.py:595-601 | cell (i, j, k) of the output: the ratio of lines 598-600 for an ascending triple, NaN otherwise; PbsBounded and PbsValue state its meaning |
| Pbs.PbsTensor | sgkit/stats/popgen.py:590-601 | the output is a cohorts^3 cube in which every cell that is not an ascending triple i < j < k, including every permutation of one, stays NaN |
| Pbs.PbsBlocks | sgkit/stats/popgen.py:676-678 | the block-mapped kernel gives, for every window, that window's PBS cube |
| Pbs.PbsBounded | sgkit/stats/popgen.py:598-600 | for i < j < k the cell is defined exactly when the three entries of t it reads are, and then it lies strictly between -1 and 1 |
| Pbs.PbsValue | sgkit/stats/popgen.py:598-600 | a written cell is ((t[i,j]+t[i,k]-t[j,k])/2) / (1+(t[i,j]+t[i,k]+t[j,k])/2) |
| Pbs.PbsReadsStrictUpper | sgkit/stats/popgen.py:595-600 | only the strict upper triangle of t is read |
| Pbs.PbsKernel | sgkit/stats/popgen.py:592-601 | after the NaN fill and the triple loop, every cell of `out` is the PBS cell of its triple |
| TajimasD.SegregatingSites | sgkit/stats/popgen.py:543 | S, the number of variants with more than one observed allele, is at most the number of variants |
| TajimasD.SegregatingSitesAdditive | sgkit/stats/popgen.py:543 | S of concatenated variant chunks is the sum of the chunks' S |
| TajimasD.MaxTotal | sgkit/stats/popgen.py:548 | n, the largest allele total over the variants; MaxTotalIsUpperBound and MaxTotalAttained state it |
| TajimasD.MaxTotalIsUpperBound | sgkit/stats/popgen.py:548 | no variant has more called alleles than n |
| TajimasD.MaxTotalAttained | sgkit/stats/popgen.py:548 | some variant has exactly n called alleles |
| TajimasD.NoSegregatingSitesInSmallSamples | sgkit/stats/popgen.py:543-548 | when n <= 1 no variant segregates, so S = 0 |
| TajimasD.A1 | sgkit/stats/popgen.py:551 | a1, the sum of 1/i for 1 <= i < n, which is empty and so 0 for n <= 1; HarmonicBounds states it |
| TajimasD.A2 | sgkit/stats/popgen.py:564 | a2, the sum of 1/i^2 for 1 <= i < n, which is 0 for n <= 1; HarmonicBounds states it |
| TajimasD.HarmonicBounds | sgkit/stats/popgen.py:551 | a1 >= 1 once n >= 2, and a1, a2 >= 0 |
| TajimasD.E1 | sgkit/stats/popgen.py:565-569 | e1 = (b1 - 1/a1) / a1 with b1 = (n+1)/(3(n-1)), for n >= 2 |
| TajimasD.E2 | sgkit/stats/popgen.py:564-570 | e2 = c2 / (a1^2 + a2) with c2 = b2 - (n+2)/(a1 n) + a2/a1^2 and b2 = 2(n^2+n+3)/(9n(n-1)), for n >= 2 |
| TajimasD.Variance | sgkit/stats/popgen.py:551-571 | e1*S + e2*S*(S-1), the square of d_stdev, and NaN for n <= 1 where the float constants are inf - inf or 0/0; VarianceWithoutSites states its value without sites |
| TajimasD.StdDev | sgkit/stats/popgen.py:571 | d_stdev = sqrt(variance), NaN for a NaN or negative variance; StdDevZeroIff states when it is zero |
| TajimasD.WattersonTheta | sgkit/stats/popgen.py:551-554 | theta = S / a1; WattersonThetaDefinedness states its meaning |
| TajimasD.Theta | sgkit/stats/popgen.py:543-554 | Watterson's theta of the variants, from their S and n |
| TajimasD.Standardize | sgkit/stats/popgen.py:561-577 | the scalar NaN when d_stdev == 0, otherwise (div - theta) / d_stdev in every diversity cell; StandardizeCells and StandardizeGuard state its meaning |
| TajimasD.Tajima | sgkit/stats/popgen.py:540-577 | Tajimas_D of the pooled counts and the diversity: a failure without variants, otherwise the standardized difference; TajimaGuard and NoSegregatingSitesNoD state its meaning |
| TajimasD.WattersonThetaDefinedness | sgkit/stats/popgen.py:551-554 | theta is NaN exactly when n <= 1; otherwise it is nonnegative and theta * a1 = S |
| TajimasD.VarianceWithoutSites | sgkit/stats/popgen.py:565-571 | with S = 0 the variance e1*S + e2*S*(S-1) is 0, or NaN when n <= 1 |
| TajimasD.StdDevZeroIff | sgkit/stats/popgen.py:571-573 | d_stdev = sqrt(variance) is zero exactly when the variance is zero |
| TajimasD.StandardizeCells | sgkit/stats/popgen.py:561-577 | away from the guard, D keeps the shape of the diversity, and each cell is NaN exactly where the diversity, theta or d_stdev is; otherwise it is (div - theta) / d_stdev |
| TajimasD.StandardizeGuard | sgkit/stats/popgen.py:573-577 | D is the scalar NaN exactly when the variance is zero |
| TajimasD.TajimaGuard | sgkit/stats/popgen.py:543-577 | for a nonempty variant set D is computed, and it collapses to the scalar NaN exactly when the variance of S and n is zero |
| TajimasD.TajimaOfNoVariants | sgkit/stats/popgen.py:548 | with no variant, the maximum over an empty axis raises, whatever the diversity |
| TajimasD.NoSegregatingSitesNoD | sgkit/stats/popgen.py:543-577 | with no segregating site, nothing in D is a number |
| TajimasD.UndefinedWithoutDeviation | sgkit/stats/popgen.py:571-577 | a zero or NaN variance leaves every part of D NaN |
| GenotypeBytes.FirstDash | sgkit/display.py:81-85 | the position of the first `-` byte of an allele, or its width when it has none |
| GenotypeBytes.OffsetIsProduct | sgkit/display.py:77-78 | the slot offsets are slot*chars_per_allele in the input and slot*(chars_per_allele+1) in the output |
| GenotypeBytes.OffsetMonotone | sgkit/display.py:76-78 | consecutive slots are one width apart, and later slots start no earlier |
| GenotypeBytes.SlotBytes | sgkit/display.py:81-99 | what slot s should hold: the allele's bytes before its first `-`, then `.` for `-1` or NUL for a gap, then NULs; SlotBytesAtDash and SlotBytesWithoutDash tie it to the writes |
| GenotypeBytes.SeparatorBefore | sgkit/display.py:73-96 | the byte before slot s: a vertical bar (124) when phased, `/` (47) otherwise, or NUL when the slot is a gap |
| GenotypeBytes.Layout | sgkit/display.py:76-99 | the buffer after the slot loop: the slots joined by their separators; LayoutSlot and WriteSlots state it |
| GenotypeBytes.Compacted | sgkit/display.py:100-108 | the nonzero bytes in order followed by NULs; CompactedIsPermutation and ShuffleZerosToEnd state it |
| GenotypeBytes.JoinLength | sgkit/display.py:138 | ploidy slots of chars_per_allele bytes and their separators take ploidy*chars_per_allele + ploidy - 1 bytes |
| GenotypeBytes.JoinSlot | sgkit/display.py:77-80 | slot s sits at s*(chars_per_allele+1), with its separator in the byte before it when s > 0 |
| GenotypeBytes.LayoutIsJoin | sgkit/display.py:76-99 | the buffer written slot by slot is the slots joined with their separators |
| GenotypeBytes.LayoutSlot | sgkit/display.py:76-99 | in the written buffer, of length ploidy*chars_per_allele + ploidy - 1, slot s holds the slot's bytes and, for s > 0, is preceded by its separator |
| GenotypeBytes.NonZeroAppend | sgkit/display.py:100-108 | the nonzero bytes of a concatenation are those of its parts, in order |
| GenotypeBytes.CompactedIsPermutation | sgkit/display.py:100-108 | compaction keeps the length and the multiset of bytes |
| GenotypeBytes.ZerosLastIsCompacted | sgkit/display.py:100-108 | a buffer whose NUL bytes all come last is its own compaction |
| GenotypeBytes.SwapKeepsNonZero | sgkit/display.py:103-107 | moving the first nonzero byte after a run of NULs into the run's first position keeps the nonzero bytes in order |
| GenotypeBytes.ShuffleZerosToEnd | sgkit/display.py:100-108 | the swap loop leaves the nonzero bytes at the front in their original order, followed by NULs |
| GenotypeBytes.SlotBytesAtDash | sgkit/display.py:85-97 | bytes copied up to a `-`, then `.` or NUL at the dash and NULs after it, are the slot's specified bytes |
| GenotypeBytes.SlotBytesWithoutDash | sgkit/display.py:98-99 | an allele without a `-` is copied unchanged into its slot |
| GenotypeBytes.EndAllele | sgkit/display.py:85-97 | at a dash: a missing allele `-1` writes `.` and NULs over the rest of the slot; a gap writes NULs over the slot and over its separator when slot > 0; nothing else changes |
| GenotypeBytes.EndAlleleLayout | sgkit/display.py:85-97 | the writes at a dash leave the earlier output, the slot's separator and the slot's bytes as specified |
| GenotypeBytes.WriteSlot | sgkit/display.py:77-99 | one turn of the slot loop keeps the output before the separator, writes the separator (a vertical bar (124) when phased, `/` (47) otherwise, or NUL before a gap), and writes the slot's bytes |
| GenotypeBytes.SlotOffsets | sgkit/display.py:77-78 | the two offsets of slot s are its input and output offsets |
| GenotypeBytes.WriteNextSlot | sgkit/display.py:76-99 | after slot s is written, the output prefix is the layout of slots 0..s |
| GenotypeBytes.FirstSlotStep | sgkit/display.py:81-99 | writing slot 0 makes the prefix the one-slot layout |
| GenotypeBytes.NextSlotStep | sgkit/display.py:79-99 | writing slot s > 0 and its separator after the layout of the earlier slots extends that layout |
| GenotypeBytes.WriteSlots | sgkit/display.py:74-99 | the slot loop leaves exactly the layout of all slots in the buffer |
| GenotypeBytes.FormatGenotypeBytes | sgkit/display.py:69-108 | the output is the compaction of the slot layout, whatever the buffer held before |
| GenotypeText.Padded | sgkit/display.py:135-136 | each allele's byte string is exactly max_allele_chars bytes wide |
| GenotypeText.Text | sgkit/display.py:135 | the text of one integer allele: its digits, `-1` for missing, `-2` for a gap |
| GenotypeText.Shown | sgkit/display.py:85-99 | what the GT field shows of one allele: its digits, `.` for missing, nothing for a gap |
| GenotypeText.Render | sgkit/display.py:69-108 | the GT text of a call: each allele shown in turn, each after the first preceded by the separator unless it is a gap; FormatsAsGenotypeField ties it to the formatter |
| GenotypeText.Encode | sgkit/display.py:134-137 | the byte strings of a call's alleles laid end to end take ploidy*max_allele_chars bytes |
| GenotypeText.SlotsExtend | sgkit/display.py:135-137 | appending one allele's byte string keeps the earlier slots and adds the new one |
| GenotypeText.EncodeSlots | sgkit/display.py:135-137 | slot s of the encoded call is the byte string of allele s |
| GenotypeText.EncodedDashNotLast | sgkit/display.py:86-137 | the encoded call never ends in `-`, so the lookahead chars[i+1] stays in bounds |
| GenotypeText.EncodeEncodes | sgkit/display.py:134-140 | the encoded call meets the formatter's input conditions |
| GenotypeText.SlotOfAllele | sgkit/display.py:81-99 | a called allele's slot shows its digits, a missing allele's slot `.`, and a gap's slot nothing, each padded with NULs; the slot is a gap exactly when the allele is one |
| GenotypeText.SlotOfEncode | sgkit/display.py:81-99 | the same, for slot s of an encoded call |
| GenotypeText.SlotCompacts | sgkit/display.py:81-108 | after compaction, slot s contributes exactly the text shown for allele s |
| GenotypeText.SeparatorSurvivesCompaction | sgkit/display.py:79-96 | the separator before slot s survives compaction exactly when allele s is not a gap |
| GenotypeText.LayoutRenders | sgkit/display.py:76-108 | the nonzero bytes of the first k slots' layout are the GT text of the first k alleles |
| GenotypeText.CompactedRenders | sgkit/display.py:69-108 | the compacted output is the GT text followed by NUL bytes |
| GenotypeText.FormatsAsGenotypeField | sgkit/display.py:134-140 | for any call whose alleles fit max_allele_chars, formatting its byte strings gives the VCF GT text (digits, `.` for missing, gaps and their separators dropped, `/` or a vertical bar) followed by NULs |
| Truncate.HeadCount | sgkit/display.py:176 | n_head = size // 2 + size % 2 + 1, with Python's floor division |
| Truncate.TailStart | sgkit/display.py:177 | n_tail = (-size) // 2, with Python's floor division |
| Truncate.SliceBound | sgkit/display.py:178-179 | a slice index as Python clamps it against a length: a negative index counts from the end and stops at 0, any index stops at the length; SelectionInBounds states that every selected position lies inside |
| Truncate.Head | sgkit/display.py:178 | the positions of ds[dim][0:n_head] |
| Truncate.Tail | sgkit/display.py:179 | the positions of ds[dim][n_tail:], which is the whole dimension when n_tail is 0 |
| Truncate.IntendedTail | sgkit/display.py:179 | the intended tail: the last ceil(size/2) positions, none when that is zero |
| Truncate.Selection | sgkit/display.py:172-179 | as written: no selection when the dimension is short enough, else head followed by tail; HeadAndTail, SelectionLength and SelectionIncreasing state it |
| Truncate.IntendedSelection | sgkit/display.py:172-179 | the same with the intended tail; IntendedSelectionLength states it |
| Truncate.SelectionInBounds | sgkit/display.py:171-180 | a dimension is selected exactly when it is longer than its maximum size, and every selected position lies inside it |
| Truncate.HeadAndTail | sgkit/display.py:176-179 | for 1 <= size < length, the head is the first size//2 + size%2 + 1 positions and the tail the last ceil(size/2) |
| Truncate.SelectionLength | sgkit/display.py:166-179 | for 1 <= size < length, the selection has size + 1 positions when size is even and size + 2 when odd |
| Truncate.SelectionIncreasing | sgkit/display.py:176-179 | the selection is strictly increasing except exactly when an odd size is one below the length, where head and tail share a position |
| Truncate.ZeroSizeKeepsEverything | sgkit/display.py:176-179 | as written, a maximum size of 0 keeps position 0 and then the whole dimension |
| Truncate.ZeroSizeExample | sgkit/display.py:176-179 | as written, a dimension of length 3 with maximum size 0 selects [0, 0, 1, 2] |
| Truncate.IntendedSelectionLength | sgkit/display.py:166-179 | with the intended tail, every size 0 <= size < length gives size + 1 positions (even) or size + 2 (odd), strictly increasing unless an odd size is one below the length, and equals the selection as written for size >= 1 |
| Truncate.Truncate | sgkit/display.py:171-180 | the loop over max_sizes fails with the first dimension the dataset lacks; otherwise it selects exactly the dimensions longer than their maximum, each with the head-and-tail selection, as the code writes it (`Selection`) or with the intended tail (`IntendedSelection`), by a flag |
| Truncate.Truncated | sgkit/display.py:181 | `ds.sel` keeps every dimension, shortened to its selection where it has one |
| Truncate.TruncatedSizes | sgkit/display.py:166-181 | after truncation every dimension named with maximum size n has at most n + 1 (even n) or n + 2 (odd n) entries: for every n >= 1 with the tail as written, and for every n >= 0 with the intended tail; every dimension not named keeps its length |

## Left out

- Floating-point rounding: kernel values are exact reals. A nonzero value over zero (an IEEE infinity) is never formed; each division site proves that its denominator is nonzero or that the quotient is 0/0, which is NaN.
- Integer width: the int64 allele counts and the float64 sums are unbounded, because no overflow is in reach of realistic counts.
- The `-log(1 - clip(fst, 0, 1 - eps))` transform before `_pbs` (sgkit/stats/popgen.py:667-670) is transcendental. `Pbs` takes its result `t` as input, constrained to be NaN or nonnegative, which is what the transform yields.
- TajimasD.StdDevZeroIff: `np.sqrt` is not modelled. The caller supplies `root`, and the precondition `IsRootOf` pins it to the square root of the variance.
- The float32 variants of the Fst and PBS kernels behave the same on exact reals and are not modelled separately.
- `window_statistic`, `has_windows`, `define_variable_if_absent`, `conditional_merge_datasets`, `variables.validate` and `count_cohort_alleles`/`count_variant_alleles` are not part of this model. Windowed statistics, variable definition and dataset merging are therefore absent.
- Dask scheduling, numba `guvectorize` broadcasting and `assert_array_shape` are absent. Only the map-over-rows meaning of `map_blocks` is modelled, in `Blocks`.
- `pc_relate` is not part of this model.
- The display UI (`GenotypeDisplay`, `display_genotypes`, `set_index_if_unique`) and pandas rendering are absent.
- The numpy `astype("|S{n}")` cast in `genotype_as_bytes` is not modelled as numpy code. `GenotypeText.Encode` states its result for alleles whose text fits the width: digits or `-1`/`-2`, padded with NUL. Wider text, which numpy truncates, is excluded by `Fits`.
- GenotypeBytes.FormatGenotypeBytes:
  - requires that no allele text ends the input in `-`, because the source reads `chars[i + 1]` after a dash;
  - requires `len(chars)` to be a multiple of ploidy, which `genotype_as_bytes` guarantees;
  - requires the output buffer to be exactly `len(chars) + ploidy - 1` bytes, as `genotype_as_bytes` allocates it.
- GenotypeBytes.EndAllele: the numpy slice `out[j + 1 : j + chars_per_allele] = 0` can reach past the slot into the next separator and slot. The model writes exactly these clamped positions. The following slot rewrites them, which `WriteSlot` and `WriteNextSlot` account for.
- A gap in slot 0 does not remove the separator after it, so a call `[-2, 1]` renders as `/1`. `GenotypeText.Render` states this behaviour as written.
- Truncate: dimensions are lengths and selections are positions. Coordinate labels, which `ds.sel` uses, coincide with positions for the default index and for any unique index.
- Truncate.TruncatedSizes: for the tail as written the size bound is proved only for maximum sizes n >= 1, because it is false at n = 0 (`Truncate.ZeroSizeExample`).
- TajimasD.TajimaOfNoVariants: states only that the call fails. The exception raised by the maximum over an empty axis depends on the array backend, and its text is not modelled.

## Findings

| source | as written | input that shows it | evidently intended | confidence | as-written member | corrected member |
|---|---|---|---|---|---|---|
| sgkit/display.py:177-179 | `n_tail = -size // 2` is `0` for `size == 0`, and `ds[dim][0:]` is the whole dimension | a dimension of length 3 with maximum size 0 selects positions [0, 0, 1, 2], longer than the dimension itself and beyond the documented bound of size + 2 | the tail keeps the last ceil(size/2) positions, so none for size 0, and the selection is [0] | medium, not executed | Truncate.ZeroSizeExample | Truncate.IntendedSelectionLength |
