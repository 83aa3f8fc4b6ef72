# AudioDetective landmark fingerprinting, modelled in Dafny

AudioDetective identifies a recording by "landmark" audio fingerprints. The
pipeline has these stages:

- **Spectrogram.** A short-time Fourier transform turns the signal into a
  spectrogram.
- **Feature extraction.** Local maxima of the spectrogram that are not too
  weak relative to their frame become feature points: pairs of a time index
  and a frequency index.
- **Generation.** Every feature point acts as an anchor and is related to the
  points of its target zone. Each relation is written as the descriptor
  `"anchorFrequency,frequency,deltaTime"`. A fingerprint is a dictionary from
  descriptors to the set of anchor times that produced them.
- **Matching.** Two fingerprints are matched by the time differences of
  their shared descriptors. These differences go into a one-bin-per-integer
  histogram, which is smoothed by a zero-padded sliding sum. The largest
  smoothed bin is the score.

This project models the integer and comparison logic of that pipeline and
proves properties of it:

* `wrappers.dfy` (`Wrappers`): `Option`, `Result`, and the error kinds where
  Python raises (a failed `assert`, `ZeroDivisionError`, `ValueError`).
* `sequences.dfy` (`Sequences`): sequence reversal (`s[::-1]`), shared by
  the decimation kernel and the symmetric histogram check of the matcher.
* `descriptors.dfy` (`Descriptors`): Python's `str`/`int` on integers,
  `str.split`/`str.join`, the descriptor formatter and its parser. Parsing
  inverts formatting for all integers, negative ones included.
* `landmarks.dfy` (`Landmarks`): feature points and the elements shared by
  both generators:
  * the lexicographic sort, `zip` and `_quantize`;
  * the `defaultdict(set)` filled by `add` calls;
  * the emission loop over one target zone (`AddZone`).
* `fingerprint_range.dfy` (`RangeFingerprint`): the generator of
  `audiodetective/audiofingerprint/fingerprint.py`. A zone is a time and
  frequency window with a size cap, scanned with an early `break`.
* `fingerprint_offset.dfy` (`OffsetFingerprint`): the older generator of
  `audiofingerprint/fingerprint.py`. A zone is a fixed slice after a time
  offset, found by a search loop with an early return.
* `match.dfy` (`Matcher`): `match` as three nested loops that collect the
  time differences. It then builds the histogram and the sliding-sum filter
  over arrays and takes the maximum. The methods are proved against ghost
  reference functions. The lemmas cover:
  * bounds and the zero case;
  * the number of time differences;
  * self-match;
  * the symmetry of the score.
* `features.dfy` (`Features`): the feature extractor over `array2<real>`.
  The same model serves both identical copies of `features.py`. It covers:
  * the two max filters, column by column and row by row;
  * non-max suppression;
  * weak suppression on a copy;
  * the masked writes and the row-major `np.nonzero` scan.
* `dft.dfy` (`Dft`): the structural parts of `dsp/dft.py`:
  * the bit-twiddling power-of-two test and `ceil_power_of_two`;
  * zero padding and the input handed to the FFT;
  * the recursive Cooley–Tukey structure, with the twiddle factors as a
    parameter;
  * STFT framing, the elementwise multiply and the two bin-centre axes.
* `decimation.dfy` (`Decimation`): `downsample`, the same-length zero-padded
  `convolve`, `anti_aliasing_window` and `decimate`. The FIR and Hamming
  coefficients are parameters.
* `visualize.dfy` (`Visualize`): the fingerprint-manipulation helpers of the
  visualiser:
  * rebuilding target zones from a fingerprint;
  * the points of the zones;
  * the matched sub-fingerprint;
  * time shifting;
  * the list of time pairs;
  * the choice of the peak time difference.

Throughout, a fingerprint is `map<string, set<int>>`: descriptor keys stay
strings, as in the source. Python integers are unbounded, and so are
Dafny's `int`s. Python's floor division and its slice rules (negative
bounds, clipping) are written out where the source relies on them.

Two edge cases of the code are kept as written:

* **STFT framing.** `stft` frames the signal over
  `range(0, len(signal) - len(window), step)`, so the last start lies
  strictly below `len(signal) - len(window)`. A signal exactly one window
  long therefore yields no frame at all (`Dft.StftShortSignal`).
* **Target-zone size cap.** The docstring of `find_points_in_target_zone`
  calls its size the "Max number of points in a target zone"
  (audiodetective/audiofingerprint/fingerprint.py:99, :110), but the loop
  compares the zone length with it only after appending a point. A size of
  0 or less therefore still admits one point (`RangeFingerprint.Cap`).

## Model

| member | source | states |
|---|---|---|
| Descriptors.NatToString | audiodetective/audiofingerprint/fingerprint.py:148 | `str(n)` of a natural number is a non-empty digit string without a leading zero (except "0" itself) |
| Descriptors.IntToString | audiodetective/audiofingerprint/fingerprint.py:148 | `str(i)` is non-empty and never holds the separator `,` |
| Descriptors.DigitsValueOfNatToString | audiodetective/audiofingerprint/visualize.py:140 | reading the digits of `str(n)` gives n back |
| Descriptors.ParseInt | audiodetective/audiofingerprint/visualize.py:140 | `int(s)` on an optionally signed numeral, None where `int` raises; see ParseDigits, ParseNegative and ParseIntToString |
| Descriptors.ParseDigits | audiodetective/audiofingerprint/visualize.py:140 | `int` of a digit string is its decimal value |
| Descriptors.ParseNegative | audiodetective/audiofingerprint/visualize.py:140 | `int` of "-" followed by digits is minus their value |
| Descriptors.ParseNatString | audiodetective/audiofingerprint/visualize.py:140 | `int(str(n)) == n` for naturals |
| Descriptors.ParseNegativeString | audiodetective/audiofingerprint/visualize.py:140 | `int("-" + str(n)) == -n` |
| Descriptors.ParseIntToString | audiodetective/audiofingerprint/visualize.py:140 | `int(str(i)) == i` for every integer, negative ones included |
| Descriptors.Split | audiodetective/audiofingerprint/visualize.py:140 | `split` yields at least one piece, and no piece contains the separator |
| Descriptors.JoinSplit | audiodetective/audiofingerprint/visualize.py:140 | joining the pieces of a split with the separator gives the string back |
| Descriptors.SplitPrefix | audiodetective/audiofingerprint/visualize.py:140 | a separator-free prefix splits off as the first piece |
| Descriptors.SplitNoSeparator | audiodetective/audiofingerprint/visualize.py:140 | a string without the separator splits into itself alone |
| Descriptors.SplitThree | audiodetective/audiofingerprint/visualize.py:140 | three comma-free numerals joined by commas split into exactly those three |
| Descriptors.ParseDescriptor | audiodetective/audiofingerprint/visualize.py:140-143 | a descriptor is read only from a string with at least three comma-separated pieces |
| Descriptors.Format | audiodetective/audiofingerprint/fingerprint.py:148 | the `"{},{},{}"` key of a descriptor; FormatParse and FormatInjective prove it readable and one-to-one |
| Descriptors.FingerprintDescriptor | audiodetective/audiofingerprint/fingerprint.py:138-148 | the key of (anchor frequency, frequency, time - anchor time); see FormatParse |
| Descriptors.FormatParse | audiodetective/audiofingerprint/visualize.py:140-143 | parsing the formatted `"a,f,d"` gives back the triple (a, f, d), for all integers |
| Descriptors.FormatInjective | audiodetective/audiofingerprint/fingerprint.py:138-148 | two relations share a key exactly when their (anchor frequency, frequency, time difference) triples are equal |
| Landmarks.Zip | audiodetective/audiofingerprint/fingerprint.py:124 | `zip` pairs the i-th time with the i-th frequency, up to the shorter input |
| Landmarks.Insert | audiodetective/audiofingerprint/fingerprint.py:124 | inserting into a sorted sequence keeps it sorted and adds exactly that point |
| Landmarks.SortPoints | audiodetective/audiofingerprint/fingerprint.py:124 | the sorted points are in ascending (time, frequency) order and a permutation of the input |
| Landmarks.SortedUnique | audiodetective/audiofingerprint/fingerprint.py:124 | two sorted permutations of the same points are equal |
| Landmarks.SortPermutationInvariant | audiodetective/audiofingerprint/fingerprint.py:124 | the sort result depends only on the multiset of points |
| Landmarks.Quantize | audiodetective/audiofingerprint/fingerprint.py:81-88 | each value is floor-divided by the bin size: `r*b <= v < (r+1)*b`; a bin size of 1 is the identity |
| Landmarks.Collect | audiodetective/audiofingerprint/fingerprint.py:125-135 | the dictionary built by `add` calls never maps a descriptor to an empty set |
| Landmarks.CollectKeys | audiodetective/audiofingerprint/fingerprint.py:132-135 | a string is a key exactly when some emitted relation formats to it |
| Landmarks.CollectTimes | audiodetective/audiofingerprint/fingerprint.py:132-135 | t is in the set of `Format(d)` exactly when the emission (d, t) was made |
| Landmarks.ZoneEmissions | audiodetective/audiofingerprint/fingerprint.py:132-134 | one emission per zone point, in zone order, relating the anchor to that point |
| Landmarks.Emit | audiodetective/audiofingerprint/fingerprint.py:133-134 | the (descriptor, anchor time) added for one anchor and zone point; see AddEmit and ZoneEmissionsMember |
| Landmarks.AddEmit | audiodetective/audiofingerprint/fingerprint.py:133-134 | one emission adds the anchor time to the set of the descriptor formatted from (time, frequency, anchor frequency, anchor time) |
| Landmarks.CollectZoneStep | audiodetective/audiofingerprint/fingerprint.py:132-134 | one more zone point adds exactly its emission |
| Landmarks.AddZone | audiodetective/audiofingerprint/fingerprint.py:132-134 | the inner loop over a zone turns the dictionary of the earlier emissions into that of the earlier emissions plus this zone's |
| Landmarks.ZoneEmissionsSnoc | audiodetective/audiofingerprint/fingerprint.py:132-134 | the emissions of a zone prefix grow by one point at a time |
| Landmarks.ZoneEmissionsMember | audiodetective/audiofingerprint/fingerprint.py:132-134 | an emission belongs to a zone exactly when it relates the anchor to one of the zone's points |
| RangeFingerprint.DefaultParameters | audiodetective/audiofingerprint/fingerprint.py:24-36 | the defaults have unit bins, `0 < min offset <= max offset`, a non-negative frequency offset, a size of at least 1 and an overlap below the window length |
| RangeFingerprint.Qualifying | audiodetective/audiofingerprint/fingerprint.py:116-118 | the qualifying points are no more than the scanned points |
| RangeFingerprint.InTargetZone | audiodetective/audiofingerprint/fingerprint.py:116-117 | the zone test: inside the time window and within the frequency offset; see QualifyingMembers |
| RangeFingerprint.QualifyingMembers | audiodetective/audiofingerprint/fingerprint.py:116-118 | a point qualifies exactly when it is scanned and lies in the time window and within the frequency offset |
| RangeFingerprint.QualifyingAppend | audiodetective/audiofingerprint/fingerprint.py:116-118 | qualifying distributes over concatenation, keeping scan order |
| RangeFingerprint.Cap | audiodetective/audiofingerprint/fingerprint.py:119-121 | the number of points a zone can hold, size but at least 1 because the length is compared only after an append; see TargetZoneProperties |
| RangeFingerprint.TargetZone | audiodetective/audiofingerprint/fingerprint.py:102-121 | the first Cap(size) qualifying points in scan order; see TargetZoneProperties and FindPointsInTargetZone |
| RangeFingerprint.TargetZoneProperties | audiodetective/audiofingerprint/fingerprint.py:113-121 | every zone point is a scanned point with `a.t+min <= p.t <= a.t+max` and `abs(a.f-p.f) <= maxF`; the zone has at most `size` points (1 when size < 1); it stops short of the qualifying points only at the cap; sorted input gives a sorted zone |
| RangeFingerprint.QualifyingSorted | audiodetective/audiofingerprint/fingerprint.py:116-124 | the qualifying points of sorted points are sorted |
| RangeFingerprint.QualifyingStep | audiodetective/audiofingerprint/fingerprint.py:116-119 | scanning one more point appends it exactly when it passes the test |
| RangeFingerprint.QualifyingPrefix | audiodetective/audiofingerprint/fingerprint.py:116-121 | what a scanned prefix collects is a prefix of all qualifying points |
| RangeFingerprint.FindPointsInTargetZone | audiodetective/audiofingerprint/fingerprint.py:102-122 | the scan with early `break` returns exactly the first Cap(size) qualifying points in scan order |
| RangeFingerprint.FingerprintFromPoints | audiodetective/audiofingerprint/fingerprint.py:91-135 | the loop over the sorted anchors returns the dictionary of all anchor-to-zone-point emissions |
| RangeFingerprint.EmissionsSnoc | audiodetective/audiofingerprint/fingerprint.py:126-134 | one more anchor appends exactly the emissions of its zone |
| RangeFingerprint.EmissionsMember | audiodetective/audiofingerprint/fingerprint.py:126-134 | an emission is made exactly when it relates an anchor to a point of that anchor's zone |
| RangeFingerprint.FingerprintPairs | audiodetective/audiofingerprint/fingerprint.py:124-135 | t is in the set of `Format(d)` exactly when some input point at time t, as anchor, has a zone point giving relation d |
| RangeFingerprint.EmissionGeometry | audiodetective/audiofingerprint/fingerprint.py:113-118 | every emitted descriptor has `min <= d <= max` and `abs(a - f) <= maxF` |
| RangeFingerprint.FingerprintKeys | audiodetective/audiofingerprint/fingerprint.py:124-148 | every key parses to a descriptor inside the zone geometry and formats back to itself; no set is empty; empty input gives an empty dictionary |
| RangeFingerprint.PermutationInvariant | audiodetective/audiofingerprint/fingerprint.py:124 | any joint reordering of the (time, frequency) pairs gives the same fingerprint |
| OffsetFingerprint.DefaultParameters | audiofingerprint/fingerprint.py:22-32 | the defaults have unit bins, a non-negative offset, a size of at least 1 and an overlap below the window length |
| OffsetFingerprint.FirstAfter | audiofingerprint/fingerprint.py:93-103 | the least index whose point is later than `time`, or `len(points)` when there is none |
| OffsetFingerprint.FindFirstPointAfterTime | audiofingerprint/fingerprint.py:100-103 | the search loop with early return yields that least index |
| OffsetFingerprint.FirstAfterSorted | audiofingerprint/fingerprint.py:105-110 | on sorted points, an index lies before the start exactly when its point is not later than `time` |
| OffsetFingerprint.SliceBound | audiofingerprint/fingerprint.py:111-112 | Python slice bounds: negative values count from the end, and values are clipped to `[0, len]` |
| OffsetFingerprint.Slice | audiofingerprint/fingerprint.py:111-112 | `s[start:stop]` holds the elements between the clipped bounds, or nothing when stop <= start |
| OffsetFingerprint.TargetZone | audiofingerprint/fingerprint.py:110-112 | `points[start:start + size]` after the first point later than anchor time + offset; see ZoneIsSlice, TargetZoneProperties and NegativeSizeZone |
| OffsetFingerprint.ZoneIsSlice | audiofingerprint/fingerprint.py:110-112 | the zone is `points[start:start + size]` with start the first point after anchor time + offset |
| OffsetFingerprint.TargetZoneProperties | audiofingerprint/fingerprint.py:105-112 | the zone is a run of consecutive points from start, `min(size, len - start)` of them for size >= 0; on sorted points every zone point, for every size, is later than anchor time + offset, and every point before start is not |
| OffsetFingerprint.NegativeSizeZone | audiofingerprint/fingerprint.py:111-112 | a negative size makes the stop count from the end: empty when `start + size >= 0`, otherwise the points up to `len + start + size` |
| OffsetFingerprint.EmissionsSnoc | audiofingerprint/fingerprint.py:107-114 | one more anchor appends exactly the emissions of its zone |
| OffsetFingerprint.FingerprintFromPoints | audiofingerprint/fingerprint.py:84-115 | the loop over the sorted anchors returns the dictionary of all anchor-to-zone-point emissions |
| OffsetFingerprint.EmissionsMember | audiofingerprint/fingerprint.py:107-114 | an emission is made exactly when it relates an anchor to a point of that anchor's zone |
| OffsetFingerprint.FingerprintPairs | audiofingerprint/fingerprint.py:105-115 | t is in the set of `Format(d)` exactly when some input point at time t, as anchor, has a zone point giving relation d |
| OffsetFingerprint.EmissionDelta | audiofingerprint/fingerprint.py:110-113 | on sorted points every emitted time difference is strictly larger than the offset, for every size, negative ones included |
| OffsetFingerprint.FingerprintKeys | audiofingerprint/fingerprint.py:105-128 | every key parses and formats back to itself, with delta > offset for every size; no set is empty; empty input gives an empty dictionary |
| OffsetFingerprint.PermutationInvariant | audiofingerprint/fingerprint.py:105 | any joint reordering of the (time, frequency) pairs gives the same fingerprint |
| Matcher.DefaultParameters | audiofingerprint/match.py:15-20 | the default filter size is odd and positive, with half-width 1 |
| Matcher.SetMin | audiofingerprint/match.py:42 | the smallest element of a non-empty set |
| Matcher.SetMax | audiofingerprint/match.py:42 | the largest element of a non-empty set |
| Matcher.DeltaCountAdd | audiofingerprint/match.py:38 | one more combination raises the count of its own difference by one and no other |
| Matcher.CountsDeltasAppend | audiofingerprint/match.py:38 | appending a new combination's difference keeps `delta_times` the multiset of the visited differences |
| Matcher.PairsAddThat | audiofingerprint/match.py:37 | one more that-time adds one combination |
| Matcher.PairsAddThis | audiofingerprint/match.py:36 | one more this-time adds its row of combinations |
| Matcher.OverAdd | audiofingerprint/match.py:34-35 | one more descriptor adds its combinations when it is shared, and none otherwise |
| Matcher.DeltaStep | audiofingerprint/match.py:37-38 | one round of the innermost loop keeps the count invariant |
| Matcher.AppendDeltas | audiofingerprint/match.py:37-38 | the innermost loop appends the difference of every (this, that) combination, each once |
| Matcher.AppendDescriptorDeltas | audiofingerprint/match.py:36-38 | the middle loop appends the differences of all combinations of a descriptor |
| Matcher.OverOthers | audiofingerprint/match.py:34-35 | the combinations of other descriptors never involve this one |
| Matcher.CollectDeltaTimes | audiofingerprint/match.py:33-38 | `delta_times` holds the difference of every combination over shared descriptors, as often as it occurs |
| Matcher.CountsDeltasEmpty | audiofingerprint/match.py:39-40 | `delta_times` is empty exactly when there are no combinations, and holds exactly the differences that occur |
| Matcher.SeqMax | audiofingerprint/match.py:45 | `max` is an element, with no element above it |
| Matcher.SeqMin | audiofingerprint/match.py:42 | `min` is an element, with no element below it |
| Matcher.SlidingSum | audiofingerprint/match.py:43-44 | the filtered histogram has the length of the histogram |
| Matcher.SlidingSumThree | audiofingerprint/match.py:43-44 | with size 3, `f[i] = h[i-1] + h[i] + h[i+1]`, with bins outside the histogram counted as 0 |
| Matcher.BuildHistogram | audiofingerprint/match.py:41-42 | the array has `hi - lo + 1` bins, and bin k counts the differences equal to lo + k |
| Matcher.FilterHistogram | audiofingerprint/match.py:43-44 | the filter loop computes the zero-padded sliding sum |
| Matcher.Histogram | audiofingerprint/match.py:41-42 | the reference histogram has the requested number of bins |
| Matcher.InDeltaSet | audiofingerprint/match.py:41-42 | a difference occurs exactly when its count is positive |
| Matcher.Lowest | audiofingerprint/match.py:42 | `min(delta_times)` is an occurring difference, with no difference below it |
| Matcher.Highest | audiofingerprint/match.py:42 | `max(delta_times)` is an occurring difference, with no difference above it |
| Matcher.Bins | audiofingerprint/match.py:41-42 | the histogram has `max - min + 1` bins, and bin k counts the differences equal to min + k |
| Matcher.MatchSpec | audiofingerprint/match.py:33-49 | the score `match` must return: 0 without combinations, an error for sizes below 1, else the largest smoothed bin; see Match, ScoreBounds and MatchSymmetric |
| Matcher.Match | audiofingerprint/match.py:23-49 | `match` returns the score of MatchSpec: 0 without differences, otherwise the maximum smoothed bin, or an error when the filter size is below 1 |
| Matcher.ExtremesAgree | audiofingerprint/match.py:42 | the list's min and max equal the set's extremes |
| Matcher.NoSharedDescriptorScoresZero | audiofingerprint/match.py:33-40 | without a shared descriptor the score is 0 |
| Matcher.CorrespondencesShared | audiofingerprint/match.py:33-38 | with non-empty time sets there are differences exactly when a descriptor is shared |
| Matcher.RangeSumNonNegative | audiofingerprint/match.py:43-44 | window sums of non-negative bins are non-negative |
| Matcher.RangeSumSplit | audiofingerprint/match.py:43-44 | a window sum splits at any midpoint |
| Matcher.RangeSumOutside | audiofingerprint/match.py:43-44 | a window entirely in the zero padding sums to 0 |
| Matcher.RangeSumBounds | audiofingerprint/match.py:43-44 | a window sum is at least each of its bins and at most the total |
| Matcher.HistogramPrefixSum | audiofingerprint/match.py:41-42 | the first m bins count the combinations with difference below lo + m |
| Matcher.BinsSum | audiofingerprint/match.py:41-42 | the bins are non-negative and sum to the number of differences |
| Matcher.SlidingSumBelowTotal | audiofingerprint/match.py:43-44 | each smoothed bin lies between its own bin and the total |
| Matcher.SlidingSumMaxBounds | audiofingerprint/match.py:43-45 | `max(h) <= max(f) <= sum(h)` |
| Matcher.SmoothedMaxBounds | audiofingerprint/match.py:41-45 | `0 < max(h) <= score <= number of differences` |
| Matcher.ScoreBounds | audiofingerprint/match.py:33-45 | for size >= 1 the score is defined, at least max(h) and at most the number of differences, and positive exactly when there are differences |
| Matcher.SelfMatch | audiofingerprint/match.py:36-45 | matching a fingerprint with itself scores at least its number of (descriptor, time) entries |
| Matcher.PairsOneCard | audiofingerprint/match.py:37-38 | one this-time gives as many differences as there are that-times |
| Matcher.PairsCard | audiofingerprint/match.py:36-38 | a shared descriptor gives `len(these[d]) * len(those[d])` differences |
| Matcher.PairsSplit | audiofingerprint/match.py:36-38 | the combinations of a new this-time are disjoint from the others |
| Matcher.CorrespondencesCard | audiofingerprint/match.py:33-38 | the number of differences is the sum over shared descriptors of `len(these[d]) * len(those[d])` |
| Matcher.OverSplit | audiofingerprint/match.py:34-38 | a new descriptor adds `len(these[d]) * len(those[d])` differences when it is shared |
| Matcher.DiagonalOneCard | audiofingerprint/match.py:36-38 | the times of a descriptor paired with themselves give one difference-0 combination each |
| Matcher.DiagonalCard | audiofingerprint/match.py:36-38 | the self-pairs number the sum of `len(F[d])` |
| Matcher.SelfMatchCount | audiofingerprint/match.py:36-45 | `match(F, F) >= sum over d of len(F[d])` |
| Matcher.SwapCard | audiofingerprint/match.py:38 | exchanging the two times of every combination loses none |
| Matcher.SwapCorrespondences | audiofingerprint/match.py:33-38 | exchanging the arguments exchanges the two times of every combination |
| Matcher.DeltaCountSwap | audiofingerprint/match.py:38 | exchanging the arguments negates every difference |
| Matcher.NegatedBounds | audiofingerprint/match.py:42 | negating a set swaps and negates its extremes |
| Matcher.DeltaSetBounds | audiofingerprint/match.py:42 | every occurring difference lies between min and max |
| Matcher.NegatedExtremes | audiofingerprint/match.py:42 | negated differences have min `-max` and max `-min` |
| Matcher.BinsNegated | audiofingerprint/match.py:41-42 | negating the differences reverses the histogram |
| Matcher.BinsSwap | audiofingerprint/match.py:38-42 | exchanging the arguments reverses the histogram |
| Matcher.RangeSumReverse | audiofingerprint/match.py:43-44 | a window sum of the reversed histogram is the mirrored window sum |
| Matcher.SlidingSumReverse | audiofingerprint/match.py:43-44 | a centred window of odd size commutes with reversal |
| Matcher.SeqMaxReverse | audiofingerprint/match.py:45 | reversal keeps the maximum |
| Matcher.MatchSymmetric | audiofingerprint/match.py:38-45 | for an odd filter size, `match(a, b) == match(b, a)` |
| Features.DefaultParameters | audiofingerprint/features.py:16-25 | the defaults have a non-zero divisor, non-negative windows and a percentile in [0, 100] |
| Features.FrequencyWindow | audiofingerprint/features.py:82 | the window is `max(frequency / divisor, min window)` |
| Features.Footprint | audiofingerprint/features.py:83 | the footprint has one flag per axis entry |
| Features.FrequencyFootprint | audiofingerprint/features.py:82-83 | the frequency footprint of bin i covers the whole frequency axis |
| Features.TimeFootprint | audiofingerprint/features.py:98 | the time footprint of frame t covers the whole time axis |
| Features.FootprintHoldsCenter | audiofingerprint/features.py:98 | a window of non-negative size, measured in axis units, covers its own centre |
| Features.RowMax | audiofingerprint/features.py:84 | `np.amax` over the footprint columns of one row: the result is one of those cells and at least each of them |
| Features.ColumnMax | audiofingerprint/features.py:99 | `np.amax` over the footprint rows of one column |
| Features.MaxFilterLogFrequency | audiofingerprint/features.py:71-85 | each output cell is the maximum of its row over the logarithmic frequency footprint, so it is at least the input cell |
| Features.MaxFilterTime | audiofingerprint/features.py:88-100 | each output cell is the maximum of its column over the frames within the time window, so it is at least the input cell |
| Features.IsLocalMax | audiofingerprint/features.py:64-67 | the cell is at least every cell of its time × frequency footprint; see NeighbourhoodMax |
| Features.NeighbourhoodMax | audiofingerprint/features.py:64-67 | after both filters, a cell equals its filtered value exactly when it is the maximum of its time × frequency neighbourhood |
| Features.ZeroWhereDifferent | audiofingerprint/features.py:67 | `filtered[spectogram != filtered] = 0` zeroes exactly the differing cells |
| Features.ZeroWhereMaskZero | audiofingerprint/features.py:47 | `filtered[mask == 0] = 0` zeroes exactly the masked cells |
| Features.NonMaxSuppression | audiofingerprint/features.py:52-68 | each cell keeps its value exactly when it is its neighbourhood maximum and is 0 otherwise; the input is not written |
| Features.Row | audiofingerprint/features.py:116 | a row has one value per frequency |
| Features.FootprintValuesMembers | audiofingerprint/features.py:114-115 | the percentile is taken over exactly the cells of the frames within the window |
| Features.Copy | audiofingerprint/features.py:112 | the copy is a fresh array with the same cells |
| Features.Threshold | audiofingerprint/features.py:114-115 | the percentile of the frames within the time window of frame t; see WeakSuppression and FootprintValuesMembers |
| Features.WeakSuppression | audiofingerprint/features.py:103-117 | on a fresh copy, a cell becomes 0 exactly when it is strictly below its frame's threshold, and every other cell is unchanged |
| Features.NonZero | audiofingerprint/features.py:48 | `np.nonzero` lists exactly the non-zero cells, in strictly increasing row-major order |
| Features.IsFeature | audiofingerprint/features.py:38-49 | a cell is a feature point when it is non-zero, its neighbourhood maximum, and not below its frame's threshold; see ExtractFeaturePoints |
| Features.ExtractFeaturePoints | audiofingerprint/features.py:28-49 | the feature points are exactly the cells that survive both non-max suppression and weak suppression, in row-major order |
| Dft.BitAnd | dsp/dft.py:149 | Python's `&` on unbounded two's-complement integers; see BitAndSelf and BitAndNegative |
| Dft.BitAndSelf | dsp/dft.py:149 | `a & a == a` on Python integers |
| Dft.BitAndNegative | dsp/dft.py:149 | the `&` of two negative numbers is negative |
| Dft.PowerOfTwoPasses | dsp/dft.py:143-149 | every power of two passes the bit test |
| Dft.PassesIsPowerOfTwo | dsp/dft.py:143-149 | only powers of two pass the bit test |
| Dft.IsPowerOfTwo | dsp/dft.py:143-149 | `number != 0 and number & (number - 1) == 0`; IsPowerOfTwoCorrect proves it holds exactly for the powers of two |
| Dft.IsPowerOfTwoCorrect | dsp/dft.py:143-149 | `_is_power_of_two(n)` holds exactly when n is 2^k, for every integer n |
| Dft.PowerOfTwoHalves | dsp/dft.py:25-30 | a power of two other than 1 is even, and its half is a power of two |
| Dft.BitLength | dsp/dft.py:130 | `int.bit_length()`, the binary digit count of the absolute value; see BitLengthBounds |
| Dft.BitLengthBounds | dsp/dft.py:130 | `2^(bl-1) <= n < 2^bl` for the bit length bl of n >= 1 |
| Dft.CeilPowerOfTwo | dsp/dft.py:124-130 | `1 << (number - 1).bit_length()`; see CeilPowerOfTwoBounds, CeilPowerOfTwoZero and CeilPowerOfTwoIdempotent |
| Dft.CeilPowerOfTwoBounds | dsp/dft.py:124-130 | for n >= 1 the result is a power of two p with `n <= p < 2n` |
| Dft.CeilPowerOfTwoZero | dsp/dft.py:124-130 | `ceil_power_of_two(0) == 2` |
| Dft.Pow2Grows | dsp/dft.py:130 | a larger exponent gives at least twice the power |
| Dft.CeilPowerOfTwoIdempotent | dsp/dft.py:124-130 | a power of two rounds up to itself |
| Dft.Zeros | dsp/dft.py:79 | `[0] * n` has max(n, 0) zeros |
| Dft.Multiply | dsp/dft.py:133-140 | `_multiply` is as long as the shorter input and multiplies elementwise |
| Dft.ZeroPad | dsp/dft.py:72-79 | the padded signal has length max(len, count), keeps the signal as prefix and is zero after it |
| Dft.Prefix | dsp/dft.py:38 | `s[:stop]` with Python's rules for negative and oversized stops |
| Dft.FftInput | dsp/dft.py:35-38 | fft transforms the signal cropped or zero-padded to count samples, with count defaulting to the signal length |
| Dft.Evens | dsp/dft.py:29 | `signal[0::2]` |
| Dft.Odds | dsp/dft.py:30 | `signal[1::2]` |
| Dft.Twiddles | dsp/dft.py:31 | there are `count // 2` twiddle factors |
| Dft.Butterfly | dsp/dft.py:32-33 | the two zipped halves give twice as many values |
| Dft.CooleyTukey | dsp/dft.py:18-33 | the recursion succeeds exactly for power-of-two lengths (otherwise the assertion fails) and returns as many values as it is given |
| Dft.PlusHalves | dsp/dft.py:29-30 | even and odd halves distribute over elementwise sums |
| Dft.ButterflyLinear | dsp/dft.py:32-33 | the butterfly is linear |
| Dft.CooleyTukeyLinear | dsp/dft.py:18-33 | the transform is linear, whatever the twiddle factors are |
| Dft.ButterflyZero | dsp/dft.py:32-33 | zeros combine to zeros |
| Dft.CooleyTukeyZero | dsp/dft.py:18-33 | the all-zero signal of power-of-two length transforms to all zeros |
| Dft.Constant | dsp/dft.py:32-33 | a constant sequence of n values |
| Dft.ImpulseHalves | dsp/dft.py:29-30 | the halves of a unit impulse are a shorter impulse and zeros |
| Dft.ButterflyConstant | dsp/dft.py:32-33 | a constant even half and a zero odd half give a constant |
| Dft.CooleyTukeyImpulse | dsp/dft.py:24-33 | a unit impulse transforms to a constant; in particular a length-1 input comes back unchanged |
| Dft.Fft | dsp/dft.py:8-38 | Cooley-Tukey on the signal padded or cropped to count; see FftLength, FftIgnoresPadding, CooleyTukeyLinear and CooleyTukeyImpulse |
| Dft.FftLength | dsp/dft.py:35-38 | with a non-negative count, fft succeeds exactly when the count is a power of two and then has count values |
| Dft.FftIgnoresPadding | dsp/dft.py:35-38 | extra zeros behind the signal do not change the transform |
| Dft.RangeCountBounds | dsp/dft.py:58 | `len(range(start, stop, step))` is the least n with `start + n*step >= stop` |
| Dft.Range | dsp/dft.py:58 | `range(start, stop, step)` is `start + j*step` for j below that count |
| Dft.RangeBounds | dsp/dft.py:58 | every element lies in `[start, stop)` and the next one would not |
| Dft.AllOk | dsp/dft.py:57-58 | the list comprehension of fallible transforms succeeds exactly when each does, and then holds their values in order |
| Dft.Frames | dsp/dft.py:57-58 | one transform per frame start |
| Dft.FrameStarts | dsp/dft.py:55-58 | the frame starts are `0, step, 2*step, ...` with each frame ending strictly before the end of the signal, and none is missing |
| Dft.FramesOk | dsp/dft.py:57 | every frame is a full window-length slice, so a frame transform succeeds exactly when the frame's fft length is a power of two |
| Dft.Stft | dsp/dft.py:41-58 | one transformed windowed frame per start, or an error for `overlap >= len(window)`; see StftSucceeds, StftFraming, StftShortSignal and StftOverlapTooLarge |
| Dft.StftSucceeds | dsp/dft.py:55-58 | stft succeeds exactly when there are no frames or the fft length is a power of two |
| Dft.StftFraming | dsp/dft.py:55-58 | the stft rows are the transforms of the windowed frames, in order |
| Dft.StftShortSignal | dsp/dft.py:58 | a signal no longer than the window gives no frame, even one that would fit exactly |
| Dft.StftOverlapTooLarge | dsp/dft.py:56 | an overlap of at least the window length fails the assertion |
| Dft.FrequencyBinCenters | dsp/dft.py:100-108 | count values `k * fs / count`; a zero count divides by zero |
| Dft.FrequencyBinCenterStep | dsp/dft.py:107-108 | neighbouring frequency centres differ by fs / count |
| Dft.FrequencyBinCenterIncreasing | dsp/dft.py:107-108 | frequency centres rise for positive fs and count |
| Dft.FrequencyBinCentersSpacing | dsp/dft.py:100-108 | the frequency axis starts at 0, steps by fs / count, and rises strictly when fs > 0 |
| Dft.TimeBinCenters | dsp/dft.py:111-121 | count values, the centre of each segment; a zero fs divides by zero when there is a value to compute |
| Dft.TimeBinCenterAt | dsp/dft.py:120-121 | bin k is `(k * (segment - overlap) + segment / 2) / fs` |
| Dft.TimeBinCenterStep | dsp/dft.py:120-121 | neighbouring time centres differ by `(segment - overlap) / fs` |
| Dft.TimeBinCenterIncreasing | dsp/dft.py:120-121 | time centres rise when fs > 0 and the segments advance |
| Dft.TimeBinCentersSpacing | dsp/dft.py:111-121 | the time axis starts at `(segment / 2) / fs`, steps by `(segment - overlap) / fs`, and rises strictly when fs > 0 and segment > overlap |
| Sequences.Reverse | dsp/decimation.py:63 | `kernel[::-1]` (also the reversed histogram of the symmetric matcher) keeps the length and maps index i to `len - 1 - i` |
| Decimation.CeilDivBounds | dsp/decimation.py:39 | every kept index `j*step` lies inside the signal |
| Decimation.Every | dsp/decimation.py:39 | `s[::step]` has `ceil(n / step)` elements |
| Decimation.EveryAt | dsp/decimation.py:39 | element j of `s[::step]` is `s[j*step]` |
| Decimation.Downsample | dsp/decimation.py:32-39 | downsampling fails exactly for factor 0 (a zero slice step) |
| Decimation.DownsampleSamples | dsp/decimation.py:39 | for factor >= 1 the result has `ceil(n / factor)` samples, and sample j is `signal[j*factor]` |
| Decimation.DownsampleBackwards | dsp/decimation.py:39 | a negative factor counts back from the last sample |
| Decimation.DownsampleByOne | dsp/decimation.py:39 | a factor of 1 keeps the signal |
| Decimation.Zeros | dsp/decimation.py:61 | `[0] * n` |
| Decimation.Padded | dsp/decimation.py:61-62 | `len(kernel) // 2` zeros, the signal, and as many zeros again |
| Decimation.Convolve | dsp/decimation.py:54-65 | the output is as long as the signal |
| Decimation.ConvolveWindow | dsp/decimation.py:61-65 | every window is full: `out[n]` is the dot product of `padded[n:n+K]` with the reversed kernel |
| Decimation.DotUnit | dsp/decimation.py:64 | the dot product with a unit vector picks one element |
| Decimation.DotZero | dsp/decimation.py:64 | the dot product with zeros is 0 |
| Decimation.ConvolveIdentity | dsp/decimation.py:54-65 | an odd kernel that is 1 at the centre and 0 elsewhere returns the signal |
| Decimation.AntiAliasingWindow | dsp/decimation.py:42-51 | the window exists exactly for an even order of at least 2 and `0 < cutoff < 1`, and has order + 1 taps |
| Decimation.AntiAliasingWindowTaps | dsp/decimation.py:49-51 | each tap is the FIR coefficient times the Hamming coefficient |
| Decimation.CutoffInRange | dsp/decimation.py:15 | the cutoff `1 / factor` lies in (0, 1) exactly for factor >= 2 |
| Decimation.Decimate | dsp/decimation.py:7-17 | low-pass filter with cutoff `1 / factor`, then keep every factor-th sample; see DecimateShape, DecimateDefaultOrder and DecimateSamples |
| Decimation.DecimateShape | dsp/decimation.py:7-17 | decimate succeeds exactly for factor >= 2 and an even order of at least 2, then with `ceil(n / factor)` samples |
| Decimation.DecimateDefaultOrder | dsp/decimation.py:7 | with the default `filter_order=30`, decimate succeeds exactly for factors of at least 2, with `ceil(n / factor)` samples |
| Decimation.DecimateSamples | dsp/decimation.py:15-17 | the decimated samples are every factor-th sample of the filtered signal |
| Visualize.RelationsOfAdd | audiodetective/audiofingerprint/visualize.py:139-145 | one more anchor time adds its relation |
| Visualize.RelationsOverAdd | audiodetective/audiofingerprint/visualize.py:138-145 | one more descriptor adds the relations of its times, or none when it does not parse |
| Visualize.InRelations | audiodetective/audiofingerprint/visualize.py:138-145 | each (descriptor, time) entry stands for a relation of the dictionary |
| Visualize.AppendPointHolds | audiodetective/audiofingerprint/visualize.py:145 | appending a point to an anchor's list keeps the zones, in first-seen anchor order, describing the relations seen so far |
| Visualize.ZoneStep | audiodetective/audiofingerprint/visualize.py:139-145 | one round of the inner loop keeps that description |
| Visualize.AppendZonePoints | audiodetective/audiofingerprint/visualize.py:139-145 | the inner loop adds the relations of every anchor time of a descriptor |
| Visualize.OuterZoneStep | audiodetective/audiofingerprint/visualize.py:138-145 | one round of the outer loop keeps the description |
| Visualize.Items | audiodetective/audiofingerprint/visualize.py:146 | `items()` lists each anchor of the order with its points |
| Visualize.ItemsHold | audiodetective/audiofingerprint/visualize.py:146 | each anchor is listed once, the anchors are those of the relations, and a zone holds a point exactly when the relation exists |
| Visualize.ExtractTargetZones | audiodetective/audiofingerprint/visualize.py:131-146 | the result is an error exactly when a descriptor with times does not parse; otherwise each anchor appears once, the anchors are those of the relations, and a zone holds p exactly when its anchor relates to p |
| Visualize.CollectedKeysParse | audiodetective/audiofingerprint/visualize.py:140-143 | every key a generator produces parses and formats back to itself |
| Visualize.RelationWitness | audiodetective/audiofingerprint/visualize.py:138-145 | every relation comes from some (descriptor, time) entry |
| Visualize.RelationFromEmission | audiodetective/audiofingerprint/visualize.py:138-145 | an emitted anchor-to-point pair is a relation of the fingerprint |
| Visualize.RelationInverse | audiodetective/audiofingerprint/visualize.py:140-144 | a relation determines its descriptor and anchor time |
| Visualize.EmissionFromRelation | audiodetective/audiofingerprint/visualize.py:138-145 | every relation of a generated fingerprint was emitted |
| Visualize.RelationsOfCollect | audiodetective/audiofingerprint/visualize.py:131-146 | the zones rebuilt from a generated fingerprint hold exactly the emitted (anchor, point) pairs: the generator and the rebuilder are inverse |
| Visualize.RelationOfDescriptor | audiodetective/audiofingerprint/visualize.py:138-145 | for descriptor (a, f, d) and anchor time t, the zone keyed (t, a) holds (t + d, f) |
| Visualize.ElementsSnoc | audiodetective/audiofingerprint/visualize.py:176-177 | one more point of a list adds it to the set |
| Visualize.ZonePointsMember | audiodetective/audiofingerprint/visualize.py:173-178 | a point is collected exactly when it is an anchor or a zone point of some zone |
| Visualize.ListOf | audiodetective/audiofingerprint/visualize.py:178 | `list(set)` holds each element exactly once |
| Visualize.ExtractPointsFromTargetZones | audiodetective/audiofingerprint/visualize.py:167-178 | the result holds each anchor and zone point exactly once, and nothing else |
| Visualize.ZonePointsOfRelations | audiodetective/audiofingerprint/visualize.py:173-178 | the points of rebuilt zones are the anchors and targets of the fingerprint's relations |
| Visualize.AddTimeTwice | audiodetective/audiofingerprint/visualize.py:196 | adding a time already present changes nothing |
| Visualize.AddTimesAdd | audiodetective/audiofingerprint/visualize.py:196 | adding times one by one adds their union |
| Visualize.AddKeptStep | audiodetective/audiofingerprint/visualize.py:193-196 | one round of the middle loop adds the this-time exactly when it is kept |
| Visualize.AddIfNear | audiodetective/audiofingerprint/visualize.py:194-196 | the innermost loop adds this-time exactly when some that-time satisfies `delta - g <= this - that <= delta + g` |
| Visualize.NearWithout | audiodetective/audiofingerprint/visualize.py:195 | a that-time outside the band does not change whether this-time is kept |
| Visualize.KeptTimesAdd | audiodetective/audiofingerprint/visualize.py:193-196 | one more this-time is kept exactly when it is near |
| Visualize.AddKeptTimes | audiodetective/audiofingerprint/visualize.py:193-196 | the middle loop adds exactly the kept this-times |
| Visualize.MatchesStep | audiodetective/audiofingerprint/visualize.py:191-196 | one round of the outer loop keeps the description of the matches |
| Visualize.ExtractTargetZoneMatches | audiodetective/audiofingerprint/visualize.py:181-197 | a key is present exactly when shared and some time is kept, and it maps to exactly the kept this-times |
| Visualize.ZoneMatchesAreNearCorrespondences | audiodetective/audiofingerprint/visualize.py:191-196 | (k, t) is kept exactly when some combination of match for k with this-time t has its difference within g of delta |
| Visualize.ZoneMatchesWithin | audiodetective/audiofingerprint/visualize.py:190-197 | the matches are a sub-fingerprint of `these` with keys shared with `those`; parsing and relations carry over |
| Visualize.ZoneMatchesGrow | audiodetective/audiofingerprint/visualize.py:195 | a wider granularity keeps at least as much |
| Visualize.SelfZoneMatches | audiodetective/audiofingerprint/visualize.py:195 | matching a fingerprint with itself at difference 0 keeps every non-empty entry unchanged |
| Visualize.ShiftPoint | audiodetective/audiofingerprint/visualize.py:207-208 | one point moved by the shift in time; see ShiftTargetZones and ShiftRoundTrip |
| Visualize.ShiftTargetZones | audiodetective/audiofingerprint/visualize.py:200-208 | every time moves by the shift; frequencies, zone lengths and order are unchanged |
| Visualize.ShiftTwice | audiodetective/audiofingerprint/visualize.py:207-208 | two shifts add up |
| Visualize.ShiftZero | audiodetective/audiofingerprint/visualize.py:207-208 | a shift by 0 is the identity |
| Visualize.ShiftRoundTrip | audiodetective/audiofingerprint/visualize.py:207-208 | shifting by s and then by -s gives the zones back |
| Visualize.ShiftZonePoints | audiodetective/audiofingerprint/visualize.py:207-208 | the points of shifted zones are exactly the shifted points |
| Visualize.TimePairCountAdd | audiodetective/audiofingerprint/visualize.py:223 | one more combination raises the count of its own time pair |
| Visualize.TimePairCountRemove | audiodetective/audiofingerprint/visualize.py:223 | removing a combination lowers the count of its own time pair |
| Visualize.CountsTimePairsAppend | audiodetective/audiofingerprint/visualize.py:223 | appending a new combination's pair keeps the list counting the visited pairs |
| Visualize.TimePairStep | audiodetective/audiofingerprint/visualize.py:222-223 | one round of the innermost loop keeps the count invariant |
| Visualize.AppendTimePairs | audiodetective/audiofingerprint/visualize.py:222-223 | the innermost loop appends the pair of every that-time |
| Visualize.AppendDescriptorTimePairs | audiodetective/audiofingerprint/visualize.py:221-223 | the middle loop appends the pairs of all combinations of a descriptor |
| Visualize.ExtractTimeMatches | audiodetective/audiofingerprint/visualize.py:211-224 | the list holds the (this, that) pair of every combination over shared descriptors, as often as it occurs |
| Visualize.Differences | audiodetective/audiofingerprint/visualize.py:218-224 | each pair maps to `this - that` |
| Visualize.TimePairsNone | audiodetective/audiofingerprint/visualize.py:218 | an empty list counts no combinations |
| Visualize.TimePairsLast | audiodetective/audiofingerprint/visualize.py:218-224 | the last pair belongs to one combination, and the rest count the others |
| Visualize.TimePairsDeltas | audiodetective/audiofingerprint/visualize.py:218-224 | the differences of the time pairs are counted exactly as match counts them, and there is one pair per combination |
| Visualize.TimeMatchesAgreeWithMatch | audiodetective/audiofingerprint/visualize.py:218-224 | the time pairs have as many entries as match's `delta_times`, and their differences are the same multiset |
| Visualize.FirstIndex | audiodetective/audiofingerprint/visualize.py:59 | `list.index(x)` is the first position of x, and is absent exactly when x is not in the list |
| Visualize.PeakDeltaTime | audiodetective/audiofingerprint/visualize.py:59 | the left bin edge of the first smoothed bin reaching the score; see PeakDeltaTimeIsFirstPeak |
| Visualize.PeakDeltaTimeIsFirstPeak | audiodetective/audiofingerprint/visualize.py:59 | the chosen difference lies between min and max; its smoothed bin is the score; every earlier bin is strictly smaller |
| Visualize.Granularity | audiodetective/audiofingerprint/visualize.py:60 | half the filter size, rounded down: `2g + 1` is the size for odd sizes |

## Left out

- Numeric FFT, DFT, magnitude and phase: complex floating-point arithmetic
  with `cmath`. The twiddle factors are a function parameter, and complex
  addition and multiplication are exact over `real`.
- The slow `dft`, `magnitude` and `phase` of `dsp/dft.py`: floating-point
  only, and none of the model relies on them.
- The coefficients of `windows.fir`, `windows.hamming` and `windows.cosine`:
  trigonometric floats. They are function parameters, and only their
  length and failure conditions are modelled.
- `dsp/spectogram.py` and `_spectogram_from_signal`: PSD scaling in
  floating point. `dsp/spectogram.py` is not part of this model.
- `np.percentile` interpolation: the threshold of weak suppression is an
  abstract function of the window's values and the percentile.
- Floating-point rounding, NaN and infinities: `real` is exact.
- The `fingerprint` entry points of both generators: they only glue the
  spectrogram, the extractor (`Features.ExtractFeaturePoints`), quantising
  (`Landmarks.Quantize`) and generation (`FingerprintFromPoints`) together,
  through numpy arrays.
- Landmarks.Quantize: requires a positive bin size. numpy's integer `// 0`
  yields 0 with a warning, which is not modelled.
- Features.ExtractFeaturePoints: requires non-negative windows
  (`ValidParameters`). With a negative window a footprint could be empty,
  and `np.amax` over an empty selection raises. That failure is not
  modelled.
- Dictionary, set and `list(set)` iteration order: the model fixes no order
  where Python's is unspecified. `ExtractTargetZones` and
  `ExtractPointsFromTargetZones` state the order-independent content, and
  `ListOf` returns some ordering of the set.
- Visualize.ExtractTargetZones: parses each descriptor once per key, where
  the source re-parses it for every anchor time. The result is the same,
  because the parse does not depend on the time.
- Visualize.ExtractTargetZones: a descriptor that does not parse becomes
  `Err(MalformedDescriptor)` instead of a Python exception.
  - `Descriptors.ParseInt` takes an optional `+` or `-` followed by ASCII
    digits. Python's `int` also accepts surrounding whitespace, `_`
    separators and non-ASCII digits, which generated keys never contain.
  - Keys that are not canonical numerals (`"007,1,2"`) can make two keys
    describe the same relation. The model then states the set of relations,
    not how often a point is repeated in a zone's list.
- Visualize.PeakDeltaTimeIsFirstPeak: stated only for a non-empty set of
  combinations and filter size >= 1. In every other case `match` returns
  0, or raises inside scipy, before `visualize_match` is reached.
- `_index_points_to_value_points`, `_target_zones_indices_to_values` and
  `_convert_psd_to_db`: axis lookups and floating-point scaling for plots.
- All `_plot_*` functions, `visualize_fingerprint`, the `visualize_match`
  plotting calls and the random reduction in the visualiser: matplotlib
  output.
- `server/database.py`, `audiodetective/server/server.py`,
  `audiodetective/server/teacher.py`, `audiodetective/client/client.py`,
  `main.py`, `demos.py` and `audiodetective/common/common.py`: SQLite,
  subprocess, audio devices, argument parsing and plotting glue, outside
  the fingerprinting core.
