/**
 * The fingerprint matcher of audiofingerprint/match.py: every pair of anchor
 * times under a descriptor both fingerprints share gives a time difference;
 * the differences go into a histogram with one bin per integer, the
 * histogram is smoothed by a zero-padded sliding sum, and the score is the
 * largest smoothed bin.
 */
module Matcher {
  import opened Wrappers
  import opened Sequences
  import opened Landmarks

  /** MatchParameters. */
  datatype Parameters = Parameters(histogramFilterSize: int)

  /** get_default_parameters(): a centred window of three bins. */
  function DefaultParameters(): (p: Parameters)
    ensures p.histogramFilterSize >= 1 && p.histogramFilterSize % 2 == 1
    ensures p.histogramFilterSize / 2 == 1
  {
    Parameters(3)
  }

  // ---------------------------------------------------------------------
  // The time differences
  // ---------------------------------------------------------------------

  /** One iteration of the three nested loops: a shared descriptor and one time from each side. */
  datatype Correspondence = Correspondence(descriptor: string, thisTime: int, thatTime: int)

  function Delta(c: Correspondence): int {
    c.thisTime - c.thatTime
  }

  /** All combinations the nested loops visit for the descriptors in `keys`. */
  ghost function CorrespondencesOver(these: Fingerprint, those: Fingerprint, keys: set<string>): set<Correspondence> {
    set k, a, b | k in keys && k in these && k in those && a in these[k] && b in those[k] :: Correspondence(k, a, b)
  }

  /** All combinations the nested loops visit. */
  ghost function Correspondences(these: Fingerprint, those: Fingerprint): set<Correspondence> {
    CorrespondencesOver(these, those, these.Keys)
  }

  /** How many combinations have time difference d: the count of d among `delta_times`. */
  ghost function DeltaCount(cs: set<Correspondence>, d: int): nat {
    |set c | c in cs && Delta(c) == d|
  }

  /** The differences that occur. */
  ghost function DeltaSet(cs: set<Correspondence>): set<int> {
    set c | c in cs :: Delta(c)
  }

  ghost function Pick<T>(s: set<T>): (x: T)
    requires s != {}
    ensures x in s
  {
    var x :| x in s; x
  }

  ghost function SetMin(s: set<int>): (m: int)
    requires s != {}
    ensures m in s && forall x :: x in s ==> m <= x
    decreases |s|
  {
    var x := Pick(s);
    if s == {x} then x
    else
      var m := SetMin(s - {x});
      assert forall y :: y in s ==> y == x || y in s - {x};
      if x < m then x else m
  }

  ghost function SetMax(s: set<int>): (m: int)
    requires s != {}
    ensures m in s && forall x :: x in s ==> x <= m
    decreases |s|
  {
    var x := Pick(s);
    if s == {x} then x
    else
      var m := SetMax(s - {x});
      assert forall y :: y in s ==> y == x || y in s - {x};
      if x > m then x else m
  }

  lemma DeltaCountAdd(cs: set<Correspondence>, c: Correspondence, d: int)
    requires c !in cs
    ensures DeltaCount(cs + {c}, d) == DeltaCount(cs, d) + (if Delta(c) == d then 1 else 0)
  {
    var before := set x | x in cs && Delta(x) == d;
    var after := set x | x in cs + {c} && Delta(x) == d;
    if Delta(c) == d {
      assert after == before + {c};
    } else {
      assert after == before;
    }
  }

  /** The time differences of the visited combinations, counted as `delta_times` holds them. */
  ghost predicate CountsDeltas(deltaTimes: seq<int>, cs: set<Correspondence>) {
    forall d :: multiset(deltaTimes)[d] == DeltaCount(cs, d)
  }

  lemma CountsDeltasAppend(deltaTimes: seq<int>, cs: set<Correspondence>, c: Correspondence)
    requires CountsDeltas(deltaTimes, cs) && c !in cs
    ensures CountsDeltas(deltaTimes + [Delta(c)], cs + {c})
  {
    assert multiset(deltaTimes + [Delta(c)]) == multiset(deltaTimes) + multiset{Delta(c)};
    forall d ensures multiset(deltaTimes + [Delta(c)])[d] == DeltaCount(cs + {c}, d) {
      DeltaCountAdd(cs, c, d);
    }
  }

  /** The combinations of one descriptor for the given this-times and that-times. */
  ghost function Pairs(k: string, thisTimes: set<int>, thatTimes: set<int>): set<Correspondence> {
    set a, b | a in thisTimes && b in thatTimes :: Correspondence(k, a, b)
  }

  lemma PairsAddThat(k: string, a: int, thatTimes: set<int>, b: int)
    ensures Pairs(k, {a}, thatTimes + {b}) == Pairs(k, {a}, thatTimes) + {Correspondence(k, a, b)}
  {
  }

  lemma PairsAddThis(k: string, thisTimes: set<int>, a: int, thatTimes: set<int>)
    ensures Pairs(k, thisTimes + {a}, thatTimes) == Pairs(k, thisTimes, thatTimes) + Pairs(k, {a}, thatTimes)
  {
  }

  lemma OverAdd(these: Fingerprint, those: Fingerprint, keys: set<string>, k: string)
    requires k in these
    ensures CorrespondencesOver(these, those, keys + {k})
         == CorrespondencesOver(these, those, keys) + (if k in those then Pairs(k, these[k], those[k]) else {})
  {
  }

  /** One round of the innermost loop, for the that-time `thatTime`. */
  lemma DeltaStep(result: seq<int>, visited: set<Correspondence>, descriptor: string, thisTime: int,
                  thatTimes: set<int>, doneThat: set<int>, thatTime: int)
    requires CountsDeltas(result, visited + Pairs(descriptor, {thisTime}, doneThat))
    requires visited !! Pairs(descriptor, {thisTime}, thatTimes)
    requires thatTime in thatTimes && thatTime !in doneThat
    ensures CountsDeltas(result + [thisTime - thatTime], visited + Pairs(descriptor, {thisTime}, doneThat + {thatTime}))
  {
    var c := Correspondence(descriptor, thisTime, thatTime);
    var sofar := visited + Pairs(descriptor, {thisTime}, doneThat);
    assert c in Pairs(descriptor, {thisTime}, thatTimes);
    assert c !in Pairs(descriptor, {thisTime}, doneThat);
    CountsDeltasAppend(result, sofar, c);
    PairsAddThat(descriptor, thisTime, doneThat, thatTime);
    assert sofar + {c} == visited + Pairs(descriptor, {thisTime}, doneThat + {thatTime});
  }

  /**
   * The innermost loop of match: for one descriptor and one this-time, append
   * the difference to every that-time.
   */
  method AppendDeltas(deltaTimes: seq<int>, descriptor: string, thisTime: int, thatTimes: set<int>,
                      ghost visited: set<Correspondence>) returns (result: seq<int>)
    requires CountsDeltas(deltaTimes, visited)
    requires visited !! Pairs(descriptor, {thisTime}, thatTimes)
    ensures CountsDeltas(result, visited + Pairs(descriptor, {thisTime}, thatTimes))
  {
    result := deltaTimes;
    var remaining := thatTimes;
    ghost var doneThat: set<int> := {};
    assert visited + Pairs(descriptor, {thisTime}, doneThat) == visited;
    while remaining != {}
      invariant remaining !! doneThat && remaining + doneThat == thatTimes
      invariant CountsDeltas(result, visited + Pairs(descriptor, {thisTime}, doneThat))
      decreases |remaining|
    {
      ghost var someTime := Pick(remaining);
      var thatTime :| thatTime in remaining;
      DeltaStep(result, visited, descriptor, thisTime, thatTimes, doneThat, thatTime);
      result := result + [thisTime - thatTime];
      remaining := remaining - {thatTime};
      doneThat := doneThat + {thatTime};
    }
  }

  /**
   * The middle loop of match: for one shared descriptor, every this-time
   * against every that-time.
   */
  method AppendDescriptorDeltas(deltaTimes: seq<int>, descriptor: string, thisTimes: set<int>, thatTimes: set<int>,
                                ghost visited: set<Correspondence>) returns (result: seq<int>)
    requires CountsDeltas(deltaTimes, visited)
    requires forall c :: c in visited ==> c.descriptor != descriptor
    ensures CountsDeltas(result, visited + Pairs(descriptor, thisTimes, thatTimes))
  {
    result := deltaTimes;
    var times := thisTimes;
    ghost var doneThis: set<int> := {};
    assert visited + Pairs(descriptor, doneThis, thatTimes) == visited;
    while times != {}
      invariant times !! doneThis && times + doneThis == thisTimes
      invariant CountsDeltas(result, visited + Pairs(descriptor, doneThis, thatTimes))
      decreases |times|
    {
      ghost var someTime := Pick(times);
      var thisTime :| thisTime in times;
      ghost var sofar := visited + Pairs(descriptor, doneThis, thatTimes);
      assert sofar !! Pairs(descriptor, {thisTime}, thatTimes);
      result := AppendDeltas(result, descriptor, thisTime, thatTimes, sofar);
      PairsAddThis(descriptor, doneThis, thisTime, thatTimes);
      assert sofar + Pairs(descriptor, {thisTime}, thatTimes) == visited + Pairs(descriptor, doneThis + {thisTime}, thatTimes);
      times := times - {thisTime};
      doneThis := doneThis + {thisTime};
    }
    assert doneThis == thisTimes;
  }

  lemma OverOthers(these: Fingerprint, those: Fingerprint, keys: set<string>, k: string)
    requires k !in keys
    ensures forall c :: c in CorrespondencesOver(these, those, keys) ==> c.descriptor != k
  {
  }

  /**
   * The three nested loops of match: for every descriptor of `these` that
   * `those` has, every this-time and every that-time, append the
   * difference. The dictionary and set iteration orders are arbitrary.
   */
  method CollectDeltaTimes(these: Fingerprint, those: Fingerprint) returns (deltaTimes: seq<int>)
    ensures CountsDeltas(deltaTimes, Correspondences(these, those))
  {
    deltaTimes := [];
    var keys := these.Keys;
    ghost var done: set<string> := {};
    while keys != {}
      invariant keys !! done && keys + done == these.Keys
      invariant CountsDeltas(deltaTimes, CorrespondencesOver(these, those, done))
      decreases |keys|
    {
      var descriptor :| descriptor in keys;
      if descriptor in those {
        OverOthers(these, those, done, descriptor);
        deltaTimes := AppendDescriptorDeltas(deltaTimes, descriptor, these[descriptor], those[descriptor],
                                             CorrespondencesOver(these, those, done));
      }
      OverAdd(these, those, done, descriptor);
      keys := keys - {descriptor};
      done := done + {descriptor};
    }
  }

  lemma CountsDeltasEmpty(deltaTimes: seq<int>, cs: set<Correspondence>)
    requires CountsDeltas(deltaTimes, cs)
    ensures |deltaTimes| == 0 <==> cs == {}
    ensures forall x :: x in deltaTimes <==> x in DeltaSet(cs)
  {
    forall x ensures x in deltaTimes <==> x in DeltaSet(cs) {
      var same := set c | c in cs && Delta(c) == x;
      assert multiset(deltaTimes)[x] == |same|;
      if x in DeltaSet(cs) {
        var c :| c in cs && Delta(c) == x;
        assert c in same;
      }
      if same != {} {
        var c := Pick(same);
        assert Delta(c) in DeltaSet(cs);
      }
    }
    if cs != {} {
      var c := Pick(cs);
      assert Delta(c) in DeltaSet(cs);
    }
    if |deltaTimes| > 0 {
      assert deltaTimes[0] in deltaTimes;
    }
  }

  // ---------------------------------------------------------------------
  // The histogram, its sliding sum and the score
  // ---------------------------------------------------------------------

  /** The largest element, as Python's max(). */
  function SeqMax(s: seq<int>): (m: int)
    requires |s| >= 1
    ensures m in s
    ensures forall i :: 0 <= i < |s| ==> s[i] <= m
  {
    if |s| == 1 then s[0]
    else
      var m := SeqMax(s[..|s| - 1]);
      if s[|s| - 1] > m then s[|s| - 1] else m
  }

  /** The smallest element, as Python's min(). */
  function SeqMin(s: seq<int>): (m: int)
    requires |s| >= 1
    ensures m in s
    ensures forall i :: 0 <= i < |s| ==> m <= s[i]
  {
    if |s| == 1 then s[0]
    else
      var m := SeqMin(s[..|s| - 1]);
      if s[|s| - 1] < m then s[|s| - 1] else m
  }

  /** A bin, with the zero padding of mode='constant', cval=0 outside the histogram. */
  function At(h: seq<int>, i: int): int {
    if 0 <= i < |h| then h[i] else 0
  }

  /** The sum of the (padded) bins lo .. hi - 1. */
  function RangeSum(h: seq<int>, lo: int, hi: int): int
    decreases hi - lo
  {
    if hi <= lo then 0 else RangeSum(h, lo, hi - 1) + At(h, hi - 1)
  }

  /**
   * generic_filter(h, sum, size, mode='constant', cval=0): bin i sums the
   * `size` padded bins from i - size / 2 on.
   */
  function SlidingSum(h: seq<int>, size: int): (f: seq<int>)
    ensures |f| == |h|
  {
    seq(|h|, i => RangeSum(h, i - size / 2, i - size / 2 + size))
  }

  /** With the default size 3 each bin is the sum of itself and its two neighbours. */
  lemma SlidingSumThree(h: seq<int>, i: int)
    requires 0 <= i < |h|
    ensures SlidingSum(h, 3)[i] == At(h, i - 1) + At(h, i) + At(h, i + 1)
  {
    assert RangeSum(h, i - 1, i + 2) == RangeSum(h, i - 1, i + 1) + At(h, i + 1);
    assert RangeSum(h, i - 1, i + 1) == RangeSum(h, i - 1, i) + At(h, i);
  }

  /**
   * np.histogram(delta_times, range(lo, hi + 2)): one bin per integer from lo
   * to hi, bin k counting the occurrences of lo + k.
   */
  method BuildHistogram(deltaTimes: seq<int>, lo: int, hi: int) returns (histogram: array<int>)
    requires lo <= hi
    ensures fresh(histogram)
    ensures histogram.Length == hi - lo + 1
    ensures forall k :: 0 <= k < histogram.Length ==> histogram[k] == multiset(deltaTimes)[lo + k]
  {
    histogram := new int[hi - lo + 1](_ => 0);
    for i := 0 to |deltaTimes|
      invariant forall k :: 0 <= k < histogram.Length ==> histogram[k] == multiset(deltaTimes[..i])[lo + k]
    {
      var d := deltaTimes[i];
      assert deltaTimes[..i + 1] == deltaTimes[..i] + [d];
      if lo <= d <= hi {
        histogram[d - lo] := histogram[d - lo] + 1;
      }
    }
    assert deltaTimes[..|deltaTimes|] == deltaTimes;
  }

  /** The sliding-sum filter, each output bin summed over its window. */
  method FilterHistogram(histogram: array<int>, size: int) returns (filtered: array<int>)
    requires size >= 1
    ensures fresh(filtered)
    ensures filtered[..] == SlidingSum(histogram[..], size)
  {
    filtered := new int[histogram.Length];
    for i := 0 to histogram.Length
      invariant forall k :: 0 <= k < i ==> filtered[k] == SlidingSum(histogram[..], size)[k]
    {
      var start := i - size / 2;
      var sum := 0;
      for j := 0 to size
        invariant sum == RangeSum(histogram[..], start, start + j)
      {
        var bin := start + j;
        sum := sum + (if 0 <= bin < histogram.Length then histogram[bin] else 0);
      }
      filtered[i] := sum;
    }
    assert filtered[..] == SlidingSum(histogram[..], size);
  }

  /** The histogram of the time differences of `cs`, over n bins from lo. */
  ghost function Histogram(cs: set<Correspondence>, lo: int, n: nat): (h: seq<int>)
    ensures |h| == n
  {
    seq(n, k => DeltaCount(cs, lo + k))
  }

  lemma InDeltaSet(cs: set<Correspondence>, d: int)
    ensures d in DeltaSet(cs) <==> DeltaCount(cs, d) > 0
  {
    var same := set c | c in cs && Delta(c) == d;
    if d in DeltaSet(cs) {
      var c :| c in cs && Delta(c) == d;
      assert c in same;
    }
    if same != {} {
      var c := Pick(same);
      assert Delta(c) in DeltaSet(cs);
    }
  }

  /** min(delta_times) */
  ghost function Lowest(cs: set<Correspondence>): (lo: int)
    requires cs != {}
    ensures lo in DeltaSet(cs)
    ensures forall c :: c in cs ==> lo <= Delta(c)
  {
    assert Delta(Pick(cs)) in DeltaSet(cs);
    assert forall c :: c in cs ==> Delta(c) in DeltaSet(cs);
    SetMin(DeltaSet(cs))
  }

  /** max(delta_times) */
  ghost function Highest(cs: set<Correspondence>): (hi: int)
    requires cs != {}
    ensures hi in DeltaSet(cs)
    ensures forall c :: c in cs ==> Delta(c) <= hi
  {
    assert Delta(Pick(cs)) in DeltaSet(cs);
    assert forall c :: c in cs ==> Delta(c) in DeltaSet(cs);
    SetMax(DeltaSet(cs))
  }

  /** The histogram match builds: one bin per difference from the smallest to the largest. */
  ghost function Bins(cs: set<Correspondence>): (h: seq<int>)
    requires cs != {}
    ensures |h| == Highest(cs) - Lowest(cs) + 1
    ensures forall k :: 0 <= k < |h| ==> h[k] == DeltaCount(cs, Lowest(cs) + k)
  {
    Histogram(cs, Lowest(cs), Highest(cs) - Lowest(cs) + 1)
  }

  /**
   * What match returns: 0 without any shared combination, the error of the
   * filter for sizes below 1, and otherwise the largest bin of the smoothed
   * histogram.
   */
  ghost function MatchSpec(these: Fingerprint, those: Fingerprint, size: int): Result<int> {
    var cs := Correspondences(these, those);
    if cs == {} then Ok(0)
    else if size < 1 then Err(EmptyFilterSize)
    else Ok(SeqMax(SlidingSum(Bins(cs), size)))
  }

  /** match(these, those, parameters) */
  method Match(these: Fingerprint, those: Fingerprint, parameters: Parameters) returns (score: Result<int>)
    ensures score == MatchSpec(these, those, parameters.histogramFilterSize)
  {
    var deltaTimes := CollectDeltaTimes(these, those);
    ghost var cs := Correspondences(these, those);
    CountsDeltasEmpty(deltaTimes, cs);
    if |deltaTimes| == 0 {
      return Ok(0);
    }
    if parameters.histogramFilterSize < 1 {
      return Err(EmptyFilterSize);
    }
    var lo, hi := SeqMin(deltaTimes), SeqMax(deltaTimes);
    assert lo == Lowest(cs) && hi == Highest(cs) by {
      ExtremesAgree(deltaTimes, DeltaSet(cs));
    }
    var histogram := BuildHistogram(deltaTimes, lo, hi);
    assert histogram[..] == Bins(cs);
    var filtered := FilterHistogram(histogram, parameters.histogramFilterSize);
    score := Ok(SeqMax(filtered[..]));
  }

  /** A sequence and a set with the same elements have the same extremes. */
  lemma ExtremesAgree(s: seq<int>, t: set<int>)
    requires |s| >= 1 && t != {}
    requires forall x :: x in s <==> x in t
    ensures SeqMin(s) == SetMin(t) && SeqMax(s) == SetMax(t)
  {
    var a, b := SetMin(t), SetMax(t);
    var i :| 0 <= i < |s| && s[i] == a;
    var j :| 0 <= j < |s| && s[j] == b;
  }

  // ---------------------------------------------------------------------
  // Properties of the score
  // ---------------------------------------------------------------------

  /** Without a shared descriptor the score is 0. */
  lemma NoSharedDescriptorScoresZero(these: Fingerprint, those: Fingerprint, size: int)
    requires forall k :: k in these ==> k !in those
    ensures MatchSpec(these, those, size) == Ok(0)
  {
    assert Correspondences(these, those) == {};
  }

  /** With non-empty time sets there is a combination exactly when some descriptor is shared. */
  lemma CorrespondencesShared(these: Fingerprint, those: Fingerprint)
    requires forall k :: k in these ==> these[k] != {}
    requires forall k :: k in those ==> those[k] != {}
    ensures Correspondences(these, those) != {} <==> exists k :: k in these && k in those
  {
    if exists k :: k in these && k in those {
      var k :| k in these && k in those;
      var a, b := Pick(these[k]), Pick(those[k]);
      assert Correspondence(k, a, b) in Correspondences(these, those);
    }
    if Correspondences(these, those) != {} {
      var c := Pick(Correspondences(these, those));
      assert c.descriptor in these && c.descriptor in those;
    }
  }

  predicate NonNegative(h: seq<int>) {
    forall i :: 0 <= i < |h| ==> h[i] >= 0
  }

  lemma {:induction false} RangeSumNonNegative(h: seq<int>, lo: int, hi: int)
    requires NonNegative(h)
    ensures RangeSum(h, lo, hi) >= 0
    decreases hi - lo
  {
    if hi > lo {
      RangeSumNonNegative(h, lo, hi - 1);
    }
  }

  lemma {:induction false} RangeSumSplit(h: seq<int>, lo: int, mid: int, hi: int)
    requires lo <= mid <= hi
    ensures RangeSum(h, lo, hi) == RangeSum(h, lo, mid) + RangeSum(h, mid, hi)
    decreases hi - mid
  {
    if hi > mid {
      RangeSumSplit(h, lo, mid, hi - 1);
    }
  }

  lemma {:induction false} RangeSumOutside(h: seq<int>, lo: int, hi: int)
    requires hi <= 0 || |h| <= lo
    ensures RangeSum(h, lo, hi) == 0
    decreases hi - lo
  {
    if hi > lo {
      RangeSumOutside(h, lo, hi - 1);
    }
  }

  /** A window sum covers each of its bins and is at most the sum of all bins. */
  lemma RangeSumBounds(h: seq<int>, lo: int, hi: int, i: int)
    requires NonNegative(h) && lo <= i < hi
    ensures At(h, i) <= RangeSum(h, lo, hi) <= RangeSum(h, 0, |h|)
  {
    RangeSumSplit(h, lo, i, hi);
    RangeSumSplit(h, i, i + 1, hi);
    RangeSumNonNegative(h, lo, i);
    RangeSumNonNegative(h, i + 1, hi);
    assert RangeSum(h, i, i + 1) == At(h, i);
    var a := if lo < 0 then lo else 0;
    var b := if hi > |h| then hi else |h|;
    RangeSumSplit(h, a, lo, b);
    RangeSumSplit(h, lo, hi, b);
    RangeSumNonNegative(h, a, lo);
    RangeSumNonNegative(h, hi, b);
    RangeSumSplit(h, a, 0, b);
    RangeSumSplit(h, 0, |h|, b);
    RangeSumOutside(h, a, 0);
    RangeSumOutside(h, |h|, b);
  }

  /** The first m bins count the combinations with a difference below lo + m. */
  lemma {:induction false} HistogramPrefixSum(cs: set<Correspondence>, lo: int, n: nat, m: nat)
    requires m <= n
    ensures RangeSum(Histogram(cs, lo, n), 0, m) == |set c | c in cs && lo <= Delta(c) < lo + m|
  {
    if m > 0 {
      HistogramPrefixSum(cs, lo, n, m - 1);
      var below := set c | c in cs && lo <= Delta(c) < lo + m - 1;
      var at := set c | c in cs && Delta(c) == lo + m - 1;
      assert (set c | c in cs && lo <= Delta(c) < lo + m) == below + at;
      assert below !! at;
      assert RangeSum(Histogram(cs, lo, n), 0, m) == RangeSum(Histogram(cs, lo, n), 0, m - 1) + DeltaCount(cs, lo + m - 1);
    } else {
      assert (set c | c in cs && lo <= Delta(c) < lo + m) == {};
    }
  }

  /** The bins add up to the number of combinations: every difference is counted once. */
  lemma BinsSum(cs: set<Correspondence>)
    requires cs != {}
    ensures NonNegative(Bins(cs))
    ensures RangeSum(Bins(cs), 0, |Bins(cs)|) == |cs|
  {
    var lo, n := Lowest(cs), Highest(cs) - Lowest(cs) + 1;
    HistogramPrefixSum(cs, lo, n, n);
    assert (set c | c in cs && lo <= Delta(c) < lo + n) == cs;
  }

  /** No smoothed bin exceeds the sum of all bins. */
  lemma SlidingSumBelowTotal(h: seq<int>, size: int, i: int)
    requires NonNegative(h) && size >= 1 && 0 <= i < |h|
    ensures At(h, i) <= SlidingSum(h, size)[i] <= RangeSum(h, 0, |h|)
  {
    var lo := i - size / 2;
    assert lo <= i < lo + size;
    RangeSumBounds(h, lo, lo + size, i);
  }

  /** The largest smoothed bin lies between the largest bin and the sum of all bins. */
  lemma SlidingSumMaxBounds(h: seq<int>, size: int)
    requires |h| >= 1 && NonNegative(h) && size >= 1
    ensures SeqMax(h) <= SeqMax(SlidingSum(h, size)) <= RangeSum(h, 0, |h|)
  {
    var f := SlidingSum(h, size);
    var i :| 0 <= i < |f| && f[i] == SeqMax(f);
    SlidingSumBelowTotal(h, size, i);
    var j :| 0 <= j < |h| && h[j] == SeqMax(h);
    SlidingSumBelowTotal(h, size, j);
  }

  /** The smoothed maximum lies between the largest bin and the number of differences. */
  lemma SmoothedMaxBounds(cs: set<Correspondence>, size: int)
    requires cs != {} && size >= 1
    ensures var score := SeqMax(SlidingSum(Bins(cs), size));
      0 < SeqMax(Bins(cs)) <= score <= |cs|
  {
    var h := Bins(cs);
    BinsSum(cs);
    SlidingSumMaxBounds(h, size);
    InDeltaSet(cs, Lowest(cs));
    assert 0 < h[0];
  }

  /**
   * For a filter of at least one bin the score is between the largest bin of
   * the histogram and the number of differences, and it is positive exactly
   * when there is a combination.
   */
  lemma ScoreBounds(these: Fingerprint, those: Fingerprint, size: int)
    requires size >= 1
    ensures var cs := Correspondences(these, those);
            var r := MatchSpec(these, those, size);
      && r.Ok?
      && 0 <= r.value <= |cs|
      && (cs != {} ==> SeqMax(Bins(cs)) <= r.value)
      && (r.value > 0 <==> cs != {})
  {
    var cs := Correspondences(these, those);
    if cs != {} {
      SmoothedMaxBounds(cs, size);
    }
  }

  /** The time differences paired with themselves: one per (descriptor, time) entry. */
  ghost function Diagonal(fp: Fingerprint): set<Correspondence> {
    set k, t | k in fp && t in fp[k] :: Correspondence(k, t, t)
  }

  /** Matching a fingerprint with itself scores at least its number of (descriptor, time) entries. */
  lemma SelfMatch(fp: Fingerprint, size: int)
    requires size >= 1
    ensures MatchSpec(fp, fp, size).Ok? && MatchSpec(fp, fp, size).value >= |Diagonal(fp)|
  {
    var cs := Correspondences(fp, fp);
    ScoreBounds(fp, fp, size);
    var zero := set c | c in cs && Delta(c) == 0;
    assert Diagonal(fp) <= zero;
    assert zero == Diagonal(fp) + (zero - Diagonal(fp));
    if Diagonal(fp) != {} {
      var c := Pick(Diagonal(fp));
      assert c in cs;
      var h := Bins(cs);
      var k := 0 - Lowest(cs);
      assert h[k] == DeltaCount(cs, 0);
    }
  }

  // ---------------------------------------------------------------------
  // Counting the combinations
  // ---------------------------------------------------------------------

  lemma {:induction false} PairsOneCard(k: string, a: int, thatTimes: set<int>)
    ensures |Pairs(k, {a}, thatTimes)| == |thatTimes|
    decreases |thatTimes|
  {
    if thatTimes == {} {
      assert Pairs(k, {a}, thatTimes) == {};
    } else {
      var b := Pick(thatTimes);
      PairsOneCard(k, a, thatTimes - {b});
      PairsAddThat(k, a, thatTimes - {b}, b);
      assert thatTimes - {b} + {b} == thatTimes;
    }
  }

  /** One shared descriptor contributes |these[k]| * |those[k]| combinations. */
  lemma {:induction false} PairsCard(k: string, thisTimes: set<int>, thatTimes: set<int>)
    ensures |Pairs(k, thisTimes, thatTimes)| == |thisTimes| * |thatTimes|
    decreases |thisTimes|
  {
    if thisTimes == {} {
      assert Pairs(k, thisTimes, thatTimes) == {};
    } else {
      var a := Pick(thisTimes);
      var rest := thisTimes - {a};
      PairsCard(k, rest, thatTimes);
      PairsOneCard(k, a, thatTimes);
      PairsSplit(k, rest, a, thatTimes);
      assert rest + {a} == thisTimes;
      MulSucc(|rest|, |thatTimes|);
    }
  }

  lemma PairsSplit(k: string, rest: set<int>, a: int, thatTimes: set<int>)
    requires a !in rest
    ensures |Pairs(k, rest + {a}, thatTimes)| == |Pairs(k, rest, thatTimes)| + |Pairs(k, {a}, thatTimes)|
  {
    PairsAddThis(k, rest, a, thatTimes);
    assert Pairs(k, rest, thatTimes) !! Pairs(k, {a}, thatTimes);
  }

  lemma MulSucc(n: nat, m: nat)
    ensures (n + 1) * m == n * m + m
  {
  }

  /** The sum over the shared descriptors in `keys` of |these[k]| * |those[k]|. */
  ghost function PairCount(these: Fingerprint, those: Fingerprint, keys: set<string>): nat
    decreases |keys|
  {
    if keys == {} then 0
    else
      var k := Pick(keys);
      (if k in these && k in those then |these[k]| * |those[k]| else 0) + PairCount(these, those, keys - {k})
  }

  /** The number of time differences is the sum over shared descriptors of |these[k]| * |those[k]|. */
  lemma {:induction false} CorrespondencesCard(these: Fingerprint, those: Fingerprint, keys: set<string>)
    ensures |CorrespondencesOver(these, those, keys)| == PairCount(these, those, keys)
    decreases |keys|
  {
    if keys == {} {
      assert CorrespondencesOver(these, those, keys) == {};
    } else {
      var k := Pick(keys);
      var rest := keys - {k};
      CorrespondencesCard(these, those, rest);
      OverSplit(these, those, rest, k);
      assert rest + {k} == keys;
      if k in these && k in those {
        PairsCard(k, these[k], those[k]);
      }
    }
  }

  lemma OverSplit(these: Fingerprint, those: Fingerprint, rest: set<string>, k: string)
    requires k !in rest
    ensures |CorrespondencesOver(these, those, rest + {k})|
         == |CorrespondencesOver(these, those, rest)|
            + (if k in these && k in those then |Pairs(k, these[k], those[k])| else 0)
  {
    var part := if k in these && k in those then Pairs(k, these[k], those[k]) else {};
    assert CorrespondencesOver(these, those, rest + {k}) == CorrespondencesOver(these, those, rest) + part;
    assert CorrespondencesOver(these, those, rest) !! part;
  }

  /** The sum over the descriptors in `keys` of |fp[k]|. */
  ghost function TimeCount(fp: Fingerprint, keys: set<string>): nat
    decreases |keys|
  {
    if keys == {} then 0
    else
      var k := Pick(keys);
      (if k in fp then |fp[k]| else 0) + TimeCount(fp, keys - {k})
  }

  ghost function DiagonalOver(fp: Fingerprint, keys: set<string>): set<Correspondence> {
    set k, t | k in keys && k in fp && t in fp[k] :: Correspondence(k, t, t)
  }

  lemma {:induction false} DiagonalOneCard(k: string, times: set<int>)
    ensures |set t | t in times :: Correspondence(k, t, t)| == |times|
    decreases |times|
  {
    if times == {} {
      assert (set t | t in times :: Correspondence(k, t, t)) == {};
    } else {
      var t := Pick(times);
      DiagonalOneCard(k, times - {t});
      assert (set x | x in times :: Correspondence(k, x, x))
          == (set x | x in times - {t} :: Correspondence(k, x, x)) + {Correspondence(k, t, t)};
    }
  }

  /** The diagonal has one combination per (descriptor, time) entry: the sum over k of |fp[k]|. */
  lemma {:induction false} DiagonalCard(fp: Fingerprint, keys: set<string>)
    ensures |DiagonalOver(fp, keys)| == TimeCount(fp, keys)
    decreases |keys|
  {
    if keys == {} {
      assert DiagonalOver(fp, keys) == {};
    } else {
      var k := Pick(keys);
      var rest := keys - {k};
      DiagonalCard(fp, rest);
      var part := if k in fp then (set t | t in fp[k] :: Correspondence(k, t, t)) else {};
      assert DiagonalOver(fp, keys) == DiagonalOver(fp, rest) + part;
      assert DiagonalOver(fp, rest) !! part;
      if k in fp {
        DiagonalOneCard(k, fp[k]);
      }
    }
  }

  /** Matching a fingerprint with itself scores at least the sum over its descriptors of |fp[k]|. */
  lemma SelfMatchCount(fp: Fingerprint, size: int)
    requires size >= 1
    ensures MatchSpec(fp, fp, size).Ok? && MatchSpec(fp, fp, size).value >= TimeCount(fp, fp.Keys)
  {
    SelfMatch(fp, size);
    DiagonalCard(fp, fp.Keys);
    assert DiagonalOver(fp, fp.Keys) == Diagonal(fp);
  }

  // ---------------------------------------------------------------------
  // Symmetry
  // ---------------------------------------------------------------------

  function Swap(c: Correspondence): Correspondence {
    Correspondence(c.descriptor, c.thatTime, c.thisTime)
  }

  lemma {:induction false} SwapCard(cs: set<Correspondence>)
    ensures |set c | c in cs :: Swap(c)| == |cs|
    decreases |cs|
  {
    if cs == {} {
      assert (set c | c in cs :: Swap(c)) == {};
    } else {
      var x := Pick(cs);
      SwapCard(cs - {x});
      assert (set c | c in cs :: Swap(c)) == (set c | c in cs - {x} :: Swap(c)) + {Swap(x)};
      assert Swap(x) !in (set c | c in cs - {x} :: Swap(c));
    }
  }

  /** Exchanging the arguments exchanges the two times of every combination. */
  lemma SwapCorrespondences(these: Fingerprint, those: Fingerprint)
    ensures Correspondences(those, these) == set c | c in Correspondences(these, those) :: Swap(c)
  {
    var swapped := set c | c in Correspondences(these, those) :: Swap(c);
    forall c | c in Correspondences(those, these) ensures c in swapped {
      assert Swap(c) in Correspondences(these, those);
      assert c == Swap(Swap(c));
    }
  }

  lemma DeltaCountSwap(these: Fingerprint, those: Fingerprint, d: int)
    ensures DeltaCount(Correspondences(those, these), d) == DeltaCount(Correspondences(these, those), -d)
  {
    SwapCorrespondences(these, those);
    var same := set c | c in Correspondences(these, those) && Delta(c) == -d;
    SwapCard(same);
    assert (set c | c in Correspondences(those, these) && Delta(c) == d) == set c | c in same :: Swap(c);
  }

  /** Negating every difference swaps and negates the extremes. */
  lemma NegatedBounds(a: set<int>, b: set<int>, lo: int, hi: int, lo': int, hi': int)
    requires lo in a && hi in a && forall x :: x in a ==> lo <= x <= hi
    requires lo' in b && hi' in b && forall x :: x in b ==> lo' <= x <= hi'
    requires forall d :: d in b <==> -d in a
    ensures lo' == -hi && hi' == -lo
  {
    assert -(-hi) in a && -(-lo) in a;
    assert -hi in b && -lo in b;
    assert -lo' in a && -hi' in a;
  }

  lemma DeltaSetBounds(cs: set<Correspondence>)
    requires cs != {}
    ensures forall x :: x in DeltaSet(cs) ==> Lowest(cs) <= x <= Highest(cs)
  {
  }

  lemma NegatedExtremes(cs: set<Correspondence>, sw: set<Correspondence>)
    requires cs != {}
    requires forall d :: DeltaCount(sw, d) == DeltaCount(cs, -d)
    ensures sw != {}
    ensures Lowest(sw) == -Highest(cs) && Highest(sw) == -Lowest(cs)
  {
    forall d ensures d in DeltaSet(sw) <==> -d in DeltaSet(cs) {
      InDeltaSet(sw, d);
      InDeltaSet(cs, -d);
    }
    assert -Lowest(cs) in DeltaSet(sw) by {
      assert -(-Lowest(cs)) in DeltaSet(cs);
    }
    var c :| c in sw && Delta(c) == -Lowest(cs);
    DeltaSetBounds(cs);
    DeltaSetBounds(sw);
    NegatedBounds(DeltaSet(cs), DeltaSet(sw), Lowest(cs), Highest(cs), Lowest(sw), Highest(sw));
  }



  /** Negating every difference reverses the histogram. */
  lemma BinsNegated(cs: set<Correspondence>, sw: set<Correspondence>)
    requires cs != {}
    requires forall d :: DeltaCount(sw, d) == DeltaCount(cs, -d)
    ensures sw != {}
    ensures Bins(sw) == Reverse(Bins(cs))
  {
    NegatedExtremes(cs, sw);
    var h := Bins(cs);
    forall k | 0 <= k < |h| ensures Bins(sw)[k] == h[|h| - 1 - k] {
      assert DeltaCount(sw, Lowest(sw) + k) == DeltaCount(cs, -(Lowest(sw) + k));
    }
  }

  lemma BinsSwap(these: Fingerprint, those: Fingerprint)
    requires Correspondences(these, those) != {}
    ensures Correspondences(those, these) != {}
    ensures Bins(Correspondences(those, these)) == Reverse(Bins(Correspondences(these, those)))
  {
    var cs, sw := Correspondences(these, those), Correspondences(those, these);
    forall d ensures DeltaCount(sw, d) == DeltaCount(cs, -d) {
      DeltaCountSwap(these, those, d);
    }
    BinsNegated(cs, sw);
  }

  lemma {:induction false} RangeSumReverse(h: seq<int>, lo: int, hi: int)
    ensures RangeSum(Reverse(h), lo, hi) == RangeSum(h, |h| - hi, |h| - lo)
    decreases hi - lo
  {
    if hi > lo {
      RangeSumReverse(h, lo, hi - 1);
      RangeSumSplit(h, |h| - hi, |h| - hi + 1, |h| - lo);
      assert RangeSum(h, |h| - hi, |h| - hi + 1) == At(h, |h| - hi);
    }
  }

  /** A centred window of odd width commutes with reversal. */
  lemma SlidingSumReverse(h: seq<int>, size: int)
    requires size >= 1 && size % 2 == 1
    ensures SlidingSum(Reverse(h), size) == Reverse(SlidingSum(h, size))
  {
    forall i | 0 <= i < |h| ensures SlidingSum(Reverse(h), size)[i] == Reverse(SlidingSum(h, size))[i] {
      RangeSumReverse(h, i - size / 2, i - size / 2 + size);
    }
  }

  lemma SeqMaxReverse(s: seq<int>)
    requires |s| >= 1
    ensures SeqMax(Reverse(s)) == SeqMax(s)
  {
    var r := Reverse(s);
    var i :| 0 <= i < |r| && r[i] == SeqMax(r);
    var j :| 0 <= j < |s| && s[j] == SeqMax(s);
    assert r[|s| - 1 - j] == s[j];
  }

  /** For an odd filter size the score does not depend on the order of the two fingerprints. */
  lemma MatchSymmetric(these: Fingerprint, those: Fingerprint, size: int)
    requires size % 2 == 1
    ensures MatchSpec(these, those, size) == MatchSpec(those, these, size)
  {
    var cs, sw := Correspondences(these, those), Correspondences(those, these);
    SwapCorrespondences(these, those);
    SwapCorrespondences(those, these);
    if cs != {} && size >= 1 {
      BinsSwap(these, those);
      SlidingSumReverse(Bins(cs), size);
      SeqMaxReverse(SlidingSum(Bins(cs), size));
    }
  }
}
