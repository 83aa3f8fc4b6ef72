/**
 * The spectrogram feature extractor of audiofingerprint/features.py (the copy
 * in audiodetective/audiofingerprint/features.py is the same file): a max
 * filter along frequency with a window that grows with the frequency, a max
 * filter along time, non-max suppression, a per-frame percentile threshold,
 * and the row-major scan of the cells that survive both.
 *
 * The spectrogram is indexed [time][frequency]. Window sizes are measured in
 * the units of the axis values (`times`, `frequencies`), not in cells.
 */
module Features {

  /** FeatureParameters. */
  datatype Parameters = Parameters(
    timeWindowSize: real,
    suppressionTimeWindowSize: real,
    minFrequencyWindowSize: real,
    frequencyDivisor: real,
    suppressionPercentile: real)

  /** get_default_parameters() */
  function DefaultParameters(): (p: Parameters)
    ensures p.frequencyDivisor != 0.0 && p.minFrequencyWindowSize >= 0.0
    ensures p.timeWindowSize >= 0.0 && p.suppressionTimeWindowSize >= 0.0
    ensures 0.0 <= p.suppressionPercentile <= 100.0
  {
    Parameters(0.25, 4.0, 32.0, 4.0, 75.0)
  }

  function Abs(x: real): real {
    if x < 0.0 then -x else x
  }

  /** max(frequency / frequency_divisor, min_window_size) */
  function FrequencyWindow(frequency: real, minWindow: real, divisor: real): (w: real)
    requires divisor != 0.0
    ensures w >= minWindow && w >= frequency / divisor
    ensures w == minWindow || w == frequency / divisor
  {
    var scaled := frequency / divisor;
    if minWindow > scaled then minWindow else scaled
  }

  /** np.absolute(axis - center) <= window: which entries of the axis the window covers. */
  function Footprint(axis: seq<real>, center: real, window: real): (foot: seq<bool>)
    ensures |foot| == |axis|
  {
    seq(|axis|, j requires 0 <= j < |axis| => Abs(axis[j] - center) <= window)
  }

  /** The footprint of frequency bin i. */
  function FrequencyFootprint(frequencies: seq<real>, i: int, minWindow: real, divisor: real): (foot: seq<bool>)
    requires 0 <= i < |frequencies| && divisor != 0.0
    ensures |foot| == |frequencies|
  {
    Footprint(frequencies, frequencies[i], FrequencyWindow(frequencies[i], minWindow, divisor))
  }

  /** The footprint of frame t. */
  function TimeFootprint(times: seq<real>, t: int, window: real): (foot: seq<bool>)
    requires 0 <= t < |times|
    ensures |foot| == |times|
  {
    Footprint(times, times[t], window)
  }

  /** A window of non-negative size always covers its own centre. */
  lemma FootprintHoldsCenter(axis: seq<real>, j: int, window: real)
    requires 0 <= j < |axis| && window >= 0.0
    ensures Footprint(axis, axis[j], window)[j]
  {
  }

  /** The frequency windows are non-negative, so every frequency footprint holds its own bin. */
  predicate FrequencyWindowsNonNegative(frequencies: seq<real>, minWindow: real, divisor: real)
    requires divisor != 0.0
  {
    forall i :: 0 <= i < |frequencies| ==> FrequencyWindow(frequencies[i], minWindow, divisor) >= 0.0
  }

  // ---------------------------------------------------------------------
  // Maxima over footprints
  // ---------------------------------------------------------------------

  /** m is np.amax of row t of `a` over the columns the footprint covers. */
  ghost predicate IsRowMax(a: array2<real>, t: int, foot: seq<bool>, m: real)
    reads a
    requires 0 <= t < a.Length0 && |foot| == a.Length1
  {
    && (exists j :: 0 <= j < |foot| && foot[j] && a[t, j] == m)
    && (forall j :: 0 <= j < |foot| && foot[j] ==> a[t, j] <= m)
  }

  /** m is np.amax of column i of `a` over the rows the footprint covers. */
  ghost predicate IsColumnMax(a: array2<real>, i: int, foot: seq<bool>, m: real)
    reads a
    requires 0 <= i < a.Length1 && |foot| == a.Length0
  {
    && (exists s :: 0 <= s < |foot| && foot[s] && a[s, i] == m)
    && (forall s :: 0 <= s < |foot| && foot[s] ==> a[s, i] <= m)
  }

  /** Cell (t, i) is at least every cell of the rectangle rowFoot x colFoot. */
  ghost predicate IsLocalMax(a: array2<real>, rowFoot: seq<bool>, colFoot: seq<bool>, t: int, i: int)
    reads a
    requires |rowFoot| == a.Length0 && |colFoot| == a.Length1
    requires 0 <= t < a.Length0 && 0 <= i < a.Length1
  {
    forall s, j :: 0 <= s < |rowFoot| && rowFoot[s] && 0 <= j < |colFoot| && colFoot[j] ==> a[s, j] <= a[t, i]
  }

  /** np.amax(spectogram[t, footprint]) */
  method RowMax(a: array2<real>, t: int, foot: seq<bool>) returns (m: real)
    requires 0 <= t < a.Length0 && |foot| == a.Length1
    requires exists j :: 0 <= j < |foot| && foot[j]
    ensures IsRowMax(a, t, foot, m)
  {
    var found := false;
    m := 0.0;
    ghost var w := 0;
    for j := 0 to |foot|
      invariant found ==> 0 <= w < j && foot[w] && a[t, w] == m
      invariant found ==> forall k :: 0 <= k < j && foot[k] ==> a[t, k] <= m
      invariant !found ==> forall k :: 0 <= k < j ==> !foot[k]
    {
      if foot[j] && (!found || a[t, j] > m) {
        m := a[t, j];
        found := true;
        w := j;
      }
    }
  }

  /** np.amax(spectogram[footprint, i]) */
  method ColumnMax(a: array2<real>, i: int, foot: seq<bool>) returns (m: real)
    requires 0 <= i < a.Length1 && |foot| == a.Length0
    requires exists s :: 0 <= s < |foot| && foot[s]
    ensures IsColumnMax(a, i, foot, m)
  {
    var found := false;
    m := 0.0;
    ghost var w := 0;
    for s := 0 to |foot|
      invariant found ==> 0 <= w < s && foot[w] && a[w, i] == m
      invariant found ==> forall k :: 0 <= k < s && foot[k] ==> a[k, i] <= m
      invariant !found ==> forall k :: 0 <= k < s ==> !foot[k]
    {
      if foot[s] && (!found || a[s, i] > m) {
        m := a[s, i];
        found := true;
        w := s;
      }
    }
  }

  // ---------------------------------------------------------------------
  // The two max filters
  // ---------------------------------------------------------------------

  /**
   * _max_filter_log_frequency: cell (t, i) becomes the largest value of frame
   * t over the frequencies within max(frequencies[i] / divisor, min_window) of
   * frequencies[i].
   */
  method MaxFilterLogFrequency(spectrogram: array2<real>, frequencies: seq<real>, minWindow: real, divisor: real)
    returns (filtered: array2<real>)
    requires spectrogram.Length1 == |frequencies|
    requires divisor != 0.0 && FrequencyWindowsNonNegative(frequencies, minWindow, divisor)
    ensures fresh(filtered)
    ensures filtered.Length0 == spectrogram.Length0 && filtered.Length1 == spectrogram.Length1
    ensures forall t, i :: 0 <= t < filtered.Length0 && 0 <= i < filtered.Length1 ==>
      IsRowMax(spectrogram, t, FrequencyFootprint(frequencies, i, minWindow, divisor), filtered[t, i])
    ensures forall t, i :: 0 <= t < filtered.Length0 && 0 <= i < filtered.Length1 ==> spectrogram[t, i] <= filtered[t, i]
  {
    filtered := new real[spectrogram.Length0, spectrogram.Length1];
    for i := 0 to |frequencies|
      invariant forall t, k :: 0 <= t < filtered.Length0 && 0 <= k < i ==>
        IsRowMax(spectrogram, t, FrequencyFootprint(frequencies, k, minWindow, divisor), filtered[t, k])
    {
      var window := FrequencyWindow(frequencies[i], minWindow, divisor);
      var footprint := Footprint(frequencies, frequencies[i], window);
      FootprintHoldsCenter(frequencies, i, window);
      for t := 0 to filtered.Length0
        invariant forall s, k :: 0 <= s < filtered.Length0 && 0 <= k < i ==>
          IsRowMax(spectrogram, s, FrequencyFootprint(frequencies, k, minWindow, divisor), filtered[s, k])
        invariant forall s :: 0 <= s < t ==> IsRowMax(spectrogram, s, footprint, filtered[s, i])
      {
        filtered[t, i] := RowMax(spectrogram, t, footprint);
      }
    }
    forall t, i | 0 <= t < filtered.Length0 && 0 <= i < filtered.Length1
      ensures spectrogram[t, i] <= filtered[t, i]
    {
      FootprintHoldsCenter(frequencies, i, FrequencyWindow(frequencies[i], minWindow, divisor));
    }
  }

  /**
   * _max_filter_time: cell (t, i) becomes the largest value of bin i over the
   * frames whose time is within `window` of times[t].
   */
  method MaxFilterTime(spectrogram: array2<real>, times: seq<real>, window: real) returns (filtered: array2<real>)
    requires spectrogram.Length0 == |times|
    requires window >= 0.0
    ensures fresh(filtered)
    ensures filtered.Length0 == spectrogram.Length0 && filtered.Length1 == spectrogram.Length1
    ensures forall t, i :: 0 <= t < filtered.Length0 && 0 <= i < filtered.Length1 ==>
      IsColumnMax(spectrogram, i, TimeFootprint(times, t, window), filtered[t, i])
    ensures forall t, i :: 0 <= t < filtered.Length0 && 0 <= i < filtered.Length1 ==> spectrogram[t, i] <= filtered[t, i]
  {
    filtered := new real[spectrogram.Length0, spectrogram.Length1];
    for t := 0 to |times|
      invariant forall s, i :: 0 <= s < t && 0 <= i < filtered.Length1 ==>
        IsColumnMax(spectrogram, i, TimeFootprint(times, s, window), filtered[s, i])
    {
      var footprint := Footprint(times, times[t], window);
      FootprintHoldsCenter(times, t, window);
      for i := 0 to filtered.Length1
        invariant forall s, k :: 0 <= s < t && 0 <= k < filtered.Length1 ==>
          IsColumnMax(spectrogram, k, TimeFootprint(times, s, window), filtered[s, k])
        invariant forall k :: 0 <= k < i ==> IsColumnMax(spectrogram, k, footprint, filtered[t, k])
      {
        filtered[t, i] := ColumnMax(spectrogram, i, footprint);
      }
    }
    forall t, i | 0 <= t < filtered.Length0 && 0 <= i < filtered.Length1
      ensures spectrogram[t, i] <= filtered[t, i]
    {
      FootprintHoldsCenter(times, t, window);
    }
  }

  /**
   * Taking the maximum along frequency and then along time gives the maximum
   * over the whole rectangle, and a cell equals it exactly when it is a local
   * maximum.
   */
  lemma NeighbourhoodMax(a: array2<real>, rows: array2<real>, both: array2<real>,
                         rowFoot: seq<bool>, colFoot: seq<bool>, t: int, i: int)
    requires rows.Length0 == a.Length0 && rows.Length1 == a.Length1
    requires both.Length0 == a.Length0 && both.Length1 == a.Length1
    requires |rowFoot| == a.Length0 && |colFoot| == a.Length1
    requires 0 <= t < a.Length0 && 0 <= i < a.Length1 && rowFoot[t] && colFoot[i]
    requires forall s :: 0 <= s < a.Length0 ==> IsRowMax(a, s, colFoot, rows[s, i])
    requires IsColumnMax(rows, i, rowFoot, both[t, i])
    ensures a[t, i] == both[t, i] <==> IsLocalMax(a, rowFoot, colFoot, t, i)
  {
    var s :| 0 <= s < |rowFoot| && rowFoot[s] && rows[s, i] == both[t, i];
    var j :| 0 <= j < |colFoot| && colFoot[j] && a[s, j] == rows[s, i];
    assert a[t, i] <= rows[t, i] <= both[t, i];
    if IsLocalMax(a, rowFoot, colFoot, t, i) {
      assert a[s, j] <= a[t, i];
    }
    if a[t, i] == both[t, i] {
      forall s', j' | 0 <= s' < |rowFoot| && rowFoot[s'] && 0 <= j' < |colFoot| && colFoot[j']
        ensures a[s', j'] <= a[t, i]
      {
        assert a[s', j'] <= rows[s', i] <= both[t, i];
      }
    }
  }

  // ---------------------------------------------------------------------
  // Masked writes
  // ---------------------------------------------------------------------

  /** filtered[reference != filtered] = 0 */
  method ZeroWhereDifferent(reference: array2<real>, filtered: array2<real>)
    requires reference != filtered
    requires reference.Length0 == filtered.Length0 && reference.Length1 == filtered.Length1
    modifies filtered
    ensures forall t, i :: 0 <= t < filtered.Length0 && 0 <= i < filtered.Length1 ==>
      filtered[t, i] == if reference[t, i] != old(filtered[t, i]) then 0.0 else old(filtered[t, i])
  {
    for t := 0 to filtered.Length0
      invariant forall s, i :: 0 <= s < t && 0 <= i < filtered.Length1 ==>
        filtered[s, i] == if reference[s, i] != old(filtered[s, i]) then 0.0 else old(filtered[s, i])
      invariant forall s, i :: t <= s < filtered.Length0 && 0 <= i < filtered.Length1 ==>
        filtered[s, i] == old(filtered[s, i])
    {
      for i := 0 to filtered.Length1
        invariant forall s, k :: 0 <= s < t && 0 <= k < filtered.Length1 ==>
          filtered[s, k] == if reference[s, k] != old(filtered[s, k]) then 0.0 else old(filtered[s, k])
        invariant forall k :: 0 <= k < i ==>
          filtered[t, k] == if reference[t, k] != old(filtered[t, k]) then 0.0 else old(filtered[t, k])
        invariant forall s, k :: 0 <= s < filtered.Length0 && (s > t || (s == t && k >= i)) && 0 <= k < filtered.Length1 ==>
          filtered[s, k] == old(filtered[s, k])
      {
        if reference[t, i] != filtered[t, i] {
          filtered[t, i] := 0.0;
        }
      }
    }
  }

  /** filtered[mask == 0] = 0 */
  method ZeroWhereMaskZero(mask: array2<real>, filtered: array2<real>)
    requires mask != filtered
    requires mask.Length0 == filtered.Length0 && mask.Length1 == filtered.Length1
    modifies filtered
    ensures forall t, i :: 0 <= t < filtered.Length0 && 0 <= i < filtered.Length1 ==>
      filtered[t, i] == if mask[t, i] == 0.0 then 0.0 else old(filtered[t, i])
  {
    for t := 0 to filtered.Length0
      invariant forall s, i :: 0 <= s < t && 0 <= i < filtered.Length1 ==>
        filtered[s, i] == if mask[s, i] == 0.0 then 0.0 else old(filtered[s, i])
      invariant forall s, i :: t <= s < filtered.Length0 && 0 <= i < filtered.Length1 ==>
        filtered[s, i] == old(filtered[s, i])
    {
      for i := 0 to filtered.Length1
        invariant forall s, k :: 0 <= s < t && 0 <= k < filtered.Length1 ==>
          filtered[s, k] == if mask[s, k] == 0.0 then 0.0 else old(filtered[s, k])
        invariant forall k :: 0 <= k < i ==>
          filtered[t, k] == if mask[t, k] == 0.0 then 0.0 else old(filtered[t, k])
        invariant forall s, k :: 0 <= s < filtered.Length0 && (s > t || (s == t && k >= i)) && 0 <= k < filtered.Length1 ==>
          filtered[s, k] == old(filtered[s, k])
      {
        if mask[t, i] == 0.0 {
          filtered[t, i] := 0.0;
        }
      }
    }
  }

  // ---------------------------------------------------------------------
  // Non-max suppression
  // ---------------------------------------------------------------------

  /**
   * _non_max_suppression: a cell keeps its value exactly when it is the
   * largest in its time footprint x frequency footprint, and is 0 otherwise.
   * The spectrogram itself is left as it is.
   */
  method NonMaxSuppression(spectrogram: array2<real>, times: seq<real>, frequencies: seq<real>,
                           minWindow: real, divisor: real, timeWindow: real) returns (filtered: array2<real>)
    requires spectrogram.Length0 == |times| && spectrogram.Length1 == |frequencies|
    requires divisor != 0.0 && FrequencyWindowsNonNegative(frequencies, minWindow, divisor)
    requires timeWindow >= 0.0
    ensures fresh(filtered)
    ensures filtered.Length0 == spectrogram.Length0 && filtered.Length1 == spectrogram.Length1
    ensures forall t, i :: 0 <= t < filtered.Length0 && 0 <= i < filtered.Length1 ==>
      filtered[t, i] == if IsLocalMax(spectrogram, TimeFootprint(times, t, timeWindow),
                                      FrequencyFootprint(frequencies, i, minWindow, divisor), t, i)
                        then spectrogram[t, i] else 0.0
  {
    var byFrequency := MaxFilterLogFrequency(spectrogram, frequencies, minWindow, divisor);
    filtered := MaxFilterTime(byFrequency, times, timeWindow);
    forall t, i | 0 <= t < filtered.Length0 && 0 <= i < filtered.Length1
      ensures spectrogram[t, i] == filtered[t, i] <==>
        IsLocalMax(spectrogram, TimeFootprint(times, t, timeWindow), FrequencyFootprint(frequencies, i, minWindow, divisor), t, i)
    {
      FootprintHoldsCenter(times, t, timeWindow);
      FootprintHoldsCenter(frequencies, i, FrequencyWindow(frequencies[i], minWindow, divisor));
      NeighbourhoodMax(spectrogram, byFrequency, filtered, TimeFootprint(times, t, timeWindow),
                       FrequencyFootprint(frequencies, i, minWindow, divisor), t, i);
    }
    ZeroWhereDifferent(spectrogram, filtered);
  }

  // ---------------------------------------------------------------------
  // Weak suppression
  // ---------------------------------------------------------------------

  /** spectogram[s, :] */
  function Row(a: array2<real>, s: int): (r: seq<real>)
    reads a
    requires 0 <= s < a.Length0
    ensures |r| == a.Length1
  {
    seq(a.Length1, j requires 0 <= j < a.Length1 reads a => a[s, j])
  }

  /** spectogram[footprint, :], row after row: the values the percentile is taken over. */
  function FootprintValues(a: array2<real>, rows: seq<bool>): (values: seq<real>)
    reads a
    requires |rows| <= a.Length0
  {
    if rows == [] then []
    else FootprintValues(a, rows[..|rows| - 1]) + (if rows[|rows| - 1] then Row(a, |rows| - 1) else [])
  }

  /** The values are exactly the cells of the covered rows. */
  lemma {:induction false} FootprintValuesMembers(a: array2<real>, rows: seq<bool>, v: real)
    requires |rows| <= a.Length0
    ensures v in FootprintValues(a, rows) <==>
      exists s, j :: 0 <= s < |rows| && rows[s] && 0 <= j < a.Length1 && a[s, j] == v
  {
    if rows != [] {
      var n := |rows| - 1;
      FootprintValuesMembers(a, rows[..n], v);
      if rows[n] && v in Row(a, n) {
        var j :| 0 <= j < a.Length1 && Row(a, n)[j] == v;
        assert a[n, j] == v;
      }
      if exists s, j :: 0 <= s < |rows| && rows[s] && 0 <= j < a.Length1 && a[s, j] == v {
        var s, j :| 0 <= s < |rows| && rows[s] && 0 <= j < a.Length1 && a[s, j] == v;
        if s == n {
          assert Row(a, n)[j] == v;
        } else {
          assert rows[..n][s] == rows[s];
        }
      }
    }
  }

  /**
   * The threshold of frame t: the percentile of the spectrogram over the
   * frames within `window` of times[t]. np.percentile's interpolation is the
   * parameter `percentile`.
   */
  function Threshold(spectrogram: array2<real>, times: seq<real>, window: real, q: real,
                     percentile: (seq<real>, real) -> real, t: int): real
    reads spectrogram
    requires spectrogram.Length0 == |times| && 0 <= t < |times|
  {
    percentile(FootprintValues(spectrogram, TimeFootprint(times, t, window)), q)
  }

  /** spectogram.copy() */
  method Copy(a: array2<real>) returns (b: array2<real>)
    ensures fresh(b)
    ensures b.Length0 == a.Length0 && b.Length1 == a.Length1
    ensures forall t, i :: 0 <= t < b.Length0 && 0 <= i < b.Length1 ==> b[t, i] == a[t, i]
  {
    b := new real[a.Length0, a.Length1];
    for t := 0 to a.Length0
      invariant forall s, i :: 0 <= s < t && 0 <= i < b.Length1 ==> b[s, i] == a[s, i]
    {
      for i := 0 to a.Length1
        invariant forall s, k :: 0 <= s < t && 0 <= k < b.Length1 ==> b[s, k] == a[s, k]
        invariant forall k :: 0 <= k < i ==> b[t, k] == a[t, k]
      {
        b[t, i] := a[t, i];
      }
    }
  }

  /**
   * _weak_suppression: on a copy, a cell becomes 0 exactly when it is strictly
   * below the threshold of its frame; every other cell keeps its value.
   */
  method WeakSuppression(spectrogram: array2<real>, times: seq<real>, window: real, q: real,
                         percentile: (seq<real>, real) -> real) returns (suppressed: array2<real>)
    requires spectrogram.Length0 == |times|
    ensures fresh(suppressed)
    ensures suppressed.Length0 == spectrogram.Length0 && suppressed.Length1 == spectrogram.Length1
    ensures forall t, i :: 0 <= t < suppressed.Length0 && 0 <= i < suppressed.Length1 ==>
      suppressed[t, i] == if spectrogram[t, i] < Threshold(spectrogram, times, window, q, percentile, t)
                          then 0.0 else spectrogram[t, i]
  {
    suppressed := Copy(spectrogram);
    for t := 0 to |times|
      invariant forall s, i :: 0 <= s < t && 0 <= i < suppressed.Length1 ==>
        suppressed[s, i] == if spectrogram[s, i] < Threshold(spectrogram, times, window, q, percentile, s)
                            then 0.0 else spectrogram[s, i]
      invariant forall s, i :: t <= s < suppressed.Length0 && 0 <= i < suppressed.Length1 ==>
        suppressed[s, i] == spectrogram[s, i]
    {
      var footprint := Footprint(times, times[t], window);
      var threshold := percentile(FootprintValues(spectrogram, footprint), q);
      for i := 0 to suppressed.Length1
        invariant forall s, k :: 0 <= s < t && 0 <= k < suppressed.Length1 ==>
          suppressed[s, k] == if spectrogram[s, k] < Threshold(spectrogram, times, window, q, percentile, s)
                              then 0.0 else spectrogram[s, k]
        invariant forall k :: 0 <= k < i ==>
          suppressed[t, k] == if spectrogram[t, k] < threshold then 0.0 else spectrogram[t, k]
        invariant forall s, k :: 0 <= s < suppressed.Length0 && (s > t || (s == t && k >= i)) && 0 <= k < suppressed.Length1 ==>
          suppressed[s, k] == spectrogram[s, k]
      {
        if spectrogram[t, i] < threshold {
          suppressed[t, i] := 0.0;
        }
      }
    }
  }

  // ---------------------------------------------------------------------
  // Feature points
  // ---------------------------------------------------------------------

  /** (t, f) comes strictly before (t', f') in row-major order. */
  predicate Before(t: int, f: int, t': int, f': int) {
    t < t' || (t == t' && f < f')
  }

  /** The index pairs are in strictly increasing row-major order. */
  predicate RowMajorIncreasing(timeIndices: seq<int>, frequencyIndices: seq<int>)
    requires |timeIndices| == |frequencyIndices|
  {
    forall k, l :: 0 <= k < l < |timeIndices| ==>
      Before(timeIndices[k], frequencyIndices[k], timeIndices[l], frequencyIndices[l])
  }

  /** np.nonzero(a): the indices of the non-zero cells, in row-major order. */
  method NonZero(a: array2<real>) returns (timeIndices: seq<int>, frequencyIndices: seq<int>)
    ensures |timeIndices| == |frequencyIndices|
    ensures RowMajorIncreasing(timeIndices, frequencyIndices)
    ensures forall k :: 0 <= k < |timeIndices| ==>
      0 <= timeIndices[k] < a.Length0 && 0 <= frequencyIndices[k] < a.Length1
      && a[timeIndices[k], frequencyIndices[k]] != 0.0
    ensures forall t, i :: 0 <= t < a.Length0 && 0 <= i < a.Length1 && a[t, i] != 0.0 ==>
      exists k :: 0 <= k < |timeIndices| && timeIndices[k] == t && frequencyIndices[k] == i
  {
    timeIndices, frequencyIndices := [], [];
    for t := 0 to a.Length0
      invariant |timeIndices| == |frequencyIndices|
      invariant RowMajorIncreasing(timeIndices, frequencyIndices)
      invariant forall k :: 0 <= k < |timeIndices| ==>
        0 <= timeIndices[k] < t && 0 <= frequencyIndices[k] < a.Length1
        && a[timeIndices[k], frequencyIndices[k]] != 0.0
      invariant forall s, i :: 0 <= s < t && 0 <= i < a.Length1 && a[s, i] != 0.0 ==>
        exists k :: 0 <= k < |timeIndices| && timeIndices[k] == s && frequencyIndices[k] == i
    {
      for i := 0 to a.Length1
        invariant |timeIndices| == |frequencyIndices|
        invariant RowMajorIncreasing(timeIndices, frequencyIndices)
        invariant forall k :: 0 <= k < |timeIndices| ==>
          0 <= timeIndices[k] < a.Length0 && 0 <= frequencyIndices[k] < a.Length1
          && a[timeIndices[k], frequencyIndices[k]] != 0.0
          && Before(timeIndices[k], frequencyIndices[k], t, i)
        invariant forall s, j :: 0 <= s < a.Length0 && 0 <= j < a.Length1 && Before(s, j, t, i) && a[s, j] != 0.0 ==>
          exists k :: 0 <= k < |timeIndices| && timeIndices[k] == s && frequencyIndices[k] == j
      {
        ghost var (ts, fs) := (timeIndices, frequencyIndices);
        if a[t, i] != 0.0 {
          timeIndices, frequencyIndices := timeIndices + [t], frequencyIndices + [i];
        }
        forall s, j | 0 <= s < a.Length0 && 0 <= j < a.Length1 && Before(s, j, t, i + 1) && a[s, j] != 0.0
          ensures exists k :: 0 <= k < |timeIndices| && timeIndices[k] == s && frequencyIndices[k] == j
        {
          if Before(s, j, t, i) {
            var k :| 0 <= k < |ts| && ts[k] == s && fs[k] == j;
            assert timeIndices[k] == s && frequencyIndices[k] == j;
          } else {
            assert timeIndices[|ts|] == s && frequencyIndices[|ts|] == j;
          }
        }
      }
    }
  }

  /** The extractor's parameters are usable with these axes. */
  predicate ValidParameters(parameters: Parameters, frequencies: seq<real>) {
    && parameters.frequencyDivisor != 0.0
    && FrequencyWindowsNonNegative(frequencies, parameters.minFrequencyWindowSize, parameters.frequencyDivisor)
    && parameters.timeWindowSize >= 0.0
  }

  /**
   * A cell is a feature point when it is non-zero, the largest in its
   * neighbourhood, and not below the threshold of its frame.
   */
  ghost predicate IsFeature(spectrogram: array2<real>, times: seq<real>, frequencies: seq<real>,
                            parameters: Parameters, percentile: (seq<real>, real) -> real, t: int, i: int)
    reads spectrogram
    requires spectrogram.Length0 == |times| && spectrogram.Length1 == |frequencies|
    requires ValidParameters(parameters, frequencies)
    requires 0 <= t < |times| && 0 <= i < |frequencies|
  {
    && spectrogram[t, i] != 0.0
    && IsLocalMax(spectrogram, TimeFootprint(times, t, parameters.timeWindowSize),
                  FrequencyFootprint(frequencies, i, parameters.minFrequencyWindowSize, parameters.frequencyDivisor), t, i)
    && !(spectrogram[t, i] < Threshold(spectrogram, times, parameters.suppressionTimeWindowSize,
                                       parameters.suppressionPercentile, percentile, t))
  }

  /**
   * extract_feature_points: the (time, frequency) indices of exactly the
   * feature cells, in row-major order.
   */
  method ExtractFeaturePoints(spectrogram: array2<real>, times: seq<real>, frequencies: seq<real>,
                              parameters: Parameters, percentile: (seq<real>, real) -> real)
    returns (timeIndices: seq<int>, frequencyIndices: seq<int>)
    requires spectrogram.Length0 == |times| && spectrogram.Length1 == |frequencies|
    requires ValidParameters(parameters, frequencies)
    ensures |timeIndices| == |frequencyIndices|
    ensures RowMajorIncreasing(timeIndices, frequencyIndices)
    ensures forall k :: 0 <= k < |timeIndices| ==>
      0 <= timeIndices[k] < |times| && 0 <= frequencyIndices[k] < |frequencies|
      && IsFeature(spectrogram, times, frequencies, parameters, percentile, timeIndices[k], frequencyIndices[k])
    ensures forall t, i ::
      (0 <= t < |times| && 0 <= i < |frequencies|
       && IsFeature(spectrogram, times, frequencies, parameters, percentile, t, i)) ==>
      exists k :: 0 <= k < |timeIndices| && timeIndices[k] == t && frequencyIndices[k] == i
  {
    var filtered := NonMaxSuppression(spectrogram, times, frequencies, parameters.minFrequencyWindowSize,
                                      parameters.frequencyDivisor, parameters.timeWindowSize);
    var suppressed := WeakSuppression(spectrogram, times, parameters.suppressionTimeWindowSize,
                                      parameters.suppressionPercentile, percentile);
    ZeroWhereMaskZero(suppressed, filtered);
    assert forall t, i :: 0 <= t < |times| && 0 <= i < |frequencies| ==>
      (filtered[t, i] != 0.0 <==> IsFeature(spectrogram, times, frequencies, parameters, percentile, t, i));
    timeIndices, frequencyIndices := NonZero(filtered);
  }
}
