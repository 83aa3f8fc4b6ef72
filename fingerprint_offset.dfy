/**
 * The fingerprint generator of audiofingerprint/fingerprint.py: each anchor
 * is related to the `size` points that follow, in sorted (time, frequency)
 * order, the first point later than anchor.t + offset.
 */
module OffsetFingerprint {
  import opened Descriptors
  import opened Landmarks

  /** FingerprintParameters of this generator. */
  datatype Parameters = Parameters(
    windowLength: int,
    windowOverlap: int,
    timeBinSize: int,
    frequencyBinSize: int,
    targetZoneOffset: int,
    targetZoneSize: int)

  /**
   * get_default_parameters(): quantisation with the default bin sizes is the
   * identity, and each anchor is related to 8 points starting 16 time bins on.
   */
  function DefaultParameters(): (p: Parameters)
    ensures p.timeBinSize == 1 && p.frequencyBinSize == 1
    ensures p.targetZoneOffset >= 0 && p.targetZoneSize >= 1
    ensures 0 <= p.windowOverlap < p.windowLength
  {
    Parameters(1024, 512, 1, 1, 16, 8)
  }

  // ---------------------------------------------------------------------
  // find_first_point_after_time
  // ---------------------------------------------------------------------

  /** The index of the first point later than `time`, or |points| when there is none. */
  function FirstAfter(points: seq<Point>, time: int): (i: nat)
    ensures i <= |points|
    ensures forall j :: 0 <= j < i ==> points[j].t <= time
    ensures i < |points| ==> points[i].t > time
  {
    if points == [] then 0
    else if points[0].t > time then 0
    else 1 + FirstAfter(points[1..], time)
  }

  /** The loop of find_first_point_after_time, returning at the first later point. */
  method FindFirstPointAfterTime(points: seq<Point>, time: int) returns (index: nat)
    ensures index <= |points|
    ensures forall j :: 0 <= j < index ==> points[j].t <= time
    ensures index < |points| ==> points[index].t > time
    ensures index == FirstAfter(points, time)
  {
    index := 0;
    while index < |points|
      invariant index <= |points|
      invariant forall j :: 0 <= j < index ==> points[j].t <= time
    {
      if points[index].t > time {
        return;
      }
      index := index + 1;
    }
  }

  /** On sorted points, the first later point starts the run of all later points. */
  lemma FirstAfterSorted(points: seq<Point>, time: int)
    requires Sorted(points)
    ensures var i := FirstAfter(points, time);
      forall j :: 0 <= j < |points| ==> (j < i <==> points[j].t <= time)
  {
    var i := FirstAfter(points, time);
    forall j | i <= j < |points| ensures points[j].t > time {
      assert Le(points[i], points[j]);
    }
  }

  // ---------------------------------------------------------------------
  // points[slice(start, stop)]
  // ---------------------------------------------------------------------

  /** Python's clipping of a slice bound: negative bounds count from the end. */
  function SliceBound(i: int, length: nat): (b: nat)
    ensures b <= length
    ensures 0 <= i <= length ==> b == i
    ensures i > length ==> b == length
    ensures i < 0 ==> b == if i + length < 0 then 0 else i + length
  {
    if i < 0 then (if i + length < 0 then 0 else i + length)
    else if i > length then length
    else i
  }

  /** s[start:stop] with Python's bound rules; a stop at or before the start is empty. */
  function Slice<T>(s: seq<T>, start: int, stop: int): (r: seq<T>)
    ensures var a, b := SliceBound(start, |s|), SliceBound(stop, |s|);
      && |r| == (if a < b then b - a else 0)
      && forall k :: 0 <= k < |r| ==> r[k] == s[a + k]
  {
    var a, b := SliceBound(start, |s|), SliceBound(stop, |s|);
    if a < b then s[a..b] else []
  }

  /** The zone of an anchor: the slice of `size` points from the first point later than anchor.t + offset. */
  function TargetZone(anchor: Point, points: seq<Point>, offset: int, size: int): seq<Point> {
    var start := FirstAfter(points, anchor.t + offset);
    Slice(points, start, start + size)
  }

  lemma ZoneIsSlice(anchor: Point, points: seq<Point>, offset: int, size: int, start: nat)
    requires start == FirstAfter(points, anchor.t + offset)
    ensures TargetZone(anchor, points, offset, size) == Slice(points, start, start + size)
  {
  }

  /**
   * The zone is a run of consecutive points from the start index; for a size
   * of at least 0 it holds min(size, points left) of them. On sorted points
   * every zone point, whatever the size, is later than anchor.t + offset, and
   * every point before the start is not.
   */
  lemma TargetZoneProperties(anchor: Point, points: seq<Point>, offset: int, size: int)
    ensures var start := FirstAfter(points, anchor.t + offset);
            var zone := TargetZone(anchor, points, offset, size);
      && (size >= 0 ==> |zone| == (if size <= |points| - start then size else |points| - start))
      && start + |zone| <= |points|
      && zone == points[start..start + |zone|]
      && (Sorted(points) ==> forall p :: p in zone ==> p.t > anchor.t + offset)
      && (forall j :: 0 <= j < start ==> points[j].t <= anchor.t + offset)
  {
    var start := FirstAfter(points, anchor.t + offset);
    var zone := TargetZone(anchor, points, offset, size);
    if Sorted(points) {
      FirstAfterSorted(points, anchor.t + offset);
      forall p | p in zone ensures p.t > anchor.t + offset {
        var k :| 0 <= k < |zone| && zone[k] == p;
        assert points[start + k] == p;
      }
    }
  }

  /**
   * A negative size gives an empty zone while start + size stays at or above
   * 0; below 0 the stop counts from the end of the points, and the zone runs
   * from the start index up to |points| + start + size.
   */
  lemma NegativeSizeZone(anchor: Point, points: seq<Point>, offset: int, size: int)
    requires size < 0
    ensures var start := FirstAfter(points, anchor.t + offset);
            var zone := TargetZone(anchor, points, offset, size);
      && (start + size >= 0 ==> zone == [])
      && (start + size < 0 && start < |points| + start + size ==> zone == points[start..|points| + start + size])
  {
  }

  // ---------------------------------------------------------------------
  // _fingerprint_from_points
  // ---------------------------------------------------------------------

  /** The `add`s made for the given anchors, each against its zone in `points`. */
  function Emissions(anchors: seq<Point>, points: seq<Point>, offset: int, size: int): seq<Emission> {
    if anchors == [] then []
    else
      var last := anchors[|anchors| - 1];
      Emissions(anchors[..|anchors| - 1], points, offset, size) + ZoneEmissions(last, TargetZone(last, points, offset, size))
  }

  /** The fingerprint of the points: every anchor against its zone, all in sorted order. */
  function FingerprintOf(times: seq<int>, frequencies: seq<int>, offset: int, size: int): Fingerprint {
    var points := SortPoints(Zip(times, frequencies));
    Collect(Emissions(points, points, offset, size))
  }

  lemma EmissionsSnoc(points: seq<Point>, i: nat, offset: int, size: int)
    requires i < |points|
    ensures Emissions(points[..i + 1], points, offset, size)
         == Emissions(points[..i], points, offset, size) + ZoneEmissions(points[i], TargetZone(points[i], points, offset, size))
  {
    assert points[..i + 1][..i] == points[..i];
  }

  /**
   * _fingerprint_from_points: sort the points, and for every anchor add its
   * time to the descriptor of each point of the slice after it.
   */
  method FingerprintFromPoints(times: seq<int>, frequencies: seq<int>, targetZoneOffset: int, targetZoneSize: int)
    returns (fingerprints: Fingerprint)
    ensures fingerprints == FingerprintOf(times, frequencies, targetZoneOffset, targetZoneSize)
  {
    var points := SortPoints(Zip(times, frequencies));
    fingerprints := map[];
    for i := 0 to |points|
      invariant fingerprints == Collect(Emissions(points[..i], points, targetZoneOffset, targetZoneSize))
    {
      var anchor := points[i];
      var startIndex := FindFirstPointAfterTime(points, anchor.t + targetZoneOffset);
      var targetZone := Slice(points, startIndex, startIndex + targetZoneSize);
      ZoneIsSlice(anchor, points, targetZoneOffset, targetZoneSize, startIndex);
      fingerprints := AddZone(fingerprints, anchor, targetZone, Emissions(points[..i], points, targetZoneOffset, targetZoneSize));
      EmissionsSnoc(points, i, targetZoneOffset, targetZoneSize);
    }
    assert points[..|points|] == points;
  }

  lemma {:induction false} EmissionsMember(anchors: seq<Point>, points: seq<Point>, offset: int, size: int, e: Emission)
    ensures e in Emissions(anchors, points, offset, size)
        <==> exists a, p :: a in anchors && p in TargetZone(a, points, offset, size) && e == Emit(a, p)
  {
    if anchors != [] {
      var init, last := anchors[..|anchors| - 1], anchors[|anchors| - 1];
      assert anchors == init + [last];
      var zone := TargetZone(last, points, offset, size);
      EmissionsMember(init, points, offset, size, e);
      ZoneEmissionsMember(last, zone, e);
      assert Emissions(anchors, points, offset, size) == Emissions(init, points, offset, size) + ZoneEmissions(last, zone);
      if e in Emissions(anchors, points, offset, size) {
        if e in Emissions(init, points, offset, size) {
          var a, p :| a in init && p in TargetZone(a, points, offset, size) && e == Emit(a, p);
          assert a in anchors;
        } else {
          var p :| p in zone && e == Emit(last, p);
          assert last in anchors;
        }
      }
      if exists a, p :: a in anchors && p in TargetZone(a, points, offset, size) && e == Emit(a, p) {
        var a, p :| a in anchors && p in TargetZone(a, points, offset, size) && e == Emit(a, p);
        if a != last {
          assert a in init;
        }
      }
    }
  }

  /**
   * t is in the set of the key of d exactly when some input point, as anchor,
   * has a point of its slice whose relation to it is d, and t is that
   * anchor's time.
   */
  lemma FingerprintPairs(times: seq<int>, frequencies: seq<int>, offset: int, size: int, d: Descriptor, t: int)
    ensures var fp := FingerprintOf(times, frequencies, offset, size);
            var sorted := SortPoints(Zip(times, frequencies));
      (Format(d) in fp && t in fp[Format(d)])
        <==> exists a, p :: a in Zip(times, frequencies) && p in TargetZone(a, sorted, offset, size) && Emit(a, p) == Emission(d, t)
  {
    var input := Zip(times, frequencies);
    var sorted := SortPoints(input);
    CollectTimes(Emissions(sorted, sorted, offset, size));
    EmissionsMember(sorted, sorted, offset, size, Emission(d, t));
    assert forall a :: a in sorted <==> a in input by {
      forall a ensures a in sorted <==> a in input {
        assert a in sorted <==> a in multiset(sorted);
        assert a in input <==> a in multiset(input);
      }
    }
  }

  /** On sorted points, every emitted relation has a time difference larger than the offset, for every size. */
  lemma EmissionDelta(points: seq<Point>, offset: int, size: int, e: Emission)
    requires Sorted(points)
    requires e in Emissions(points, points, offset, size)
    ensures e.descriptor.deltaTime > offset
  {
    EmissionsMember(points, points, offset, size, e);
    var a, p :| a in points && p in TargetZone(a, points, offset, size) && e == Emit(a, p);
    TargetZoneProperties(a, points, offset, size);
  }

  /**
   * Every key parses back to a descriptor that formats to it and whose time
   * difference exceeds the offset, for every size; every key
   * maps to a non-empty set; no points give the empty dictionary.
   */
  lemma FingerprintKeys(times: seq<int>, frequencies: seq<int>, offset: int, size: int)
    ensures var fp := FingerprintOf(times, frequencies, offset, size);
      && (forall k :: k in fp ==>
            && ParseDescriptor(k).Some?
            && Format(ParseDescriptor(k).value) == k
            && ParseDescriptor(k).value.deltaTime > offset)
      && (forall k :: k in fp ==> fp[k] != {})
      && (Zip(times, frequencies) == [] ==> fp == map[])
  {
    var fp := FingerprintOf(times, frequencies, offset, size);
    var sorted := SortPoints(Zip(times, frequencies));
    var es := Emissions(sorted, sorted, offset, size);
    CollectKeys(es);
    forall k | k in fp
      ensures && ParseDescriptor(k).Some? && Format(ParseDescriptor(k).value) == k
              && ParseDescriptor(k).value.deltaTime > offset
    {
      var e :| e in es && Format(e.descriptor) == k;
      EmissionDelta(sorted, offset, size, e);
      FormatParse(e.descriptor);
    }
  }

  /** The fingerprint does not depend on the order of the input (time, frequency) pairs. */
  lemma PermutationInvariant(times1: seq<int>, frequencies1: seq<int>, times2: seq<int>, frequencies2: seq<int>,
                             offset: int, size: int)
    requires multiset(Zip(times1, frequencies1)) == multiset(Zip(times2, frequencies2))
    ensures FingerprintOf(times1, frequencies1, offset, size) == FingerprintOf(times2, frequencies2, offset, size)
  {
    SortPermutationInvariant(Zip(times1, frequencies1), Zip(times2, frequencies2));
  }
}
