/**
 * The fingerprint generator of audiodetective/audiofingerprint/fingerprint.py:
 * each anchor is related to the points of a target zone bounded by a time
 * window [anchor.t + min, anchor.t + max] and a frequency distance, of at most
 * `size` points, taken in sorted (time, frequency) order.
 */
module RangeFingerprint {
  import opened Descriptors
  import opened Landmarks

  /** FingerprintParameters of this generator. */
  datatype Parameters = Parameters(
    windowLength: int,
    windowOverlap: int,
    timeBinSize: int,
    frequencyBinSize: int,
    targetZoneMinTimeOffset: int,
    targetZoneMaxTimeOffset: int,
    targetZoneMaxFrequencyOffset: int,
    targetZoneSize: int)

  /**
   * get_default_parameters(): quantisation with the default bin sizes is the
   * identity, the zone lies strictly after its anchor and holds up to 8 points.
   */
  function DefaultParameters(): (p: Parameters)
    ensures p.timeBinSize == 1 && p.frequencyBinSize == 1
    ensures 0 < p.targetZoneMinTimeOffset <= p.targetZoneMaxTimeOffset
    ensures p.targetZoneMaxFrequencyOffset >= 0 && p.targetZoneSize >= 1
    ensures 0 <= p.windowOverlap < p.windowLength
  {
    Parameters(1024, 512, 1, 1, 32, 128, 128, 8)
  }

  /** The target-zone geometry handed to find_points_in_target_zone. */
  datatype ZoneShape = ZoneShape(minTimeOffset: int, maxTimeOffset: int, maxFrequencyOffset: int, size: int)

  function Abs(x: int): nat {
    if x < 0 then -x else x
  }

  /** The membership test: inside the time window and close enough in frequency. */
  predicate InTargetZone(anchor: Point, p: Point, shape: ZoneShape) {
    && anchor.t + shape.minTimeOffset <= p.t <= anchor.t + shape.maxTimeOffset
    && Abs(anchor.f - p.f) <= shape.maxFrequencyOffset
  }

  /** The points passing the test, in the order of `points`. */
  function Qualifying(anchor: Point, points: seq<Point>, shape: ZoneShape): (q: seq<Point>)
    ensures |q| <= |points|
  {
    if points == [] then []
    else
      var last := points[|points| - 1];
      Qualifying(anchor, points[..|points| - 1], shape) + (if InTargetZone(anchor, last, shape) then [last] else [])
  }

  /** A point qualifies exactly when it is among the points and passes the test. */
  lemma {:induction false} QualifyingMembers(anchor: Point, points: seq<Point>, shape: ZoneShape)
    ensures forall p :: p in Qualifying(anchor, points, shape) <==> p in points && InTargetZone(anchor, p, shape)
  {
    if points != [] {
      var init, last := points[..|points| - 1], points[|points| - 1];
      QualifyingMembers(anchor, init, shape);
      assert points == init + [last];
    }
  }

  lemma {:induction false} QualifyingAppend(anchor: Point, a: seq<Point>, b: seq<Point>, shape: ZoneShape)
    ensures Qualifying(anchor, a + b, shape) == Qualifying(anchor, a, shape) + Qualifying(anchor, b, shape)
  {
    if b != [] {
      var b' := b[..|b| - 1];
      assert (a + b)[..|a + b| - 1] == a + b';
      QualifyingAppend(anchor, a, b', shape);
    } else {
      assert a + b == a;
    }
  }

  /**
   * How many points a zone may hold: `len(target_zone) >= size` is evaluated
   * only after an append, so a size below 1 still admits one point.
   */
  function Cap(size: int): nat {
    if size >= 1 then size else 1
  }

  /** The zone: the first Cap(size) qualifying points. */
  function TargetZone(anchor: Point, points: seq<Point>, shape: ZoneShape): seq<Point> {
    var q := Qualifying(anchor, points, shape);
    if |q| <= Cap(shape.size) then q else q[..Cap(shape.size)]
  }

  /**
   * Zone points lie in the time window and the frequency band; the zone holds
   * at most `size` points (one when size < 1); a qualifying point is left out
   * only when the zone is already full; the zone keeps the sorted order.
   */
  lemma TargetZoneProperties(anchor: Point, points: seq<Point>, shape: ZoneShape)
    ensures var zone := TargetZone(anchor, points, shape);
      && (forall p :: p in zone ==> p in points && InTargetZone(anchor, p, shape))
      && |zone| <= Cap(shape.size)
      && (shape.size >= 1 ==> |zone| <= shape.size)
      && (|zone| < |Qualifying(anchor, points, shape)| ==> |zone| == Cap(shape.size))
      && (Sorted(points) ==> Sorted(zone))
  {
    var q := Qualifying(anchor, points, shape);
    var zone := TargetZone(anchor, points, shape);
    QualifyingMembers(anchor, points, shape);
    forall p | p in zone ensures p in q {
      var i :| 0 <= i < |zone| && zone[i] == p;
      assert q[i] == p;
    }
    if Sorted(points) {
      QualifyingSorted(anchor, points, shape);
    }
  }

  lemma {:induction false} QualifyingSorted(anchor: Point, points: seq<Point>, shape: ZoneShape)
    requires Sorted(points)
    ensures Sorted(Qualifying(anchor, points, shape))
  {
    if points != [] {
      var init, last := points[..|points| - 1], points[|points| - 1];
      QualifyingSorted(anchor, init, shape);
      var q := Qualifying(anchor, init, shape);
      QualifyingMembers(anchor, init, shape);
      forall x | x in q ensures Le(x, last) {
        var i :| 0 <= i < |init| && init[i] == x;
        assert points[i] == x;
      }
      assert Qualifying(anchor, points, shape) == q + (if InTargetZone(anchor, last, shape) then [last] else []);
    }
  }

  /** One more scanned point extends the qualifying prefix by at most that point. */
  lemma QualifyingStep(anchor: Point, points: seq<Point>, i: nat, shape: ZoneShape)
    requires i < |points|
    ensures Qualifying(anchor, points[..i + 1], shape)
         == Qualifying(anchor, points[..i], shape) + (if InTargetZone(anchor, points[i], shape) then [points[i]] else [])
  {
    assert points[..i + 1][..i] == points[..i];
  }

  /** What a scanned prefix qualifies is a prefix of what the whole sequence qualifies. */
  lemma QualifyingPrefix(anchor: Point, points: seq<Point>, i: nat, shape: ZoneShape)
    requires i <= |points|
    ensures var q := Qualifying(anchor, points[..i], shape);
      |q| <= |Qualifying(anchor, points, shape)| && Qualifying(anchor, points, shape)[..|q|] == q
  {
    assert points == points[..i] + points[i..];
    QualifyingAppend(anchor, points[..i], points[i..], shape);
  }

  /**
   * find_points_in_target_zone: scan the sorted points, append each that
   * passes the test, and stop once `size` points are collected.
   */
  method FindPointsInTargetZone(anchor: Point, points: seq<Point>, minTimeOffset: int, maxTimeOffset: int,
                                maxFrequencyOffset: int, size: int) returns (targetZone: seq<Point>)
    ensures targetZone == TargetZone(anchor, points, ZoneShape(minTimeOffset, maxTimeOffset, maxFrequencyOffset, size))
  {
    var shape := ZoneShape(minTimeOffset, maxTimeOffset, maxFrequencyOffset, size);
    var minTime := anchor.t + minTimeOffset;
    var maxTime := anchor.t + maxTimeOffset;
    targetZone := [];
    var i := 0;
    while i < |points|
      invariant 0 <= i <= |points|
      invariant targetZone == Qualifying(anchor, points[..i], shape)
      invariant |targetZone| < Cap(size)
    {
      var point := points[i];
      QualifyingStep(anchor, points, i, shape);
      if minTime <= point.t <= maxTime && Abs(anchor.f - point.f) <= maxFrequencyOffset {
        targetZone := targetZone + [point];
        if |targetZone| >= size {
          QualifyingPrefix(anchor, points, i + 1, shape);
          return;
        }
      }
      i := i + 1;
    }
    assert points[..i] == points;
  }

  // ---------------------------------------------------------------------
  // _fingerprint_from_points
  // ---------------------------------------------------------------------

  /** The `add`s made for the given anchors, each against its zone in `points`. */
  function Emissions(anchors: seq<Point>, points: seq<Point>, shape: ZoneShape): seq<Emission> {
    if anchors == [] then []
    else
      var last := anchors[|anchors| - 1];
      Emissions(anchors[..|anchors| - 1], points, shape) + ZoneEmissions(last, TargetZone(last, points, shape))
  }

  /** The fingerprint of the points: every anchor against its zone, all in sorted order. */
  function FingerprintOf(times: seq<int>, frequencies: seq<int>, shape: ZoneShape): Fingerprint {
    var points := SortPoints(Zip(times, frequencies));
    Collect(Emissions(points, points, shape))
  }

  /**
   * _fingerprint_from_points: sort the points, and for every anchor add its
   * time to the descriptor of each point of its target zone.
   */
  method FingerprintFromPoints(times: seq<int>, frequencies: seq<int>, targetZoneMinTimeOffset: int,
                               targetZoneMaxTimeOffset: int, targetZoneFrequencyOffset: int,
                               targetZoneSize: int) returns (fingerprints: Fingerprint)
    ensures fingerprints == FingerprintOf(times, frequencies,
      ZoneShape(targetZoneMinTimeOffset, targetZoneMaxTimeOffset, targetZoneFrequencyOffset, targetZoneSize))
  {
    var shape := ZoneShape(targetZoneMinTimeOffset, targetZoneMaxTimeOffset, targetZoneFrequencyOffset, targetZoneSize);
    var points := SortPoints(Zip(times, frequencies));
    fingerprints := map[];
    for i := 0 to |points|
      invariant fingerprints == Collect(Emissions(points[..i], points, shape))
    {
      var anchor := points[i];
      var targetZone := FindPointsInTargetZone(anchor, points, targetZoneMinTimeOffset, targetZoneMaxTimeOffset,
                                               targetZoneFrequencyOffset, targetZoneSize);
      fingerprints := AddZone(fingerprints, anchor, targetZone, Emissions(points[..i], points, shape));
      EmissionsSnoc(points, i, shape);
    }
    assert points[..|points|] == points;
  }

  lemma EmissionsSnoc(points: seq<Point>, i: nat, shape: ZoneShape)
    requires i < |points|
    ensures Emissions(points[..i + 1], points, shape)
         == Emissions(points[..i], points, shape) + ZoneEmissions(points[i], TargetZone(points[i], points, shape))
  {
    assert points[..i + 1][..i] == points[..i];
  }

  lemma {:induction false} EmissionsMember(anchors: seq<Point>, points: seq<Point>, shape: ZoneShape, e: Emission)
    ensures e in Emissions(anchors, points, shape)
        <==> exists a, p :: a in anchors && p in TargetZone(a, points, shape) && e == Emit(a, p)
  {
    if anchors != [] {
      var init, last := anchors[..|anchors| - 1], anchors[|anchors| - 1];
      assert anchors == init + [last];
      var zone := TargetZone(last, points, shape);
      EmissionsMember(init, points, shape, e);
      ZoneEmissionsMember(last, zone, e);
      assert Emissions(anchors, points, shape) == Emissions(init, points, shape) + ZoneEmissions(last, zone);
      if e in Emissions(anchors, points, shape) {
        if e in Emissions(init, points, shape) {
          var a, p :| a in init && p in TargetZone(a, points, shape) && e == Emit(a, p);
          assert a in anchors;
        } else {
          var p :| p in zone && e == Emit(last, p);
          assert last in anchors;
        }
      }
      if exists a, p :: a in anchors && p in TargetZone(a, points, shape) && e == Emit(a, p) {
        var a, p :| a in anchors && p in TargetZone(a, points, shape) && e == Emit(a, p);
        if a != last {
          assert a in init;
        }
      }
    }
  }

  /**
   * The time sets and the (anchor, zone point) pairs correspond exactly: t is
   * in the set of the key of d exactly when some input point, as anchor, has
   * a zone point whose relation to it is d, and t is that anchor's time.
   */
  lemma FingerprintPairs(times: seq<int>, frequencies: seq<int>, shape: ZoneShape, d: Descriptor, t: int)
    ensures var fp := FingerprintOf(times, frequencies, shape);
            var sorted := SortPoints(Zip(times, frequencies));
      (Format(d) in fp && t in fp[Format(d)])
        <==> exists a, p :: a in Zip(times, frequencies) && p in TargetZone(a, sorted, shape) && Emit(a, p) == Emission(d, t)
  {
    var input := Zip(times, frequencies);
    var sorted := SortPoints(input);
    var es := Emissions(sorted, sorted, shape);
    CollectTimes(es);
    EmissionsMember(sorted, sorted, shape, Emission(d, t));
    assert forall a :: a in sorted <==> a in input by {
      forall a ensures a in sorted <==> a in input {
        assert a in sorted <==> a in multiset(sorted);
        assert a in input <==> a in multiset(input);
      }
    }
  }

  /** Every emission relates an anchor to a point of its zone, so its descriptor lies in the zone geometry. */
  lemma EmissionGeometry(anchors: seq<Point>, points: seq<Point>, shape: ZoneShape, e: Emission)
    requires e in Emissions(anchors, points, shape)
    ensures InGeometry(e.descriptor, shape)
  {
    EmissionsMember(anchors, points, shape, e);
    var a, p :| a in anchors && p in TargetZone(a, points, shape) && e == Emit(a, p);
    TargetZoneProperties(a, points, shape);
  }

  /** A relation the zone geometry allows: min offset <= dt <= max offset, |af - f| <= max frequency offset. */
  predicate InGeometry(d: Descriptor, shape: ZoneShape) {
    && shape.minTimeOffset <= d.deltaTime <= shape.maxTimeOffset
    && Abs(d.anchorFrequency - d.frequency) <= shape.maxFrequencyOffset
  }

  /**
   * Every key parses back to a descriptor that formats to it and lies in the
   * zone geometry; every key maps to a non-empty set; no points give the
   * empty dictionary.
   */
  lemma FingerprintKeys(times: seq<int>, frequencies: seq<int>, shape: ZoneShape)
    ensures var fp := FingerprintOf(times, frequencies, shape);
      && (forall k :: k in fp ==>
            && ParseDescriptor(k).Some?
            && Format(ParseDescriptor(k).value) == k
            && InGeometry(ParseDescriptor(k).value, shape))
      && (forall k :: k in fp ==> fp[k] != {})
      && (Zip(times, frequencies) == [] ==> fp == map[])
  {
    var fp := FingerprintOf(times, frequencies, shape);
    var sorted := SortPoints(Zip(times, frequencies));
    var es := Emissions(sorted, sorted, shape);
    CollectKeys(es);
    forall k | k in fp
      ensures ParseDescriptor(k).Some? && Format(ParseDescriptor(k).value) == k && InGeometry(ParseDescriptor(k).value, shape)
    {
      var e :| e in es && Format(e.descriptor) == k;
      EmissionGeometry(sorted, sorted, shape, e);
      FormatParse(e.descriptor);
    }
  }

  /** The fingerprint does not depend on the order of the input (time, frequency) pairs. */
  lemma PermutationInvariant(times1: seq<int>, frequencies1: seq<int>, times2: seq<int>, frequencies2: seq<int>,
                             shape: ZoneShape)
    requires multiset(Zip(times1, frequencies1)) == multiset(Zip(times2, frequencies2))
    ensures FingerprintOf(times1, frequencies1, shape) == FingerprintOf(times2, frequencies2, shape)
  {
    SortPermutationInvariant(Zip(times1, frequencies1), Zip(times2, frequencies2));
  }
}
