/**
 * What the two fingerprint generators share: quantised feature points, their
 * (time, frequency) order, floor-division quantisation, and the
 * `collections.defaultdict(set)` that maps each descriptor to the set of
 * anchor times it was produced at.
 */
module Landmarks {
  import opened Descriptors

  /** A feature point as a (time index, frequency index) pair. */
  datatype Point = Point(t: int, f: int)

  /** Python's order on (time, frequency) tuples. */
  predicate Le(p: Point, q: Point) {
    p.t < q.t || (p.t == q.t && p.f <= q.f)
  }

  predicate Sorted(s: seq<Point>) {
    forall i, j :: 0 <= i < j < |s| ==> Le(s[i], s[j])
  }

  /** zip(times, frequencies): pairs up to the shorter of the two. */
  function Zip(times: seq<int>, frequencies: seq<int>): (points: seq<Point>)
    ensures |points| == if |times| <= |frequencies| then |times| else |frequencies|
    ensures forall i :: 0 <= i < |points| ==> points[i] == Point(times[i], frequencies[i])
  {
    if |times| == 0 || |frequencies| == 0 then []
    else [Point(times[0], frequencies[0])] + Zip(times[1..], frequencies[1..])
  }

  // ---------------------------------------------------------------------
  // sorted(zip(times, frequencies), key=lambda point: (point[0], point[1]))
  // ---------------------------------------------------------------------

  function Insert(p: Point, s: seq<Point>): (r: seq<Point>)
    requires Sorted(s)
    ensures Sorted(r)
    ensures multiset(r) == multiset(s) + multiset{p}
    ensures forall x :: x in r ==> x == p || x in s
  {
    if s == [] then [p]
    else if Le(p, s[0]) then [p] + s
    else
      var rest := Insert(p, s[1..]);
      assert s == [s[0]] + s[1..];
      assert forall x :: x in rest ==> Le(s[0], x);
      [s[0]] + rest
  }

  /** The points in ascending (time, frequency) order. */
  function SortPoints(s: seq<Point>): (r: seq<Point>)
    ensures Sorted(r)
    ensures multiset(r) == multiset(s)
  {
    if s == [] then []
    else
      assert s == [s[0]] + s[1..];
      Insert(s[0], SortPoints(s[1..]))
  }

  /** Two sorted sequences with the same elements are equal. */
  lemma {:induction false} SortedUnique(a: seq<Point>, b: seq<Point>)
    requires Sorted(a) && Sorted(b)
    requires multiset(a) == multiset(b)
    ensures a == b
  {
    if a != [] {
      assert a[0] in multiset(b);
      assert b[0] in multiset(a);
      assert a[0] == b[0];
      assert a == [a[0]] + a[1..];
      assert b == [b[0]] + b[1..];
      assert multiset(a) == multiset{a[0]} + multiset(a[1..]);
      assert multiset(b) == multiset{b[0]} + multiset(b[1..]);
      assert multiset(a[1..]) == multiset(a) - multiset{a[0]};
      assert multiset(b[1..]) == multiset(b) - multiset{b[0]};
      SortedUnique(a[1..], b[1..]);
    } else {
      assert |b| == |multiset(b)|;
    }
  }

  /** The sorted order depends only on which points there are, not on their input order. */
  lemma SortPermutationInvariant(a: seq<Point>, b: seq<Point>)
    requires multiset(a) == multiset(b)
    ensures SortPoints(a) == SortPoints(b)
  {
    SortedUnique(SortPoints(a), SortPoints(b));
  }

  // ---------------------------------------------------------------------
  // _quantize(values, bin_size): values // bin_size
  // ---------------------------------------------------------------------

  /** Elementwise floor division by the bin size. */
  function Quantize(values: seq<int>, binSize: int): (r: seq<int>)
    requires binSize > 0
    ensures |r| == |values|
    ensures forall i :: 0 <= i < |r| ==> r[i] * binSize <= values[i] < (r[i] + 1) * binSize
    ensures binSize == 1 ==> r == values
  {
    seq(|values|, i requires 0 <= i < |values| => values[i] / binSize)
  }

  // ---------------------------------------------------------------------
  // The fingerprint dictionary
  // ---------------------------------------------------------------------

  /** {descriptor: set of anchor times} */
  type Fingerprint = map<string, set<int>>

  /**
   * One `fingerprints[descriptor].add(anchor_time)`, with the descriptor kept
   * as its three integers; it becomes a key through Format.
   */
  datatype Emission = Emission(descriptor: Descriptor, time: int)

  /** The defaultdict(set) after one more `add`. */
  function Add(fp: Fingerprint, e: Emission): Fingerprint {
    var key := Format(e.descriptor);
    fp[key := (if key in fp then fp[key] else {}) + {e.time}]
  }

  /** The dictionary built by a run of `add`s on an empty defaultdict(set). */
  function Collect(es: seq<Emission>): (fp: Fingerprint)
    ensures forall k :: k in fp ==> fp[k] != {}
  {
    if es == [] then map[] else Add(Collect(es[..|es| - 1]), es[|es| - 1])
  }

  /** A string is a key exactly when some added descriptor formats to it. */
  lemma {:induction false} CollectKeys(es: seq<Emission>)
    ensures forall k :: k in Collect(es) <==> exists e :: e in es && Format(e.descriptor) == k
  {
    if es != [] {
      var init, last := es[..|es| - 1], es[|es| - 1];
      CollectKeys(init);
      assert es == init + [last];
      assert forall e :: e in es <==> e in init || e == last;
    }
  }

  /** An anchor time is in the set of a descriptor's key exactly when that pair was added. */
  lemma {:induction false} CollectTimes(es: seq<Emission>)
    ensures forall d, t :: (Format(d) in Collect(es) && t in Collect(es)[Format(d)]) <==> Emission(d, t) in es
  {
    if es != [] {
      var init, last := es[..|es| - 1], es[|es| - 1];
      CollectTimes(init);
      assert es == init + [last];
      assert forall e :: e in es <==> e in init || e == last;
      var before, key := Collect(init), Format(last.descriptor);
      assert Collect(es) == before[key := (if key in before then before[key] else {}) + {last.time}];
      forall d, t ensures (Format(d) in Collect(es) && t in Collect(es)[Format(d)]) <==> Emission(d, t) in es {
        FormatInjective(d, last.descriptor);
        if d == last.descriptor {
          assert Format(d) == key;
        } else {
          assert Format(d) != key;
        }
      }
    }
  }

  /** The emission for the relation from `anchor` to the zone point `p`. */
  function Emit(anchor: Point, p: Point): Emission {
    Emission(Descriptor(anchor.f, p.f, p.t - anchor.t), anchor.t)
  }

  /** The emissions of one anchor, one per target-zone point, in zone order. */
  function ZoneEmissions(anchor: Point, zone: seq<Point>): (es: seq<Emission>)
    ensures |es| == |zone|
    ensures forall j :: 0 <= j < |zone| ==> es[j] == Emit(anchor, zone[j])
  {
    if zone == [] then [] else ZoneEmissions(anchor, zone[..|zone| - 1]) + [Emit(anchor, zone[|zone| - 1])]
  }

  /**
   * The `add` written with the descriptor string, as the generators do it,
   * is the Add of the emission.
   */
  lemma AddEmit(fp: Fingerprint, anchor: Point, p: Point)
    ensures var key := FingerprintDescriptor(p.t, p.f, anchor.f, anchor.t);
      Add(fp, Emit(anchor, p)) == fp[key := (if key in fp then fp[key] else {}) + {anchor.t}]
  {
  }

  /** One more zone point adds its emission to the dictionary. */
  lemma CollectZoneStep(before: seq<Emission>, anchor: Point, zone: seq<Point>, j: nat)
    requires j < |zone|
    ensures Collect(before + ZoneEmissions(anchor, zone[..j + 1]))
         == Add(Collect(before + ZoneEmissions(anchor, zone[..j])), Emit(anchor, zone[j]))
  {
    ZoneEmissionsSnoc(anchor, zone, j);
    var es := before + ZoneEmissions(anchor, zone[..j]);
    assert before + ZoneEmissions(anchor, zone[..j + 1]) == es + [Emit(anchor, zone[j])];
    assert (es + [Emit(anchor, zone[j])])[..|es|] == es;
  }

  /**
   * The inner loop both generators share: for every point of the zone, in
   * order, add the anchor time to the set of the point's descriptor.
   */
  method AddZone(fingerprints: Fingerprint, anchor: Point, zone: seq<Point>, ghost before: seq<Emission>)
    returns (result: Fingerprint)
    requires fingerprints == Collect(before)
    ensures result == Collect(before + ZoneEmissions(anchor, zone))
  {
    result := fingerprints;
    assert before + ZoneEmissions(anchor, zone[..0]) == before;
    for j := 0 to |zone|
      invariant result == Collect(before + ZoneEmissions(anchor, zone[..j]))
    {
      var point := zone[j];
      var descriptor := FingerprintDescriptor(point.t, point.f, anchor.f, anchor.t);
      AddEmit(result, anchor, point);
      CollectZoneStep(before, anchor, zone, j);
      result := result[descriptor := (if descriptor in result then result[descriptor] else {}) + {anchor.t}];
    }
    assert zone[..|zone|] == zone;
  }

  lemma ZoneEmissionsSnoc(anchor: Point, zone: seq<Point>, j: nat)
    requires j < |zone|
    ensures ZoneEmissions(anchor, zone[..j + 1]) == ZoneEmissions(anchor, zone[..j]) + [Emit(anchor, zone[j])]
  {
    assert zone[..j + 1][..j] == zone[..j];
  }

  lemma ZoneEmissionsMember(anchor: Point, zone: seq<Point>, e: Emission)
    ensures e in ZoneEmissions(anchor, zone) <==> exists p :: p in zone && e == Emit(anchor, p)
  {
    var es := ZoneEmissions(anchor, zone);
    if e in es {
      var j :| 0 <= j < |es| && es[j] == e;
      assert zone[j] in zone;
    }
  }
}
