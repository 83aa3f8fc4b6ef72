/**
 * The fingerprint-manipulation helpers of
 * audiodetective/audiofingerprint/visualize.py: rebuilding target zones from a
 * fingerprint dictionary, the points of the zones, the matched sub-fingerprint,
 * the time pairs behind match's histogram, time shifting and the choice of
 * the peak time difference. Plotting is not modelled.
 */
module Visualize {
  import opened Wrappers
  import opened Descriptors
  import opened Landmarks
  import opened Matcher

  // ---------------------------------------------------------------------
  // _extract_target_zones
  // ---------------------------------------------------------------------

  /** An anchor point with the points of its target zone: one item of the returned list. */
  datatype TargetZone = TargetZone(anchor: Point, points: seq<Point>)

  /** The loop parses every descriptor that has at least one anchor time. */
  predicate Parses(fp: Fingerprint) {
    forall s :: s in fp && fp[s] != {} ==> ParseDescriptor(s).Some?
  }

  /** The anchor and zone point one (descriptor, anchor time) pair stands for. */
  function Relation(d: Descriptor, anchorTime: int): (Point, Point) {
    (Point(anchorTime, d.anchorFrequency), Point(anchorTime + d.deltaTime, d.frequency))
  }

  /** The anchor-to-point relations of the descriptors in `keys`. */
  ghost function RelationsOver(fp: Fingerprint, keys: set<string>): set<(Point, Point)> {
    set s, t | s in keys && s in fp && t in fp[s] && ParseDescriptor(s).Some? :: Relation(ParseDescriptor(s).value, t)
  }

  /** Every anchor-to-point relation the dictionary describes. */
  ghost function Relations(fp: Fingerprint): set<(Point, Point)> {
    RelationsOver(fp, fp.Keys)
  }

  ghost function Anchors(rel: set<(Point, Point)>): set<Point> {
    set r | r in rel :: r.0
  }

  ghost function RelationsOf(d: Descriptor, times: set<int>): set<(Point, Point)> {
    set t | t in times :: Relation(d, t)
  }

  lemma RelationsOfAdd(d: Descriptor, times: set<int>, t: int)
    ensures RelationsOf(d, times + {t}) == (if times == {} then {} else RelationsOf(d, times)) + {Relation(d, t)}
  {
  }

  lemma RelationsOverAdd(fp: Fingerprint, keys: set<string>, s: string)
    requires s in fp
    ensures RelationsOver(fp, keys + {s}) == RelationsOver(fp, keys) + RelationsIfParsed(ParseDescriptor(s), fp[s])
  {
  }

  lemma InRelations(fp: Fingerprint, s: string, t: int, d: Descriptor)
    requires s in fp && t in fp[s] && ParseDescriptor(s) == Some(d)
    ensures Relation(d, t) in Relations(fp)
  {
  }

  /** The anchors of the returned list, in order. */
  function AnchorsOf(zones: seq<TargetZone>): set<Point> {
    set i | 0 <= i < |zones| :: zones[i].anchor
  }

  /**
   * The defaultdict(list) of the loop and the order its keys were inserted
   * in describe the relations `rel`: each anchor once, and under each anchor
   * exactly its related points.
   */
  ghost predicate ZonesHold(zones: map<Point, seq<Point>>, order: seq<Point>, rel: set<(Point, Point)>) {
    && (forall i, j :: 0 <= i < j < |order| ==> order[i] != order[j])
    && (forall a :: a in zones <==> a in order)
    && (forall a :: a in zones ==> zones[a] != [])
    && (forall a, p :: (a, p) in rel ==> a in zones && p in zones[a])
    && (forall a, p :: a in zones && p in zones[a] ==> (a, p) in rel)
  }

  /**
   * `target_zone_indices[anchor].append(point)` on a defaultdict(list): a
   * new anchor becomes the last key.
   */
  function AppendPoint(zones: map<Point, seq<Point>>, order: seq<Point>, anchor: Point, point: Point)
    : (map<Point, seq<Point>>, seq<Point>)
  {
    if anchor in zones then (zones[anchor := zones[anchor] + [point]], order)
    else (zones[anchor := [point]], order + [anchor])
  }

  /** Appending a point keeps the description up to date. */
  lemma AppendPointHolds(zones: map<Point, seq<Point>>, order: seq<Point>, rel: set<(Point, Point)>, anchor: Point, point: Point)
    requires ZonesHold(zones, order, rel)
    ensures var (zones', order') := AppendPoint(zones, order, anchor, point);
      ZonesHold(zones', order', rel + {(anchor, point)})
  {
  }

  /** The relations of `times` under a descriptor, none when it does not parse. */
  ghost function RelationsIfParsed(parsed: Option<Descriptor>, times: set<int>): set<(Point, Point)> {
    if parsed.None? then {} else RelationsOf(parsed.value, times)
  }

  /** One iteration of the inner loop keeps the loop's description. */
  lemma ZoneStep(zones: map<Point, seq<Point>>, order: seq<Point>, before: set<(Point, Point)>,
                 d: Descriptor, doneTimes: set<int>, t: int, anchor: Point, point: Point)
    requires (anchor, point) == Relation(d, t)
    requires ZonesHold(zones, order, before + RelationsOf(d, doneTimes))
    ensures ZonesHold(AppendPoint(zones, order, anchor, point).0, AppendPoint(zones, order, anchor, point).1,
                      before + RelationsOf(d, doneTimes + {t}))
  {
    AppendPointHolds(zones, order, before + RelationsOf(d, doneTimes), anchor, point);
    RelationsOfAdd(d, doneTimes, t);
    assert before + RelationsOf(d, doneTimes) + {Relation(d, t)} == before + RelationsOf(d, doneTimes + {t});
  }

  /**
   * The inner loop of _extract_target_zones for one descriptor, whose values
   * `d` have been parsed: append the zone point of every anchor time under
   * its anchor. (The source parses the descriptor again for every anchor
   * time, always to the same values.)
   */
  method AppendZonePoints(d: Descriptor, times: set<int>, zones: map<Point, seq<Point>>, order: seq<Point>,
                          ghost rel: set<(Point, Point)>)
    returns (zones': map<Point, seq<Point>>, order': seq<Point>)
    requires ZonesHold(zones, order, rel)
    ensures ZonesHold(zones', order', rel + RelationsOf(d, times))
  {
    zones', order' := zones, order;
    var remaining := times;
    ghost var doneTimes: set<int> := {};
    assert rel + RelationsOf(d, doneTimes) == rel;
    while remaining != {}
      invariant remaining !! doneTimes && remaining + doneTimes == times
      invariant ZonesHold(zones', order', rel + RelationsOf(d, doneTimes))
      decreases |remaining|
    {
      ghost var someTime := Pick(remaining);
      var anchorTime :| anchorTime in remaining;
      var anchor := Point(anchorTime, d.anchorFrequency);
      var point := Point(anchorTime + d.deltaTime, d.frequency);
      ZoneStep(zones', order', rel, d, doneTimes, anchorTime, anchor, point);
      zones', order' := AppendPoint(zones', order', anchor, point).0, AppendPoint(zones', order', anchor, point).1;
      remaining := remaining - {anchorTime};
      doneTimes := doneTimes + {anchorTime};
    }
    assert doneTimes == times;
  }

  /** One iteration of the outer loop keeps the loop's description. */
  lemma OuterZoneStep(fp: Fingerprint, done: set<string>, s: string, zones: map<Point, seq<Point>>, order: seq<Point>)
    requires s in fp
    requires fp[s] == {} ==> ZonesHold(zones, order, RelationsOver(fp, done))
    requires fp[s] != {} ==> ParseDescriptor(s).Some? && ZonesHold(zones, order, RelationsOver(fp, done) + RelationsOf(ParseDescriptor(s).value, fp[s]))
    ensures ZonesHold(zones, order, RelationsOver(fp, done + {s}))
  {
    RelationsOverAdd(fp, done, s);
    if fp[s] == {} {
      assert RelationsIfParsed(ParseDescriptor(s), fp[s]) == {};
    }
  }

  /** `[(anchor, points) for anchor, points in target_zone_indices.items()]` */
  function Items(zones: map<Point, seq<Point>>, order: seq<Point>): (items: seq<TargetZone>)
    requires forall a :: a in order ==> a in zones
    ensures |items| == |order|
    ensures forall i :: 0 <= i < |order| ==> items[i] == TargetZone(order[i], zones[order[i]])
  {
    seq(|order|, i requires 0 <= i < |order| => TargetZone(order[i], zones[order[i]]))
  }

  /** The items of a dictionary that describes `rel` list each anchor once, with its points. */
  lemma ItemsHold(zones: map<Point, seq<Point>>, order: seq<Point>, rel: set<(Point, Point)>)
    requires ZonesHold(zones, order, rel)
    ensures var items := Items(zones, order);
      && (forall i, j :: 0 <= i < j < |items| ==> items[i].anchor != items[j].anchor)
      && AnchorsOf(items) == Anchors(rel)
      && forall i, p :: 0 <= i < |items| ==> (p in items[i].points <==> (items[i].anchor, p) in rel)
  {
    var items := Items(zones, order);
    forall a | a in Anchors(rel) ensures a in zones {
      var r :| r in rel && r.0 == a;
    }
    forall a | a in zones ensures a in Anchors(rel) {
      assert zones[a][0] in zones[a];
      assert (a, zones[a][0]) in rel;
    }
    forall a | a in zones ensures a in AnchorsOf(items) {
      var i :| 0 <= i < |order| && order[i] == a;
      assert items[i].anchor == a;
    }
  }

  /**
   * _extract_target_zones(fingerprints): group the zone point (t + d, f) of
   * every descriptor "a,f,d" and anchor time t under the anchor (t, a). The
   * items come out in the order their anchors were first met. A descriptor
   * with an anchor time that is not three or more comma-separated integers
   * raises.
   */
  method ExtractTargetZones(fp: Fingerprint) returns (r: Result<seq<TargetZone>>)
    ensures r.Ok? <==> Parses(fp)
    ensures r.Err? ==> r.error == MalformedDescriptor
    ensures r.Ok? ==> forall i, j :: 0 <= i < j < |r.value| ==> r.value[i].anchor != r.value[j].anchor
    ensures r.Ok? ==> AnchorsOf(r.value) == Anchors(Relations(fp))
    ensures r.Ok? ==> forall i, p :: 0 <= i < |r.value| ==> (p in r.value[i].points <==> (r.value[i].anchor, p) in Relations(fp))
  {
    var zones: map<Point, seq<Point>> := map[];
    var order: seq<Point> := [];
    var keys := fp.Keys;
    ghost var done: set<string> := {};
    while keys != {}
      invariant keys !! done && keys + done == fp.Keys
      invariant forall s :: s in done && fp[s] != {} ==> ParseDescriptor(s).Some?
      invariant ZonesHold(zones, order, RelationsOver(fp, done))
      decreases |keys|
    {
      var descriptor :| descriptor in keys;
      var times := fp[descriptor];
      if times != {} {
        var values := ParseDescriptor(descriptor);
        if values.None? {
          return Err(MalformedDescriptor);
        }
        zones, order := AppendZonePoints(values.value, times, zones, order, RelationsOver(fp, done));
      }
      OuterZoneStep(fp, done, descriptor, zones, order);
      keys := keys - {descriptor};
      done := done + {descriptor};
    }
    ItemsHold(zones, order, RelationsOver(fp, done));
    r := Ok(Items(zones, order));
  }

  /** Every key of a collected fingerprint is a formatted descriptor. */
  lemma CollectedKeysParse(es: seq<Emission>)
    ensures forall s :: s in Collect(es) ==> ParseDescriptor(s).Some? && Format(ParseDescriptor(s).value) == s
  {
    CollectKeys(es);
    forall s | s in Collect(es) ensures ParseDescriptor(s).Some? && Format(ParseDescriptor(s).value) == s {
      var e :| e in es && Format(e.descriptor) == s;
      FormatParse(e.descriptor);
    }
  }

  lemma RelationWitness(fp: Fingerprint, r: (Point, Point)) returns (s: string, t: int)
    requires r in Relations(fp)
    ensures s in fp && t in fp[s] && ParseDescriptor(s).Some? && Relation(ParseDescriptor(s).value, t) == r
  {
    s, t :| s in fp && t in fp[s] && ParseDescriptor(s).Some? && Relation(ParseDescriptor(s).value, t) == r;
  }

  lemma RelationFromEmission(fp: Fingerprint, es: seq<Emission>, anchor: Point, p: Point)
    requires forall d, t :: (Format(d) in fp && t in fp[Format(d)]) <==> Emission(d, t) in es
    requires Emit(anchor, p) in es
    ensures (anchor, p) in Relations(fp)
  {
    var d := Descriptor(anchor.f, p.f, p.t - anchor.t);
    assert Emit(anchor, p) == Emission(d, anchor.t);
    assert Format(d) in fp && anchor.t in fp[Format(d)];
    FormatParse(d);
    InRelations(fp, Format(d), anchor.t, d);
    assert Relation(d, anchor.t) == (anchor, p);
  }

  /** A relation determines its descriptor and anchor time. */
  lemma RelationInverse(d: Descriptor, t: int, anchor: Point, p: Point)
    requires Relation(d, t) == (anchor, p)
    ensures d == Descriptor(anchor.f, p.f, p.t - anchor.t) && t == anchor.t
  {
  }

  lemma EmissionFromRelation(fp: Fingerprint, es: seq<Emission>, s: string, t: int, anchor: Point, p: Point)
    requires s in fp && t in fp[s] && ParseDescriptor(s).Some? && Format(ParseDescriptor(s).value) == s
    requires Relation(ParseDescriptor(s).value, t) == (anchor, p)
    requires forall d, t :: (Format(d) in fp && t in fp[Format(d)]) <==> Emission(d, t) in es
    ensures Emit(anchor, p) in es
  {
    var d := Descriptor(anchor.f, p.f, p.t - anchor.t);
    RelationInverse(ParseDescriptor(s).value, t, anchor, p);
    assert Format(d) in fp && anchor.t in fp[Format(d)];
  }

  /**
   * The zones rebuilt from a fingerprint hold exactly the anchor-to-point
   * relations the fingerprinter emitted: the anchor (t, a) has the point
   * (t + d, f) exactly when the relation with descriptor "a,f,d" was added
   * at anchor time t.
   */
  lemma RelationsOfCollect(es: seq<Emission>)
    ensures Parses(Collect(es))
    ensures forall anchor, p :: (anchor, p) in Relations(Collect(es)) <==> Emit(anchor, p) in es
  {
    CollectedKeysParse(es);
    CollectTimes(es);
    forall anchor, p ensures (anchor, p) in Relations(Collect(es)) <==> Emit(anchor, p) in es {
      if (anchor, p) in Relations(Collect(es)) {
        var s, t := RelationWitness(Collect(es), (anchor, p));
        EmissionFromRelation(Collect(es), es, s, t, anchor, p);
      }
      if Emit(anchor, p) in es {
        RelationFromEmission(Collect(es), es, anchor, p);
      }
    }
  }

  /** For every well-formed descriptor and anchor time t, the zone keyed (t, a) holds (t + d, f). */
  lemma RelationOfDescriptor(fp: Fingerprint, d: Descriptor, t: int)
    requires Format(d) in fp && t in fp[Format(d)]
    ensures (Point(t, d.anchorFrequency), Point(t + d.deltaTime, d.frequency)) in Relations(fp)
  {
    FormatParse(d);
    InRelations(fp, Format(d), t, d);
  }

  // ---------------------------------------------------------------------
  // _extract_points_from_target_zones
  // ---------------------------------------------------------------------

  /** The anchors and zone points of a list of target zones. */
  ghost function ZonePoints(zones: seq<TargetZone>): set<Point> {
    if zones == [] then {}
    else
      var last := zones[|zones| - 1];
      ZonePoints(zones[..|zones| - 1]) + {last.anchor} + Elements(last.points)
  }

  /** The points of a list, as a set. */
  ghost function Elements(s: seq<Point>): set<Point> {
    set p | p in s
  }

  lemma ElementsSnoc(s: seq<Point>, j: int)
    requires 0 <= j < |s|
    ensures Elements(s[..j + 1]) == Elements(s[..j]) + {s[j]}
  {
    assert s[..j + 1] == s[..j] + [s[j]];
  }

  lemma {:induction false} ZonePointsMember(zones: seq<TargetZone>, p: Point)
    ensures p in ZonePoints(zones) <==> exists i :: 0 <= i < |zones| && (p == zones[i].anchor || p in zones[i].points)
  {
    if zones != [] {
      var init := zones[..|zones| - 1];
      ZonePointsMember(init, p);
      if p in ZonePoints(init) {
        var i :| 0 <= i < |init| && (p == init[i].anchor || p in init[i].points);
        assert zones[i] == init[i];
      }
      if exists i :: 0 <= i < |zones| && (p == zones[i].anchor || p in zones[i].points) {
        var i :| 0 <= i < |zones| && (p == zones[i].anchor || p in zones[i].points);
        if i < |init| {
          assert init[i] == zones[i];
        }
      }
    }
  }

  /** `list(s)`: the elements of a set, each once, in an unspecified order. */
  method ListOf(s: set<Point>) returns (r: seq<Point>)
    ensures forall p :: p in r <==> p in s
    ensures forall i, j :: 0 <= i < j < |r| ==> r[i] != r[j]
  {
    r := [];
    var rest := s;
    while rest != {}
      invariant rest <= s
      invariant forall p :: p in r <==> p in s && p !in rest
      invariant forall i, j :: 0 <= i < j < |r| ==> r[i] != r[j]
      decreases |rest|
    {
      ghost var some := Pick(rest);
      var p :| p in rest;
      r := r + [p];
      rest := rest - {p};
    }
  }

  /**
   * _extract_points_from_target_zones(target_zones): every anchor and every
   * zone point, each once.
   */
  method ExtractPointsFromTargetZones(zones: seq<TargetZone>) returns (points: seq<Point>)
    ensures forall p :: p in points <==> p in ZonePoints(zones)
    ensures forall i, j :: 0 <= i < j < |points| ==> points[i] != points[j]
  {
    var extracted: set<Point> := {};
    for i := 0 to |zones|
      invariant extracted == ZonePoints(zones[..i])
    {
      var zone := zones[i];
      extracted := extracted + {zone.anchor};
      for j := 0 to |zone.points|
        invariant extracted == ZonePoints(zones[..i]) + {zone.anchor} + Elements(zone.points[..j])
      {
        ElementsSnoc(zone.points, j);
        extracted := extracted + {zone.points[j]};
      }
      assert zone.points[..|zone.points|] == zone.points;
      assert zones[..i + 1][..i] == zones[..i];
    }
    assert zones[..|zones|] == zones;
    points := ListOf(extracted);
  }

  /** The points of the zones rebuilt from a fingerprint are the anchors and the targets of its relations. */
  lemma ZonePointsOfRelations(zones: seq<TargetZone>, rel: set<(Point, Point)>)
    requires AnchorsOf(zones) == Anchors(rel)
    requires forall i, p :: 0 <= i < |zones| ==> (p in zones[i].points <==> (zones[i].anchor, p) in rel)
    ensures forall p :: p in ZonePoints(zones) <==> p in Anchors(rel) || exists a :: (a, p) in rel
  {
    forall p ensures p in ZonePoints(zones) <==> p in Anchors(rel) || exists a :: (a, p) in rel {
      ZonePointsMember(zones, p);
      if exists a :: (a, p) in rel {
        var a :| (a, p) in rel;
        assert a in Anchors(rel);
        var i :| 0 <= i < |zones| && zones[i].anchor == a;
        assert p in zones[i].points;
      }
      if p in Anchors(rel) {
        var i :| 0 <= i < |zones| && zones[i].anchor == p;
      }
      if p in ZonePoints(zones) {
        var i :| 0 <= i < |zones| && (p == zones[i].anchor || p in zones[i].points);
        if p in zones[i].points {
          assert (zones[i].anchor, p) in rel;
        } else {
          assert p in AnchorsOf(zones);
        }
      }
    }
  }

  // ---------------------------------------------------------------------
  // _extract_target_zone_matches
  // ---------------------------------------------------------------------

  /** Some that-time lies within `granularity` of `thisTime - deltaTime`. */
  predicate Near(thisTime: int, thatTimes: set<int>, deltaTime: int, granularity: int) {
    exists that :: that in thatTimes && deltaTime - granularity <= thisTime - that <= deltaTime + granularity
  }

  /** The this-times the matcher keeps for one shared descriptor. */
  ghost function KeptTimes(thisTimes: set<int>, thatTimes: set<int>, deltaTime: int, granularity: int): set<int> {
    set t | t in thisTimes && Near(t, thatTimes, deltaTime, granularity)
  }

  /** The entry of a defaultdict(set): empty for a missing key. */
  function Entry(matches: Fingerprint, k: string): set<int> {
    if k in matches then matches[k] else {}
  }

  /** `matches[descriptor].add(time)` */
  function AddTime(matches: Fingerprint, k: string, t: int): Fingerprint {
    matches[k := Entry(matches, k) + {t}]
  }

  /** The effect of adding every time of `ts` to the entry of k: nothing when `ts` is empty. */
  function AddTimes(matches: Fingerprint, k: string, ts: set<int>): Fingerprint {
    if ts == {} then matches else matches[k := Entry(matches, k) + ts]
  }

  /** Adding a time that is already there changes nothing. */
  lemma AddTimeTwice(matches: Fingerprint, k: string, t: int)
    ensures AddTime(AddTime(matches, k, t), k, t) == AddTime(matches, k, t)
  {
    assert Entry(AddTime(matches, k, t), k) + {t} == Entry(matches, k) + {t};
  }

  lemma AddTimesAdd(matches: Fingerprint, k: string, ts: set<int>, t: int)
    ensures AddTime(AddTimes(matches, k, ts), k, t) == AddTimes(matches, k, ts + {t})
  {
    if ts != {} {
      assert Entry(AddTimes(matches, k, ts), k) + {t} == Entry(matches, k) + (ts + {t});
    } else {
      assert ts + {t} == {t};
    }
  }

  /** One round of the middle loop, for the this-time t. */
  lemma AddKeptStep(matches: Fingerprint, k: string, doneThis: set<int>, t: int, thatTimes: set<int>,
                    deltaTime: int, granularity: int)
    ensures var before := AddTimes(matches, k, KeptTimes(doneThis, thatTimes, deltaTime, granularity));
      (if Near(t, thatTimes, deltaTime, granularity) then AddTime(before, k, t) else before)
      == AddTimes(matches, k, KeptTimes(doneThis + {t}, thatTimes, deltaTime, granularity))
  {
    var kept := KeptTimes(doneThis, thatTimes, deltaTime, granularity);
    KeptTimesAdd(doneThis, t, thatTimes, deltaTime, granularity);
    if Near(t, thatTimes, deltaTime, granularity) {
      AddTimesAdd(matches, k, kept, t);
    } else {
      assert KeptTimes(doneThis + {t}, thatTimes, deltaTime, granularity) == kept;
    }
  }

  /**
   * The innermost loop: add `thisTime` to the entry of k as soon as one
   * that-time is near enough; adding again changes nothing.
   */
  method AddIfNear(matches: Fingerprint, k: string, thisTime: int, thatTimes: set<int>,
                   deltaTime: int, granularity: int) returns (r: Fingerprint)
    ensures r == if Near(thisTime, thatTimes, deltaTime, granularity) then AddTime(matches, k, thisTime) else matches
  {
    r := matches;
    var remaining := thatTimes;
    ghost var doneThat: set<int> := {};
    while remaining != {}
      invariant remaining !! doneThat && remaining + doneThat == thatTimes
      invariant r == if Near(thisTime, doneThat, deltaTime, granularity) then AddTime(matches, k, thisTime) else matches
      decreases |remaining|
    {
      ghost var someTime := Pick(remaining);
      var that :| that in remaining;
      if deltaTime - granularity <= thisTime - that <= deltaTime + granularity {
        AddTimeTwice(matches, k, thisTime);
        assert Near(thisTime, doneThat + {that}, deltaTime, granularity);
        r := AddTime(r, k, thisTime);
      } else {
        NearWithout(thisTime, doneThat, that, deltaTime, granularity);
      }
      remaining := remaining - {that};
      doneThat := doneThat + {that};
    }
    assert doneThat == thatTimes;
  }

  lemma NearWithout(thisTime: int, thatTimes: set<int>, that: int, deltaTime: int, granularity: int)
    requires !(deltaTime - granularity <= thisTime - that <= deltaTime + granularity)
    ensures Near(thisTime, thatTimes + {that}, deltaTime, granularity) == Near(thisTime, thatTimes, deltaTime, granularity)
  {
    if Near(thisTime, thatTimes + {that}, deltaTime, granularity) {
      var w :| w in thatTimes + {that} && deltaTime - granularity <= thisTime - w <= deltaTime + granularity;
      assert w in thatTimes;
    }
  }

  lemma KeptTimesAdd(thisTimes: set<int>, t: int, thatTimes: set<int>, deltaTime: int, granularity: int)
    ensures KeptTimes(thisTimes + {t}, thatTimes, deltaTime, granularity)
         == KeptTimes(thisTimes, thatTimes, deltaTime, granularity)
            + (if Near(t, thatTimes, deltaTime, granularity) then {t} else {})
  {
  }

  /** The middle loop: the entry of k gains exactly the kept this-times. */
  method AddKeptTimes(matches: Fingerprint, k: string, thisTimes: set<int>, thatTimes: set<int>,
                      deltaTime: int, granularity: int) returns (r: Fingerprint)
    ensures r == AddTimes(matches, k, KeptTimes(thisTimes, thatTimes, deltaTime, granularity))
  {
    r := matches;
    var times := thisTimes;
    ghost var doneThis: set<int> := {};
    assert KeptTimes(doneThis, thatTimes, deltaTime, granularity) == {};
    while times != {}
      invariant times !! doneThis && times + doneThis == thisTimes
      invariant r == AddTimes(matches, k, KeptTimes(doneThis, thatTimes, deltaTime, granularity))
      decreases |times|
    {
      ghost var someTime := Pick(times);
      var thisTime :| thisTime in times;
      AddKeptStep(matches, k, doneThis, thisTime, thatTimes, deltaTime, granularity);
      r := AddIfNear(r, k, thisTime, thatTimes, deltaTime, granularity);
      times := times - {thisTime};
      doneThis := doneThis + {thisTime};
    }
    assert doneThis == thisTimes;
  }

  /** `matches` holds, for the shared descriptors of `keys`, the non-empty kept this-times. */
  ghost predicate MatchesOver(matches: Fingerprint, these: Fingerprint, those: Fingerprint, keys: set<string>,
                              deltaTime: int, granularity: int) {
    && (forall k :: k in matches <==>
          k in keys && k in these && k in those && KeptTimes(these[k], those[k], deltaTime, granularity) != {})
    && (forall k :: k in matches && k in these && k in those ==>
          matches[k] == KeptTimes(these[k], those[k], deltaTime, granularity))
  }

  /** One round of the outer loop, for the descriptor k. */
  lemma MatchesStep(matches: Fingerprint, these: Fingerprint, those: Fingerprint, done: set<string>, k: string,
                    deltaTime: int, granularity: int)
    requires MatchesOver(matches, these, those, done, deltaTime, granularity)
    requires k in these && k !in done
    ensures k in those ==>
      MatchesOver(AddTimes(matches, k, KeptTimes(these[k], those[k], deltaTime, granularity)),
                  these, those, done + {k}, deltaTime, granularity)
    ensures k !in those ==> MatchesOver(matches, these, those, done + {k}, deltaTime, granularity)
  {
    if k in those {
      var kept := KeptTimes(these[k], those[k], deltaTime, granularity);
      assert k !in matches;
      if kept != {} {
        assert Entry(matches, k) + kept == kept;
      }
    }
  }

  /** What _extract_target_zone_matches returns. */
  ghost predicate IsZoneMatches(matches: Fingerprint, these: Fingerprint, those: Fingerprint,
                                deltaTime: int, granularity: int) {
    MatchesOver(matches, these, those, these.Keys, deltaTime, granularity)
  }

  /**
   * _extract_target_zone_matches(these, those, delta_time, granularity): for
   * every descriptor both fingerprints have, the this-times with a that-time
   * whose difference lies within `granularity` of `delta_time`; descriptors
   * without such a time get no entry.
   */
  method ExtractTargetZoneMatches(these: Fingerprint, those: Fingerprint, deltaTime: int, granularity: int)
    returns (matches: Fingerprint)
    ensures forall k :: k in matches <==>
      k in these && k in those && KeptTimes(these[k], those[k], deltaTime, granularity) != {}
    ensures forall k :: k in matches ==> matches[k] == KeptTimes(these[k], those[k], deltaTime, granularity)
    ensures IsZoneMatches(matches, these, those, deltaTime, granularity)
  {
    matches := map[];
    var keys := these.Keys;
    ghost var done: set<string> := {};
    while keys != {}
      invariant keys !! done && keys + done == these.Keys
      invariant MatchesOver(matches, these, those, done, deltaTime, granularity)
      decreases |keys|
    {
      var descriptor :| descriptor in keys;
      MatchesStep(matches, these, those, done, descriptor, deltaTime, granularity);
      if descriptor in those {
        matches := AddKeptTimes(matches, descriptor, these[descriptor], those[descriptor], deltaTime, granularity);
      }
      keys := keys - {descriptor};
      done := done + {descriptor};
    }
    assert done == these.Keys;
  }

  /** One of match's combinations for descriptor k and this-time t has a difference near `deltaTime`. */
  ghost predicate NearCorrespondence(these: Fingerprint, those: Fingerprint, k: string, t: int,
                                     deltaTime: int, granularity: int) {
    exists c :: c in Correspondences(these, those) && c.descriptor == k && c.thisTime == t
             && deltaTime - granularity <= Delta(c) <= deltaTime + granularity
  }

  /**
   * A this-time is kept under a descriptor exactly when one of match's
   * combinations for that descriptor and time has a difference within
   * `granularity` of `deltaTime`.
   */
  lemma ZoneMatchesAreNearCorrespondences(matches: Fingerprint, these: Fingerprint, those: Fingerprint,
                                          deltaTime: int, granularity: int)
    requires IsZoneMatches(matches, these, those, deltaTime, granularity)
    ensures forall k, t :: k in matches && t in matches[k] <==> NearCorrespondence(these, those, k, t, deltaTime, granularity)
  {
    forall k, t ensures k in matches && t in matches[k] <==> NearCorrespondence(these, those, k, t, deltaTime, granularity)
    {
      if k in matches && t in matches[k] {
        var that :| that in those[k] && deltaTime - granularity <= t - that <= deltaTime + granularity;
        assert Correspondence(k, t, that) in Correspondences(these, those);
      }
      if NearCorrespondence(these, those, k, t, deltaTime, granularity) {
        var c :| c in Correspondences(these, those) && c.descriptor == k && c.thisTime == t
                 && deltaTime - granularity <= Delta(c) <= deltaTime + granularity;
        assert k in these && k in those && t in these[k] && c.thatTime in those[k];
        assert Near(t, those[k], deltaTime, granularity);
        assert t in KeptTimes(these[k], those[k], deltaTime, granularity);
      }
    }
  }

  /** The matches are a sub-fingerprint of `these`, and their relations a part of its relations. */
  lemma ZoneMatchesWithin(matches: Fingerprint, these: Fingerprint, those: Fingerprint, deltaTime: int, granularity: int)
    requires IsZoneMatches(matches, these, those, deltaTime, granularity)
    ensures forall k :: k in matches ==> k in these && k in those && matches[k] != {} && matches[k] <= these[k]
    ensures Parses(these) ==> Parses(matches)
    ensures Relations(matches) <= Relations(these)
  {
    forall r | r in Relations(matches) ensures r in Relations(these) {
      var s, t := RelationWitness(matches, r);
      InRelations(these, s, t, ParseDescriptor(s).value);
    }
  }

  /** A wider granularity keeps at least as much. */
  lemma ZoneMatchesGrow(m1: Fingerprint, m2: Fingerprint, these: Fingerprint, those: Fingerprint,
                        deltaTime: int, g1: int, g2: int)
    requires IsZoneMatches(m1, these, those, deltaTime, g1)
    requires IsZoneMatches(m2, these, those, deltaTime, g2)
    requires g1 <= g2
    ensures forall k :: k in m1 ==> k in m2 && m1[k] <= m2[k]
  {
    forall k | k in m1 ensures k in m2 && m1[k] <= m2[k] {
      forall t | t in m1[k] ensures t in m2[k] {
        var that :| that in those[k] && deltaTime - g1 <= t - that <= deltaTime + g1;
        assert Near(t, those[k], deltaTime, g2);
      }
      var t := Pick(m1[k]);
    }
  }

  /** A fingerprint matched against itself at difference 0 keeps every time. */
  lemma SelfZoneMatches(matches: Fingerprint, fp: Fingerprint, granularity: int)
    requires granularity >= 0
    requires IsZoneMatches(matches, fp, fp, 0, granularity)
    ensures forall k :: k in matches <==> k in fp && fp[k] != {}
    ensures forall k :: k in matches ==> matches[k] == fp[k]
  {
    forall k | k in fp ensures KeptTimes(fp[k], fp[k], 0, granularity) == fp[k] {
      forall t | t in fp[k] ensures Near(t, fp[k], 0, granularity) {
        assert t - t == 0;
      }
    }
  }

  // ---------------------------------------------------------------------
  // _shift_target_zones_times
  // ---------------------------------------------------------------------

  function ShiftPoint(p: Point, shift: int): Point {
    Point(p.t + shift, p.f)
  }

  /**
   * _shift_target_zones_times(target_zones, shift): every anchor and zone
   * point moved by `shift` in time; frequencies and zone sizes stay.
   */
  function ShiftTargetZones(zones: seq<TargetZone>, shift: int): (r: seq<TargetZone>)
    ensures |r| == |zones|
    ensures forall i :: 0 <= i < |zones| ==>
      && r[i].anchor.t == zones[i].anchor.t + shift && r[i].anchor.f == zones[i].anchor.f
      && |r[i].points| == |zones[i].points|
      && forall j :: 0 <= j < |zones[i].points| ==>
           r[i].points[j].t == zones[i].points[j].t + shift && r[i].points[j].f == zones[i].points[j].f
  {
    seq(|zones|, i requires 0 <= i < |zones| =>
      TargetZone(ShiftPoint(zones[i].anchor, shift),
                 seq(|zones[i].points|, j requires 0 <= j < |zones[i].points| => ShiftPoint(zones[i].points[j], shift))))
  }

  /** Two shifts add up. */
  lemma ShiftTwice(zones: seq<TargetZone>, a: int, b: int)
    ensures ShiftTargetZones(ShiftTargetZones(zones, a), b) == ShiftTargetZones(zones, a + b)
  {
    var left, right := ShiftTargetZones(ShiftTargetZones(zones, a), b), ShiftTargetZones(zones, a + b);
    forall i | 0 <= i < |zones| ensures left[i] == right[i] {
      assert left[i].points == right[i].points;
    }
  }

  /** A shift by 0 changes nothing. */
  lemma ShiftZero(zones: seq<TargetZone>)
    ensures ShiftTargetZones(zones, 0) == zones
  {
    var r := ShiftTargetZones(zones, 0);
    forall i | 0 <= i < |zones| ensures r[i] == zones[i] {
      assert r[i].points == zones[i].points;
    }
  }

  /** Shifting by s and then by -s gives back the zones. */
  lemma ShiftRoundTrip(zones: seq<TargetZone>, shift: int)
    ensures ShiftTargetZones(ShiftTargetZones(zones, shift), -shift) == zones
  {
    ShiftTwice(zones, shift, -shift);
    ShiftZero(zones);
  }

  /** The points of shifted zones are the shifted points. */
  lemma ShiftZonePoints(zones: seq<TargetZone>, shift: int)
    ensures forall p :: p in ZonePoints(ShiftTargetZones(zones, shift)) <==> ShiftPoint(p, -shift) in ZonePoints(zones)
  {
    var r := ShiftTargetZones(zones, shift);
    forall p ensures p in ZonePoints(r) <==> ShiftPoint(p, -shift) in ZonePoints(zones) {
      var q := ShiftPoint(p, -shift);
      ZonePointsMember(r, p);
      ZonePointsMember(zones, q);
      if p in ZonePoints(r) {
        var i :| 0 <= i < |r| && (p == r[i].anchor || p in r[i].points);
        if p in r[i].points {
          var j :| 0 <= j < |r[i].points| && r[i].points[j] == p;
          assert zones[i].points[j] == q;
        }
      }
      if q in ZonePoints(zones) {
        var i :| 0 <= i < |zones| && (q == zones[i].anchor || q in zones[i].points);
        if q in zones[i].points {
          var j :| 0 <= j < |zones[i].points| && zones[i].points[j] == q;
          assert r[i].points[j] == p;
        }
      }
    }
  }

  // ---------------------------------------------------------------------
  // _extract_time_matches
  // ---------------------------------------------------------------------

  /** The (this time, that time) pair of a combination. */
  function TimePair(c: Correspondence): (int, int) {
    (c.thisTime, c.thatTime)
  }

  /** How many combinations have the time pair q. */
  ghost function TimePairCount(cs: set<Correspondence>, q: (int, int)): nat {
    |set c | c in cs && TimePair(c) == q|
  }

  /** `matches` holds every combination's time pair, as often as combinations have it. */
  ghost predicate CountsTimePairs(matches: seq<(int, int)>, cs: set<Correspondence>) {
    forall q :: multiset(matches)[q] == TimePairCount(cs, q)
  }

  lemma TimePairCountAdd(cs: set<Correspondence>, c: Correspondence, q: (int, int))
    requires c !in cs
    ensures TimePairCount(cs + {c}, q) == TimePairCount(cs, q) + (if TimePair(c) == q then 1 else 0)
  {
    var before := set x | x in cs && TimePair(x) == q;
    var after := set x | x in cs + {c} && TimePair(x) == q;
    if TimePair(c) == q {
      assert after == before + {c};
    } else {
      assert after == before;
    }
  }

  lemma TimePairCountRemove(cs: set<Correspondence>, c: Correspondence, q: (int, int))
    requires c in cs
    ensures TimePairCount(cs, q) == TimePairCount(cs - {c}, q) + (if TimePair(c) == q then 1 else 0)
  {
    assert cs == (cs - {c}) + {c};
    TimePairCountAdd(cs - {c}, c, q);
  }

  lemma CountsTimePairsAppend(matches: seq<(int, int)>, cs: set<Correspondence>, c: Correspondence)
    requires CountsTimePairs(matches, cs) && c !in cs
    ensures CountsTimePairs(matches + [TimePair(c)], cs + {c})
  {
    assert multiset(matches + [TimePair(c)]) == multiset(matches) + multiset{TimePair(c)};
    forall q ensures multiset(matches + [TimePair(c)])[q] == TimePairCount(cs + {c}, q) {
      TimePairCountAdd(cs, c, q);
    }
  }

  /** One round of the innermost loop, for the that-time `thatTime`. */
  lemma TimePairStep(result: seq<(int, int)>, visited: set<Correspondence>, descriptor: string, thisTime: int,
                     thatTimes: set<int>, doneThat: set<int>, thatTime: int)
    requires CountsTimePairs(result, visited + Pairs(descriptor, {thisTime}, doneThat))
    requires visited !! Pairs(descriptor, {thisTime}, thatTimes)
    requires thatTime in thatTimes && thatTime !in doneThat
    ensures CountsTimePairs(result + [(thisTime, thatTime)], visited + Pairs(descriptor, {thisTime}, doneThat + {thatTime}))
  {
    var c := Correspondence(descriptor, thisTime, thatTime);
    var sofar := visited + Pairs(descriptor, {thisTime}, doneThat);
    assert c in Pairs(descriptor, {thisTime}, thatTimes);
    assert c !in Pairs(descriptor, {thisTime}, doneThat);
    CountsTimePairsAppend(result, sofar, c);
    PairsAddThat(descriptor, thisTime, doneThat, thatTime);
    assert sofar + {c} == visited + Pairs(descriptor, {thisTime}, doneThat + {thatTime});
  }

  /** The innermost loop: one this-time against every that-time of the descriptor. */
  method AppendTimePairs(matches: seq<(int, int)>, descriptor: string, thisTime: int, thatTimes: set<int>,
                         ghost visited: set<Correspondence>) returns (result: seq<(int, int)>)
    requires CountsTimePairs(matches, visited)
    requires visited !! Pairs(descriptor, {thisTime}, thatTimes)
    ensures CountsTimePairs(result, visited + Pairs(descriptor, {thisTime}, thatTimes))
  {
    result := matches;
    var remaining := thatTimes;
    ghost var doneThat: set<int> := {};
    assert visited + Pairs(descriptor, {thisTime}, doneThat) == visited;
    while remaining != {}
      invariant remaining !! doneThat && remaining + doneThat == thatTimes
      invariant CountsTimePairs(result, visited + Pairs(descriptor, {thisTime}, doneThat))
      decreases |remaining|
    {
      ghost var someTime := Pick(remaining);
      var thatTime :| thatTime in remaining;
      TimePairStep(result, visited, descriptor, thisTime, thatTimes, doneThat, thatTime);
      result := result + [(thisTime, thatTime)];
      remaining := remaining - {thatTime};
      doneThat := doneThat + {thatTime};
    }
  }

  /** The middle loop: every this-time of a shared descriptor against every that-time. */
  method AppendDescriptorTimePairs(matches: seq<(int, int)>, descriptor: string, thisTimes: set<int>,
                                   thatTimes: set<int>, ghost visited: set<Correspondence>)
    returns (result: seq<(int, int)>)
    requires CountsTimePairs(matches, visited)
    requires forall c :: c in visited ==> c.descriptor != descriptor
    ensures CountsTimePairs(result, visited + Pairs(descriptor, thisTimes, thatTimes))
  {
    result := matches;
    var times := thisTimes;
    ghost var doneThis: set<int> := {};
    assert visited + Pairs(descriptor, doneThis, thatTimes) == visited;
    while times != {}
      invariant times !! doneThis && times + doneThis == thisTimes
      invariant CountsTimePairs(result, visited + Pairs(descriptor, doneThis, thatTimes))
      decreases |times|
    {
      ghost var someTime := Pick(times);
      var thisTime :| thisTime in times;
      ghost var sofar := visited + Pairs(descriptor, doneThis, thatTimes);
      assert sofar !! Pairs(descriptor, {thisTime}, thatTimes);
      result := AppendTimePairs(result, descriptor, thisTime, thatTimes, sofar);
      PairsAddThis(descriptor, doneThis, thisTime, thatTimes);
      assert sofar + Pairs(descriptor, {thisTime}, thatTimes) == visited + Pairs(descriptor, doneThis + {thisTime}, thatTimes);
      times := times - {thisTime};
      doneThis := doneThis + {thisTime};
    }
    assert doneThis == thisTimes;
  }

  /**
   * _extract_time_matches(these, those): the (this time, that time) pair of
   * every combination match visits, each as often as it occurs.
   */
  method ExtractTimeMatches(these: Fingerprint, those: Fingerprint) returns (matches: seq<(int, int)>)
    ensures CountsTimePairs(matches, Correspondences(these, those))
  {
    matches := [];
    var keys := these.Keys;
    ghost var done: set<string> := {};
    while keys != {}
      invariant keys !! done && keys + done == these.Keys
      invariant CountsTimePairs(matches, CorrespondencesOver(these, those, done))
      decreases |keys|
    {
      var descriptor :| descriptor in keys;
      if descriptor in those {
        OverOthers(these, those, done, descriptor);
        matches := AppendDescriptorTimePairs(matches, descriptor, these[descriptor], those[descriptor],
                                             CorrespondencesOver(these, those, done));
      }
      OverAdd(these, those, done, descriptor);
      keys := keys - {descriptor};
      done := done + {descriptor};
    }
  }

  /** The difference of each time pair. */
  function Differences(matches: seq<(int, int)>): (ds: seq<int>)
    ensures |ds| == |matches|
    ensures forall i :: 0 <= i < |matches| ==> ds[i] == matches[i].0 - matches[i].1
  {
    seq(|matches|, i requires 0 <= i < |matches| => matches[i].0 - matches[i].1)
  }

  /**
   * The time pairs give match's differences: subtracting the two times of every
   * pair yields each difference as often as match's `delta_times` holds it,
   * and there is one pair per combination.
   */
  lemma TimePairsNone(cs: set<Correspondence>)
    requires CountsTimePairs([], cs)
    ensures cs == {}
  {
    forall c | c in cs ensures TimePairCount(cs, TimePair(c)) >= 1 {
      var same := set x | x in cs && TimePair(x) == TimePair(c);
      assert c in same;
      assert |same| == |same - {c}| + 1;
    }
  }

  /** The last pair of `matches` belongs to some combination c; the rest count the others. */
  lemma TimePairsLast(matches: seq<(int, int)>, cs: set<Correspondence>) returns (c: Correspondence)
    requires CountsTimePairs(matches, cs) && matches != []
    ensures c in cs && TimePair(c) == matches[|matches| - 1]
    ensures CountsTimePairs(matches[..|matches| - 1], cs - {c})
  {
    var n := |matches| - 1;
    var init, last := matches[..n], matches[n];
    assert matches == init + [last];
    assert multiset(matches) == multiset(init) + multiset{last};
    assert TimePairCount(cs, last) >= 1;
    var same := set x | x in cs && TimePair(x) == last;
    c := Pick(same);
    forall q ensures multiset(init)[q] == TimePairCount(cs - {c}, q) {
      TimePairCountRemove(cs, c, q);
    }
  }

  /**
   * The time pairs give match's differences: subtracting the two times of every
   * pair yields each difference as often as match's `delta_times` holds it,
   * and there is one pair per combination.
   */
  lemma {:induction false} TimePairsDeltas(matches: seq<(int, int)>, cs: set<Correspondence>)
    requires CountsTimePairs(matches, cs)
    ensures CountsDeltas(Differences(matches), cs)
    ensures |matches| == |cs|
    decreases |matches|
  {
    if matches == [] {
      TimePairsNone(cs);
      forall d ensures multiset(Differences(matches))[d] == DeltaCount(cs, d) {
        assert (set c | c in cs && Delta(c) == d) == {};
      }
    } else {
      var n := |matches| - 1;
      var c := TimePairsLast(matches, cs);
      TimePairsDeltas(matches[..n], cs - {c});
      CountsDeltasAppend(Differences(matches[..n]), cs - {c}, c);
      assert Differences(matches) == Differences(matches[..n]) + [Delta(c)];
      assert cs - {c} + {c} == cs;
    }
  }

  /** Together with what match collects, the time pairs hold exactly the same differences. */
  lemma TimeMatchesAgreeWithMatch(matches: seq<(int, int)>, deltaTimes: seq<int>, cs: set<Correspondence>)
    requires CountsTimePairs(matches, cs)
    requires CountsDeltas(deltaTimes, cs)
    ensures multiset(Differences(matches)) == multiset(deltaTimes)
    ensures |matches| == |deltaTimes|
  {
    TimePairsDeltas(matches, cs);
    assert forall d :: multiset(Differences(matches))[d] == multiset(deltaTimes)[d];
    assert multiset(Differences(matches)) == multiset(deltaTimes);
    assert |multiset(Differences(matches))| == |Differences(matches)|;
  }

  // ---------------------------------------------------------------------
  // The time difference and granularity visualize_match chooses
  // ---------------------------------------------------------------------

  /** `list.index(x)`: the first position of x, or None where Python raises ValueError. */
  function FirstIndex(s: seq<int>, x: int): (r: Option<nat>)
    ensures r.None? <==> x !in s
    ensures r.Some? ==> r.value < |s| && s[r.value] == x && forall j :: 0 <= j < r.value ==> s[j] != x
  {
    if s == [] then None
    else if s[0] == x then Some(0)
    else
      match FirstIndex(s[1..], x)
      case None => None
      case Some(i) => Some(i + 1)
  }

  /**
   * `bin_edges[list(filtered_histogram).index(score)]`: the left edge of the
   * first smoothed bin that reaches the score, the edges being
   * range(min(delta_times), max(delta_times) + 2).
   */
  ghost function PeakDeltaTime(cs: set<Correspondence>, size: int): (d: int)
    requires cs != {}
  {
    var f := SlidingSum(Bins(cs), size);
    var i := FirstIndex(f, SeqMax(f));
    if i.Some? then Lowest(cs) + i.value else Lowest(cs)
  }

  /**
   * The chosen difference is a difference that occurs between the smallest and
   * the largest, its smoothed bin equals the score of match, and every smoothed
   * bin before it scores less.
   */
  lemma PeakDeltaTimeIsFirstPeak(these: Fingerprint, those: Fingerprint, size: int)
    requires Correspondences(these, those) != {} && size >= 1
    ensures var cs := Correspondences(these, those);
      var d := PeakDeltaTime(cs, size);
      var f := SlidingSum(Bins(cs), size);
      && Lowest(cs) <= d <= Highest(cs)
      && Ok(f[d - Lowest(cs)]) == MatchSpec(these, those, size)
      && forall j :: 0 <= j < d - Lowest(cs) ==> f[j] < f[d - Lowest(cs)]
  {
    var cs := Correspondences(these, those);
    var f := SlidingSum(Bins(cs), size);
    var i := FirstIndex(f, SeqMax(f));
    assert i.Some?;
    forall j | 0 <= j < i.value ensures f[j] < f[i.value] {
      assert f[j] != SeqMax(f);
    }
  }

  /** `parameters.histogram_filter_size // 2`: half the smoothing window. */
  function Granularity(parameters: Parameters): (g: int)
    ensures parameters.histogramFilterSize >= 1 ==> 0 <= g && 2 * g <= parameters.histogramFilterSize
    ensures parameters.histogramFilterSize % 2 == 1 ==> 2 * g + 1 == parameters.histogramFilterSize
  {
    parameters.histogramFilterSize / 2
  }
}
