/** The containment and overlap passes of the root scripts' later geometry module
    (geometry_utils.py). Against geometry.py a contained brunnel must also run along the route
    (else UNALIGNED), a brunnel whose span cannot be computed is evicted (NO_ROUTE_SPAN), and
    contained brunnels whose spans overlap are thinned to the one nearest the route. Shapely's
    containment test, the closest segment search and the bearing comparison are inputs. */
module RootGeometryUtils {
  import opened Base
  import opened Seqs
  import opened Graphs
  import opened WayModel
  import opened LinearRef
  import opened DistanceUtils
  import opened OverlapGrouping
  import RootGeometry
  import PkgBrunnel

  /** What the model is told about one brunnel: Shapely's containment verdict, whether a
      closest pair of brunnel and route segments was found, the bearing comparison at that
      pair, and the projections of each coordinate onto the route segments. */
  datatype Probe = Probe(contains: bool, segmentsFound: bool, bearingsAligned: bool,
                         hits: seq<seq<SegmentHit<Position>>>)

  predicate ProbeFits(route: seq<Position>, w: Way, p: Probe)
  {
    |p.hits| == |w.coords| && RootGeometry.HitsFit(route, p.hits)
  }

  /** `check_bearing_alignment`: a brunnel or route of fewer than two points, or a missing
      closest segment pair, is not aligned; otherwise the bearing comparison decides. The
      guards are those of the package's `is_aligned_with_route`. */
  function CheckBearingAlignment(route: seq<Position>, w: Way, p: Probe): (r: bool)
    ensures r ==> p.bearingsAligned
    ensures r <==> |w.coords| >= 2 && |route| >= 2 && p.segmentsFound && p.bearingsAligned
  {
    PkgBrunnel.IsAlignedWithRoute(|w.coords|, |route|, p.segmentsFound, p.bearingsAligned)
  }

  /** `calculate_brunnel_route_span` of this module, which is that of geometry.py. */
  function Span(route: seq<Position>, cum: seq<real>, p: Probe): Result<RouteSpan>
    requires RootGeometry.HitsFit(route, p.hits)
  {
    RootGeometry.CalculateBrunnelRouteSpan(RootGeometry.Along(route, cum, p.hits))
  }

  /** The loop body for one brunnel. A brunnel filtered by its tags is only marked not
      contained; an unfiltered one ends NOT_CONTAINED, UNALIGNED, NO_ROUTE_SPAN, or contained
      with its span, by the first test it fails. */
  function ContainOne(route: seq<Position>, cum: seq<real>, w: Way, p: Probe): (v: Way)
    requires ProbeFits(route, w, p)
    ensures v.coords == w.coords && v.data == w.data && v.btype == w.btype
    ensures w.reason != NoFilter ==> v == w.(contained := false)
    ensures w.reason == NoFilter ==>
      var inside := RootGeometry.RouteContainsBrunnel(|w.coords|, p.contains);
      var aligned := CheckBearingAlignment(route, w, p);
      && (v.reason == NotContained <==> !inside)
      && (v.reason == Unaligned <==> inside && !aligned)
      && (v.reason == NoRouteSpan <==> inside && aligned && Span(route, cum, p).Err?)
      && (v.reason == NoFilter <==> inside && aligned && Span(route, cum, p).Ok?)
      && (v.reason == NoFilter ==> v == w.(contained := true, span := Some(Span(route, cum, p).value)))
      && (v.reason == NotContained ==> v == w.(contained := false, reason := NotContained))
      && (v.reason == Unaligned || v.reason == NoRouteSpan ==> v == w.(contained := false, reason := v.reason, span := None))
  {
    if w.reason != NoFilter then w.(contained := false)
    else if !RootGeometry.RouteContainsBrunnel(|w.coords|, p.contains) then w.(contained := false, reason := NotContained)
    else if !CheckBearingAlignment(route, w, p) then w.(contained := false, reason := Unaligned, span := None)
    else
      match Span(route, cum, p)
      case Ok(s) => w.(contained := true, span := Some(s))
      case Err(_) => w.(contained := false, reason := NoRouteSpan, span := None)
  }

  /** `find_contained_brunnels`: `dist` is the haversine distance behind the route's
      cumulative distances, `bufferM` the requested buffer and `absCos` the |cos| of the first
      route point's latitude. A route without a line (fewer than two points) changes nothing;
      a zero longitude factor raises before any brunnel is touched. */
  function FindContainedBrunnels(route: seq<Position>, dist: (Position, Position) -> real, bufferM: real, absCos: real,
                                 ws: seq<Way>, probes: seq<Probe>): (r: Result<seq<Way>>)
    requires |probes| == |ws| && forall i :: 0 <= i < |ws| ==> ProbeFits(route, ws[i], probes[i])
    ensures |route| < 2 ==> r == Ok(ws)
    ensures |route| >= 2 ==> (r.Err? <==> absCos == 0.0)
    ensures r.Err? ==> r.error == ZeroDivisionError
    ensures r.Ok? ==> |r.value| == |ws|
    ensures |route| >= 2 && r.Ok? ==> forall i :: 0 <= i < |ws| ==>
      r.value[i] == ContainOne(route, RouteDistances(route, dist), ws[i], probes[i])
  {
    if |route| < 2 then Ok(ws)
    else if RootGeometry.BufferDegrees(RootGeometry.EffectiveBuffer(bufferM), absCos).Err? then Err(ZeroDivisionError)
    else
      var cum := RouteDistances(route, dist);
      Ok(seq(|ws|, i requires 0 <= i < |ws| => ContainOne(route, cum, ws[i], probes[i])))
  }

  /** After the pass a brunnel is contained exactly when it is unfiltered, a contained brunnel
      has a span, a reason set before the pass is kept, and the pass only ever sets
      NOT_CONTAINED, UNALIGNED or NO_ROUTE_SPAN. */
  lemma ContainedIffUnfiltered(route: seq<Position>, dist: (Position, Position) -> real, bufferM: real, absCos: real,
                               ws: seq<Way>, probes: seq<Probe>, i: nat)
    requires |probes| == |ws| && forall j :: 0 <= j < |ws| ==> ProbeFits(route, ws[j], probes[j])
    requires |route| >= 2 && absCos != 0.0 && i < |ws|
    ensures var v := FindContainedBrunnels(route, dist, bufferM, absCos, ws, probes).value[i];
      && (v.contained <==> v.reason == NoFilter)
      && (v.contained ==> v.span.Some?)
      && (ws[i].reason != NoFilter ==> v.reason == ws[i].reason)
      && (v.reason != ws[i].reason ==> v.reason == NotContained || v.reason == Unaligned || v.reason == NoRouteSpan)
  {
  }

  /** With distances that are never negative and projections that stay on their segments, a
      span never fails on a real route: no brunnel is evicted with NO_ROUTE_SPAN, and every
      contained brunnel's span lies within the route. */
  lemma NoEvictionOnRealRoute(route: seq<Position>, dist: (Position, Position) -> real, bufferM: real, absCos: real,
                              ws: seq<Way>, probes: seq<Probe>, i: nat)
    requires |probes| == |ws| && forall j :: 0 <= j < |ws| ==> ProbeFits(route, ws[j], probes[j])
    requires |route| >= 2 && absCos != 0.0 && i < |ws|
    requires forall p, q :: dist(p, q) >= 0.0
    requires forall k, s :: 0 <= k < |probes[i].hits| && 0 <= s < |probes[i].hits[k]| ==>
      0.0 <= probes[i].hits[k][s].t <= 1.0
    ensures var v := FindContainedBrunnels(route, dist, bufferM, absCos, ws, probes).value[i];
      && (v.reason == NoRouteSpan ==> ws[i].reason == NoRouteSpan)
      && (v.contained ==> 0.0 <= v.span.value.start <= v.span.value.end <= RouteDistances(route, dist)[|route| - 1])
  {
    var cum := RouteDistances(route, dist);
    var p := probes[i];
    RootGeometry.AlongWithinRoute(route, dist, p.hits);
    RouteDistancesGrow(route, dist);
    RootGeometry.SpanWithin(RootGeometry.Along(route, cum, p.hits), cum[|route| - 1]);
  }

  /** Running the pass again changes nothing. */
  lemma FindContainedIdempotent(route: seq<Position>, dist: (Position, Position) -> real, bufferM: real, absCos: real,
                                ws: seq<Way>, probes: seq<Probe>)
    requires |probes| == |ws| && forall j :: 0 <= j < |ws| ==> ProbeFits(route, ws[j], probes[j])
    requires |route| >= 2 && absCos != 0.0
    ensures var once := FindContainedBrunnels(route, dist, bufferM, absCos, ws, probes).value;
      FindContainedBrunnels(route, dist, bufferM, absCos, once, probes) == Ok(once)
  {
    var cum := RouteDistances(route, dist);
    var once := FindContainedBrunnels(route, dist, bufferM, absCos, ws, probes).value;
    forall i | 0 <= i < |ws| ensures ProbeFits(route, once[i], probes[i]) && ContainOne(route, cum, once[i], probes[i]) == once[i] {
      ContainOneIdempotent(route, cum, ws[i], probes[i]);
    }
    var twice := FindContainedBrunnels(route, dist, bufferM, absCos, once, probes).value;
    assert twice == once;
  }

  lemma ContainOneIdempotent(route: seq<Position>, cum: seq<real>, w: Way, p: Probe)
    requires ProbeFits(route, w, p)
    ensures var v := ContainOne(route, cum, w, p);
      ProbeFits(route, v, p) && ContainOne(route, cum, v, p) == v
  {
  }

  /** The distance from each brunnel coordinate to its closest route point (the haversine
      distance `dist`), or None when finding that point raised. */
  function PointDistances(route: seq<Position>, cum: seq<real>, dist: (Position, Position) -> real,
                          w: Way, hits: seq<seq<SegmentHit<Position>>>): (ds: seq<Option<real>>)
    requires |hits| == |w.coords| && RootGeometry.HitsFit(route, hits)
    ensures |ds| == |w.coords|
    ensures forall k :: 0 <= k < |ds| ==>
      (ds[k].Some? <==> FindClosestPointOnRoute(route, cum, hits[k]).Ok?) &&
      (ds[k].Some? ==> ds[k].value == dist(w.coords[k], FindClosestPointOnRoute(route, cum, hits[k]).value.at))
  {
    seq(|hits|, k requires 0 <= k < |hits| =>
      match FindClosestPointOnRoute(route, cum, hits[k])
      case Ok(q) => Some(dist(w.coords[k], q.at))
      case Err(_) => None)
  }

  /** `calculate_brunnel_average_distance_to_route`: the shared average over the points whose
      closest route point was found. It is finite exactly when the route has points and the
      search succeeded for at least one brunnel point, and then it is the mean of the distances
      found. */
  function AverageDistanceToRoute(route: seq<Position>, cum: seq<real>, dist: (Position, Position) -> real,
                                  w: Way, hits: seq<seq<SegmentHit<Position>>>): (d: Dist)
    requires |hits| == |w.coords| && RootGeometry.HitsFit(route, hits)
    ensures |w.coords| == 0 || |route| == 0 ==> d == Infinite
    ensures d.Finite? <==> |route| > 0 && SomeClosestFound(route, cum, hits)
    ensures d.Finite? ==> IsMean(d.km, Valid(PointDistances(route, cum, dist, w, hits)))
  {
    var ds := PointDistances(route, cum, dist, w, hits);
    FoundIffComputed(route, cum, dist, w, hits);
    AverageDistance(|route| == 0, ds)
  }

  /** The closest route point was found for at least one brunnel point. */
  predicate SomeClosestFound(route: seq<Position>, cum: seq<real>, hits: seq<seq<SegmentHit<Position>>>)
    requires RootGeometry.HitsFit(route, hits)
  {
    exists k :: 0 <= k < |hits| && FindClosestPointOnRoute(route, cum, hits[k]).Ok?
  }

  /** Some distance is computed exactly when some closest point was found. */
  lemma FoundIffComputed(route: seq<Position>, cum: seq<real>, dist: (Position, Position) -> real,
                         w: Way, hits: seq<seq<SegmentHit<Position>>>)
    requires |hits| == |w.coords| && RootGeometry.HitsFit(route, hits)
    ensures |Valid(PointDistances(route, cum, dist, w, hits))| > 0 <==> SomeClosestFound(route, cum, hits)
  {
    var ds := PointDistances(route, cum, dist, w, hits);
    ValidNonEmpty(ds);
    if SomeClosestFound(route, cum, hits) {
      var k :| 0 <= k < |hits| && FindClosestPointOnRoute(route, cum, hits[k]).Ok?;
      assert ds[k].Some?;
    }
  }

  /** The average lies within any bounds on the distance function. */
  lemma AverageToRouteWithinBounds(route: seq<Position>, cum: seq<real>, dist: (Position, Position) -> real,
                                   w: Way, hits: seq<seq<SegmentHit<Position>>>, lo: real, hi: real)
    requires |hits| == |w.coords| && RootGeometry.HitsFit(route, hits)
    requires forall p, q :: lo <= dist(p, q) <= hi
    ensures AverageDistanceToRoute(route, cum, dist, w, hits).Finite? ==>
      lo <= AverageDistanceToRoute(route, cum, dist, w, hits).km <= hi
  {
    var ds := PointDistances(route, cum, dist, w, hits);
    forall x | Some(x) in ds
      ensures lo <= x <= hi
    {
      var k :| 0 <= k < |ds| && ds[k] == Some(x);
    }
    AverageWithinRange(|route| == 0, ds, lo, hi);
  }

  /** On a real route with its own cumulative distances every brunnel with points gets a
      finite average distance. */
  lemma AverageFiniteOnRealRoute(route: seq<Position>, dist: (Position, Position) -> real,
                                 w: Way, hits: seq<seq<SegmentHit<Position>>>)
    requires |hits| == |w.coords| && RootGeometry.HitsFit(route, hits)
    requires |route| >= 1 && |w.coords| >= 1
    requires forall p, q :: dist(p, q) >= 0.0
    requires forall k, s :: 0 <= k < |hits| && 0 <= s < |hits[k]| ==> 0.0 <= hits[k][s].t <= 1.0
    ensures AverageDistanceToRoute(route, RouteDistances(route, dist), dist, w, hits).Finite?
  {
    var cum := RouteDistances(route, dist);
    ClosestWithinRoute(route, dist, hits[0]);
    var ds := PointDistances(route, cum, dist, w, hits);
    assert ds[0] in ds;
    assert ds[0].value in Valid(ds);
  }

  /** The brunnels that take part: contained, with a span, and unfiltered. */
  predicate IsCandidate(w: Way)
  {
    w.contained && w.span.Some? && w.reason == NoFilter
  }

  /** The positions of the candidates, in list order. */
  function CandidateList(ws: seq<Way>): (cs: seq<nat>)
    ensures forall i: nat :: i in cs <==> i < |ws| && IsCandidate(ws[i])
    ensures forall k :: 0 <= k < |cs| ==> cs[k] < |ws| && IsCandidate(ws[cs[k]])
    ensures NoDup(cs)
  {
    var f := (i: nat) => i < |ws| && IsCandidate(ws[i]);
    FilterNoDup(Range(|ws|), f);
    var cs := Filter(Range(|ws|), f);
    assert forall k :: 0 <= k < |cs| ==> cs[k] in cs;
    cs
  }

  /** Candidates a and b (positions in the candidate list) have overlapping spans. */
  function Overlapping(ws: seq<Way>, cs: seq<nat>): Rel
  {
    (a: nat, b: nat) =>
      && a < |cs| && b < |cs| && cs[a] < |ws| && cs[b] < |ws|
      && ws[cs[a]].span.Some? && ws[cs[b]].span.Some?
      && SpansOverlap(ws[cs[a]].span.value, ws[cs[b]].span.value)
  }

  lemma OverlappingSymmetric(ws: seq<Way>, cs: seq<nat>)
    ensures Symmetric(Overlapping(ws, cs))
  {
    forall a: nat, b: nat ensures Overlapping(ws, cs)(a, b) == Overlapping(ws, cs)(b, a) {
      if a < |cs| && b < |cs| && cs[a] < |ws| && cs[b] < |ws| && ws[cs[a]].span.Some? && ws[cs[b]].span.Some? {
        SpansOverlapSymmetric(ws[cs[a]].span.value, ws[cs[b]].span.value);
      }
    }
  }

  /** Candidate a is still unfiltered in `out`. */
  predicate Kept(out: seq<Way>, cs: seq<nat>, a: nat)
  {
    a < |cs| && cs[a] < |out| && out[cs[a]].reason == NoFilter
  }

  /** Candidate a is strictly nearer to the route than candidate b. */
  predicate Nearer(dist: seq<Dist>, cs: seq<nat>, a: nat, b: nat)
  {
    a < |cs| && b < |cs| && cs[a] < |dist| && cs[b] < |dist| && Less(dist[cs[a]], dist[cs[b]])
  }

  /** Brunnel i is the candidate at some position of `demoted`. */
  predicate DemotedAt(cs: seq<nat>, demoted: set<nat>, i: nat)
  {
    exists k :: 0 <= k < |cs| && cs[k] == i && k in demoted
  }

  /** Every demoted candidate becomes NOT_NEAREST and not contained. */
  function Demote(ws: seq<Way>, cs: seq<nat>, demoted: set<nat>): (out: seq<Way>)
    ensures |out| == |ws|
    ensures forall i :: 0 <= i < |ws| ==>
      out[i] == if DemotedAt(cs, demoted, i) then ws[i].(reason := NotNearest, contained := false) else ws[i]
  {
    seq(|ws|, i requires 0 <= i < |ws| =>
      if DemotedAt(cs, demoted, i) then ws[i].(reason := NotNearest, contained := false) else ws[i])
  }

  /** Two candidates connected by a chain of overlaps are never both kept, every candidate is
      connected to a kept one, and a candidate strictly nearer than everything it is connected
      to is kept. No candidate is strictly nearer than a kept candidate it is connected to, so
      with ties a least-distance one is kept. */
  ghost predicate OnePerOverlapGroup(ws: seq<Way>, cs: seq<nat>, dist: seq<Dist>, out: seq<Way>)
  {
    var ov := Overlapping(ws, cs);
    && (forall a: nat, b: nat :: a != b && Reachable(ov, a, b) && Kept(out, cs, a) ==> !Kept(out, cs, b))
    && (forall a: nat :: a < |cs| ==> ReachesKept(ov, cs, out, a))
    && (forall a: nat :: a < |cs| && (forall b: nat :: b != a && Reachable(ov, a, b) ==> Nearer(dist, cs, a, b)) ==>
          Kept(out, cs, a))
    && (forall a: nat, b: nat :: a != b && Reachable(ov, a, b) && Kept(out, cs, a) ==> !Nearer(dist, cs, b, a))
  }

  /** Candidate a is joined by overlaps to a kept candidate (possibly itself). */
  ghost predicate ReachesKept(ov: Rel, cs: seq<nat>, out: seq<Way>, a: nat)
  {
    exists b: nat :: Reachable(ov, a, b) && Kept(out, cs, b)
  }

  /** Every brunnel's average distance to the route. */
  function Averages(route: seq<Position>, cum: seq<real>, dist: (Position, Position) -> real,
                    ws: seq<Way>, hits: seq<seq<seq<SegmentHit<Position>>>>): (avg: seq<Dist>)
    requires |hits| == |ws| && forall i :: 0 <= i < |ws| ==> |hits[i]| == |ws[i].coords| && RootGeometry.HitsFit(route, hits[i])
    ensures |avg| == |ws|
    ensures forall i :: 0 <= i < |ws| && |ws[i].coords| == 0 ==> avg[i] == Infinite
  {
    seq(|ws|, i requires 0 <= i < |ws| => AverageDistanceToRoute(route, cum, dist, ws[i], hits[i]))
  }

  /** `filter_overlapping_brunnels`: `cum` is the route's cumulative distances as passed in,
      `dist` the haversine distance and `hits[i]` the projections of brunnel i's coordinates. */
  method FilterOverlappingBrunnels(route: seq<Position>, cum: seq<real>, dist: (Position, Position) -> real,
                                   ws: seq<Way>, hits: seq<seq<seq<SegmentHit<Position>>>>) returns (out: seq<Way>)
    requires |hits| == |ws| && forall i :: 0 <= i < |ws| ==> |hits[i]| == |ws[i].coords| && RootGeometry.HitsFit(route, hits[i])
    ensures |route| == 0 || |ws| == 0 ==> out == ws
    ensures |out| == |ws|
    ensures forall i :: 0 <= i < |ws| && out[i] != ws[i] ==>
      IsCandidate(ws[i]) && out[i] == ws[i].(reason := NotNearest, contained := false)
    ensures (forall i :: 0 <= i < |ws| ==> (ws[i].contained <==> ws[i].reason == NoFilter)) ==>
      forall i :: 0 <= i < |ws| ==> (out[i].contained <==> out[i].reason == NoFilter)
    ensures |route| > 0 ==> OnePerOverlapGroup(ws, CandidateList(ws), Averages(route, cum, dist, ws, hits), out)
  {
    if |route| == 0 || |ws| == 0 {
      if |route| > 0 {
        Untouched(ws, CandidateList(ws), Averages(route, cum, dist, ws, hits));
      }
      return ws;
    }
    var cs := CandidateList(ws);
    var avg := Averages(route, cum, dist, ws, hits);
    if |cs| < 2 {
      Untouched(ws, cs, avg);
      return ws;
    }
    var ov := Overlapping(ws, cs);
    OverlappingSymmetric(ws, cs);
    var cdist := seq(|cs|, k requires 0 <= k < |cs| => avg[cs[k]]);
    var demoted := DemoteAllButNearest(ov, cdist);
    out := Demote(ws, cs, demoted);
    KeptIffNotDemoted(ws, cs, demoted, out);
    OneSurvivorEach(ws, cs, avg, cdist, demoted, out);
  }

  /** With fewer than two candidates nothing is marked, and the promise holds of the input. */
  lemma Untouched(ws: seq<Way>, cs: seq<nat>, dist: seq<Dist>)
    requires |cs| < 2
    requires forall k :: 0 <= k < |cs| ==> cs[k] < |ws| && ws[cs[k]].reason == NoFilter
    ensures OnePerOverlapGroup(ws, cs, dist, ws)
  {
    var ov := Overlapping(ws, cs);
    forall a: nat, b: nat | a != b && Reachable(ov, a, b) ensures false {
      ReachedFromEdge(ov, a, b);
      ReachedByEdge(ov, a, b);
    }
    forall a: nat | a < |cs| ensures ReachesKept(ov, cs, ws, a) {
      ReachRefl(ov, a);
      assert Kept(ws, cs, a);
    }
  }

  /** A candidate stays unfiltered exactly when its position is not demoted: candidates start
      unfiltered, and positions in the candidate list are distinct brunnels. */
  lemma KeptIffNotDemoted(ws: seq<Way>, cs: seq<nat>, demoted: set<nat>, out: seq<Way>)
    requires forall k :: 0 <= k < |cs| ==> cs[k] < |ws| && ws[cs[k]].reason == NoFilter
    requires NoDup(cs)
    requires out == Demote(ws, cs, demoted)
    ensures forall a :: 0 <= a < |cs| ==> (Kept(out, cs, a) <==> a !in demoted)
  {
    forall a | 0 <= a < |cs| ensures Kept(out, cs, a) <==> a !in demoted {
      if DemotedAt(cs, demoted, cs[a]) {
        var k :| 0 <= k < |cs| && cs[k] == cs[a] && k in demoted;
      } else {
        assert a !in demoted;
      }
    }
  }

  /** The group properties carried over from spared positions to kept candidates. */
  lemma OneSurvivorEach(ws: seq<Way>, cs: seq<nat>, dist: seq<Dist>, cdist: seq<Dist>, demoted: set<nat>, out: seq<Way>)
    requires |dist| == |ws| && forall k :: 0 <= k < |cs| ==> cs[k] < |ws|
    requires |cdist| == |cs| && forall k :: 0 <= k < |cs| ==> cdist[k] == dist[cs[k]]
    requires forall a: nat, b: nat :: a != b && Reachable(Overlapping(ws, cs), a, b) && a !in demoted ==> b in demoted
    requires forall a: nat :: a < |cs| ==> ReachesSpared(Overlapping(ws, cs), |cs|, demoted, a)
    requires forall a: nat :: a < |cs| && (forall b: nat :: b != a && Reachable(Overlapping(ws, cs), a, b) ==> b < |cs| && Less(cdist[a], cdist[b])) ==>
      a !in demoted
    requires forall a: nat, b: nat :: a < |cs| && a !in demoted && b != a && Reachable(Overlapping(ws, cs), a, b) ==>
      b < |cs| && !Less(cdist[b], cdist[a])
    requires |out| == |ws|
    requires forall a :: 0 <= a < |cs| ==> (Kept(out, cs, a) <==> a !in demoted)
    ensures OnePerOverlapGroup(ws, cs, dist, out)
  {
    var ov := Overlapping(ws, cs);
    forall a: nat | a < |cs| ensures ReachesKept(ov, cs, out, a) {
      assert ReachesSpared(ov, |cs|, demoted, a);
      var b: nat :| b < |cs| && Reachable(ov, a, b) && b !in demoted;
      assert Kept(out, cs, b);
    }
    forall a: nat | a < |cs| && (forall b: nat :: b != a && Reachable(ov, a, b) ==> Nearer(dist, cs, a, b))
      ensures Kept(out, cs, a)
    {
    }
    forall a: nat, b: nat | a != b && Reachable(ov, a, b) && Kept(out, cs, a) ensures !Nearer(dist, cs, b, a) {
      assert a !in demoted;
    }
  }
}
