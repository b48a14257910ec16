/** The containment pass of the oldest generation (geometry.py): every unfiltered brunnel is
    tested against the buffered route, and a contained one gets its span along the route.
    Shapely's buffer and containment test are inputs (one verdict per brunnel), and so are the
    projections of each brunnel coordinate onto the route segments, which feed the distance
    helpers of distance_utils.py. */
module RootGeometry {
  import opened Base
  import opened Seqs
  import opened WayModel
  import opened LinearRef
  import opened DistanceUtils

  /** The first position from i on whose result is an exception, or |rs| when none is. */
  function FirstFailure(rs: seq<Result<real>>, i: nat): (k: nat)
    requires i <= |rs|
    ensures i <= k <= |rs|
    ensures forall j :: i <= j < k ==> rs[j].Ok?
    ensures k < |rs| ==> rs[k].Err?
    decreases |rs| - i
  {
    if i == |rs| then i
    else if rs[i].Err? then i
    else FirstFailure(rs, i + 1)
  }

  /** `calculate_brunnel_route_span`: `along[k]` is the outcome of `find_closest_point_on_route`
      for the brunnel's k-th coordinate (its distance along the route, or the exception). A
      brunnel without coordinates gets the empty span at the route start; the first exception
      escapes; otherwise the span runs from the least to the greatest distance. */
  function CalculateBrunnelRouteSpan(along: seq<Result<real>>): (r: Result<RouteSpan>)
    ensures |along| == 0 ==> r == Ok(RouteSpan(0.0, 0.0, 0.0))
    ensures r.Ok? <==> forall k :: 0 <= k < |along| ==> along[k].Ok?
    ensures r.Err? ==> exists k :: 0 <= k < |along| && along[k] == Err(r.error) &&
                                   forall j :: 0 <= j < k ==> along[j].Ok?
    ensures r.Ok? && |along| > 0 ==>
      && (forall k :: 0 <= k < |along| ==> r.value.start <= along[k].value <= r.value.end)
      && (exists k :: 0 <= k < |along| && along[k].value == r.value.start)
      && (exists k :: 0 <= k < |along| && along[k].value == r.value.end)
    ensures r.Ok? ==> r.value.length == r.value.end - r.value.start >= 0.0
  {
    if |along| == 0 then Ok(MakeRouteSpan(0.0, 0.0, 0.0))
    else
      var k := FirstFailure(along, 0);
      if k < |along| then Err(along[k].error)
      else
        var vs := seq(|along|, j requires 0 <= j < |along| => along[j].value);
        var lo, hi := MinOf(vs), MaxOf(vs);
        assert forall j :: 0 <= j < |along| ==> lo <= along[j].value <= hi by {
          assert forall j :: 0 <= j < |along| ==> vs[j] == along[j].value;
        }
        assert exists j :: 0 <= j < |along| && along[j].value == lo by {
          var j :| 0 <= j < |vs| && vs[j] == lo;
        }
        assert exists j :: 0 <= j < |along| && along[j].value == hi by {
          var j :| 0 <= j < |vs| && vs[j] == hi;
        }
        Ok(MakeRouteSpan(lo, hi, hi - lo))
  }

  /** The distance along the route of a found route point. */
  function AlongOf(p: Result<RoutePoint>): (r: Result<real>)
    ensures r.Ok? <==> p.Ok?
    ensures r.Ok? ==> r.value == p.value.along
    ensures r.Err? ==> r.error == p.error
  {
    match p
    case Ok(q) => Ok(q.along)
    case Err(e) => Err(e)
  }

  /** One list of projections per brunnel coordinate, one projection per route segment. */
  predicate HitsFit(route: seq<Position>, hits: seq<seq<SegmentHit<Position>>>)
  {
    forall k :: 0 <= k < |hits| ==> |route| < 2 || |hits[k]| == |route| - 1
  }

  /** The route distance of each coordinate of a brunnel, `hits[k]` being the projections of its
      k-th coordinate. */
  function Along(route: seq<Position>, cum: seq<real>, hits: seq<seq<SegmentHit<Position>>>): (along: seq<Result<real>>)
    requires HitsFit(route, hits)
    ensures |along| == |hits|
    ensures forall k :: 0 <= k < |along| ==> along[k] == AlongOf(FindClosestPointOnRoute(route, cum, hits[k]))
  {
    seq(|hits|, k requires 0 <= k < |hits| => AlongOf(FindClosestPointOnRoute(route, cum, hits[k])))
  }

  /** With distances that are never negative and projections that stay on their segments, no
      route distance fails and each lies within the route. */
  lemma AlongWithinRoute(route: seq<Position>, dist: (Position, Position) -> real, hits: seq<seq<SegmentHit<Position>>>)
    requires |route| >= 1 && HitsFit(route, hits)
    requires forall p, q :: dist(p, q) >= 0.0
    requires forall k, s :: 0 <= k < |hits| && 0 <= s < |hits[k]| ==> 0.0 <= hits[k][s].t <= 1.0
    ensures var cum := RouteDistances(route, dist);
      var along := Along(route, cum, hits);
      forall k :: 0 <= k < |along| ==> along[k].Ok? && 0.0 <= along[k].value <= cum[|route| - 1]
  {
    var cum := RouteDistances(route, dist);
    var along := Along(route, cum, hits);
    forall k | 0 <= k < |along| ensures along[k].Ok? && 0.0 <= along[k].value <= cum[|route| - 1] {
      ClosestWithinRoute(route, dist, hits[k]);
    }
  }

  /** A span computed from route distances that all lie within the route lies within it too. */
  lemma SpanWithin(along: seq<Result<real>>, total: real)
    requires forall k :: 0 <= k < |along| ==> along[k].Ok? && 0.0 <= along[k].value <= total
    requires total >= 0.0
    ensures var r := CalculateBrunnelRouteSpan(along);
      r.Ok? && 0.0 <= r.value.start <= r.value.end <= total
  {
    var r := CalculateBrunnelRouteSpan(along);
    if |along| > 0 {
      var a :| 0 <= a < |along| && along[a].value == r.value.start;
      var b :| 0 <= b < |along| && along[b].value == r.value.end;
    }
  }

  /** What the model is told about one brunnel: Shapely's verdict on whether the buffered
      route contains the brunnel's line (false when the test raised), and for each of its
      coordinates the projections onto the route segments. */
  datatype Probe = Probe(contains: bool, hits: seq<seq<SegmentHit<Position>>>)

  predicate ProbeFits(route: seq<Position>, w: Way, p: Probe)
  {
    |p.hits| == |w.coords| && HitsFit(route, p.hits)
  }

  /** `route_contains_brunnel`: a brunnel of fewer than two coordinates is never contained;
      otherwise Shapely decides. */
  function RouteContainsBrunnel(coordCount: nat, contains: bool): (r: bool)
    ensures r <==> coordCount >= 2 && contains
  {
    if coordCount < 2 then false else contains
  }

  /** The route buffer in metres actually used: at least 1 m, because a line cannot contain
      another line. */
  function EffectiveBuffer(bufferM: real): (b: real)
    ensures b >= 1.0 && b >= bufferM
    ensures bufferM >= 1.0 ==> b == bufferM
  {
    if bufferM < 1.0 then 1.0 else bufferM
  }

  /** The buffer in degrees: the smaller of the latitude buffer and the longitude buffer at the
      first route point, where `absCos` is |cos| of its latitude. Python raises
      ZeroDivisionError when that factor is exactly zero. */
  function BufferDegrees(bufferM: real, absCos: real): (r: Result<real>)
    ensures r.Err? <==> absCos == 0.0
    ensures r.Err? ==> r.error == ZeroDivisionError
    ensures r.Ok? ==> r.value <= bufferM / 111000.0
    ensures r.Ok? ==> r.value == bufferM / 111000.0 || r.value == bufferM / (111000.0 * absCos)
  {
    if absCos == 0.0 then Err(ZeroDivisionError)
    else Ok(Min(bufferM / 111000.0, bufferM / (111000.0 * absCos)))
  }

  /** Away from the poles (0 < |cos| <= 1) the latitude buffer is the smaller one. */
  lemma BufferIsLatitudeBuffer(bufferM: real, absCos: real)
    requires bufferM >= 0.0 && 0.0 < absCos <= 1.0
    ensures BufferDegrees(bufferM, absCos) == Ok(bufferM / 111000.0)
  {
    var lat, lon := bufferM / 111000.0, bufferM / (111000.0 * absCos);
    LonBufferAtLeast(bufferM, absCos);
    assert lat <= lon;
  }

  lemma LonBufferAtLeast(bufferM: real, absCos: real)
    requires bufferM >= 0.0 && 0.0 < absCos <= 1.0
    ensures bufferM / 111000.0 <= bufferM / (111000.0 * absCos)
  {
    var lat := bufferM / 111000.0;
    var d := 111000.0 * absCos;
    assert d > 0.0;
    assert lat >= 0.0;
    ScaleDown(lat, absCos);
    assert lat * d <= lat * 111000.0;
    assert lat * 111000.0 == bufferM;
    DivAtLeast(bufferM, d, lat);
  }

  lemma ScaleDown(x: real, c: real)
    requires x >= 0.0 && 0.0 < c <= 1.0
    ensures x * (111000.0 * c) <= x * 111000.0
  {
    assert x * (111000.0 * c) == (x * 111000.0) * c;
    assert (x * 111000.0) * c <= (x * 111000.0) * 1.0;
  }

  lemma DivAtLeast(n: real, d: real, q: real)
    requires d > 0.0 && q * d <= n
    ensures q <= n / d
  {
    var r := n / d;
    assert r * d == n;
    if r < q {
      assert r * d < q * d;
    }
  }

  /** The loop body for one brunnel. A brunnel filtered by its tags is only marked not
      contained. An unfiltered one that the route does not contain becomes NOT_CONTAINED; one
      that it contains is marked contained and gets its span, or no span when computing it
      raised. */
  function ContainOne(route: seq<Position>, cum: seq<real>, w: Way, p: Probe): (v: Way)
    requires ProbeFits(route, w, p)
    ensures v.coords == w.coords && v.data == w.data && v.btype == w.btype
    ensures w.reason != NoFilter ==> v == w.(contained := false)
    ensures w.reason == NoFilter && !RouteContainsBrunnel(|w.coords|, p.contains) ==>
      v == w.(contained := false, reason := NotContained)
    ensures w.reason == NoFilter && RouteContainsBrunnel(|w.coords|, p.contains) ==>
      && v.contained && v.reason == NoFilter
      && (v.span.Some? <==> CalculateBrunnelRouteSpan(Along(route, cum, p.hits)).Ok?)
      && (v.span.Some? ==> v.span.value == CalculateBrunnelRouteSpan(Along(route, cum, p.hits)).value)
  {
    if w.reason != NoFilter then w.(contained := false)
    else if !RouteContainsBrunnel(|w.coords|, p.contains) then w.(contained := false, reason := NotContained)
    else
      match CalculateBrunnelRouteSpan(Along(route, cum, p.hits))
      case Ok(s) => w.(contained := true, span := Some(s))
      case Err(_) => w.(contained := true, span := None)
  }

  /** A route of one point makes the `LineString` constructor raise. */
  const OnePointLineMessage: string := "LineStrings must have at least 2 coordinate tuples"

  /** `find_contained_brunnels` over the brunnel list, with `dist` the haversine distance that
      gives the cumulative route distances, `bufferM` the requested buffer and `absCos` the
      |cos| of the first route point's latitude. An empty route changes nothing; a route of one
      point, or a zero longitude factor, raises before any brunnel is touched. */
  function FindContainedBrunnels(route: seq<Position>, dist: (Position, Position) -> real, bufferM: real, absCos: real,
                                 ws: seq<Way>, probes: seq<Probe>): (r: Result<seq<Way>>)
    requires |probes| == |ws| && forall i :: 0 <= i < |ws| ==> ProbeFits(route, ws[i], probes[i])
    ensures |route| == 0 ==> r == Ok(ws)
    ensures |route| == 1 ==> r == Err(ValueError(OnePointLineMessage))
    ensures |route| >= 2 ==> (r.Err? <==> absCos == 0.0)
    ensures |route| >= 2 && r.Err? ==> r.error == ZeroDivisionError
    ensures r.Ok? ==> |r.value| == |ws|
    ensures |route| >= 2 && r.Ok? ==> forall i :: 0 <= i < |ws| ==>
      r.value[i] == ContainOne(route, RouteDistances(route, dist), ws[i], probes[i])
  {
    if |route| == 0 then Ok(ws)
    else if |route| == 1 then Err(ValueError(OnePointLineMessage))
    else if BufferDegrees(EffectiveBuffer(bufferM), absCos).Err? then Err(ZeroDivisionError)
    else
      var cum := RouteDistances(route, dist);
      Ok(seq(|ws|, i requires 0 <= i < |ws| => ContainOne(route, cum, ws[i], probes[i])))
  }

  /** After the pass an unfiltered brunnel is exactly one the route contains, and a filter
      reason set before the pass is kept; the only reason the pass sets is NOT_CONTAINED. */
  lemma ContainedIffUnfiltered(route: seq<Position>, dist: (Position, Position) -> real,
                               bufferM: real, absCos: real, ws: seq<Way>, probes: seq<Probe>, i: nat)
    requires |probes| == |ws| && forall j :: 0 <= j < |ws| ==> ProbeFits(route, ws[j], probes[j])
    requires |route| >= 2 && absCos != 0.0 && i < |ws|
    ensures var v := FindContainedBrunnels(route, dist, bufferM, absCos, ws, probes).value[i];
      && (v.reason == NoFilter <==> v.contained)
      && (v.contained <==> ws[i].reason == NoFilter && |ws[i].coords| >= 2 && probes[i].contains)
      && (ws[i].reason != NoFilter ==> v.reason == ws[i].reason)
      && (v.reason != ws[i].reason ==> v.reason == NotContained)
  {
  }

  /** With distances that are never negative and projections that stay on their segments,
      computing a span cannot fail on a real route, so every contained brunnel gets one, lying
      within the route. */
  lemma ContainedGetSpans(route: seq<Position>, dist: (Position, Position) -> real,
                          bufferM: real, absCos: real, ws: seq<Way>, probes: seq<Probe>, i: nat)
    requires |probes| == |ws| && forall j :: 0 <= j < |ws| ==> ProbeFits(route, ws[j], probes[j])
    requires |route| >= 2 && absCos != 0.0 && i < |ws|
    requires forall p, q :: dist(p, q) >= 0.0
    requires forall k, s :: 0 <= k < |probes[i].hits| && 0 <= s < |probes[i].hits[k]| ==>
      0.0 <= probes[i].hits[k][s].t <= 1.0
    ensures var v := FindContainedBrunnels(route, dist, bufferM, absCos, ws, probes).value[i];
      v.contained ==> v.span.Some? && 0.0 <= v.span.value.start <= v.span.value.end <= RouteDistances(route, dist)[|route| - 1]
  {
    var w, p := ws[i], probes[i];
    if w.reason == NoFilter && RouteContainsBrunnel(|w.coords|, p.contains) {
      var cum := RouteDistances(route, dist);
      AlongWithinRoute(route, dist, p.hits);
      RouteDistancesGrow(route, dist);
      SpanWithin(Along(route, cum, p.hits), cum[|route| - 1]);
    }
  }

  /** Running the pass again changes nothing: the contained brunnels are tested and measured
      exactly as before, and every other brunnel is already filtered and not contained. */
  lemma FindContainedIdempotent(route: seq<Position>, dist: (Position, Position) -> real,
                                bufferM: real, absCos: real, ws: seq<Way>, probes: seq<Probe>)
    requires |probes| == |ws| && forall j :: 0 <= j < |ws| ==> ProbeFits(route, ws[j], probes[j])
    requires |route| >= 2 && absCos != 0.0
    ensures var once := FindContainedBrunnels(route, dist, bufferM, absCos, ws, probes).value;
      FindContainedBrunnels(route, dist, bufferM, absCos, once, probes) == Ok(once)
  {
    var cum := RouteDistances(route, dist);
    var once := FindContainedBrunnels(route, dist, bufferM, absCos, ws, probes).value;
    forall i | 0 <= i < |ws| ensures ProbeFits(route, once[i], probes[i]) && ContainOne(route, cum, once[i], probes[i]) == once[i] {
      ContainOneIdempotent(route, cum, ws[i], probes[i]);
    }
    var twice := FindContainedBrunnels(route, dist, bufferM, absCos, once, probes).value;
    assert twice == once;
  }

  lemma ContainOneIdempotent(route: seq<Position>, cum: seq<real>, w: Way, p: Probe)
    requires ProbeFits(route, w, p)
    ensures var v := ContainOne(route, cum, w, p);
      ProbeFits(route, v, p) && ContainOne(route, cum, v, p) == v
  {
  }
}
