/** The route of the current generation (src/brunnels/route.py): the checks a parsed GPX route
    must pass, its bounding box, the distance along it of every track point and of the point
    closest to a given position, and the passes that mark or measure the brunnels found near it.
    Geodesic distances, projections onto segments, trigonometry and alignment tests are inputs. */
module SrcRoute {
  import opened Base
  import opened Seqs
  import opened Text
  import opened LinearRef
  import opened SrcBrunnel

  // ---------------------------------------------------------------------------------------
  // _check_route

  /** Points within five degrees of a pole are refused. */
  const PoleLimit: real := 85.0

  /** A longitude step of more than half the globe means the route crosses the antimeridian. */
  const AntimeridianLimit: real := 180.0

  predicate NearPole(p: Position)
  {
    Abs(p.lat) > PoleLimit
  }

  /** The step from point k - 1 to point k jumps across the antimeridian. */
  predicate CrossesAntimeridian(pts: seq<Position>, k: nat)
    requires 1 <= k < |pts|
  {
    Abs(pts[k].lon - pts[k - 1].lon) > AntimeridianLimit
  }

  /** The message for point k near a pole; `fixed3` renders a number with three decimals
      (Python's `:.3f`). */
  function PoleMessage(k: nat, lat: real, fixed3: real -> string): string
  {
    "Route point " + NatToString(k) + " at latitude " + fixed3(lat) + "° is within 5 degrees of a pole"
  }

  /** The message for the step from point k - 1 to point k, with the size of the jump. */
  function AntimeridianMessage(k: nat, jump: real, fixed3: real -> string): string
    requires k >= 1
  {
    "Route crosses antimeridian between points " + NatToString(k - 1) + " and " + NatToString(k)
      + " (longitude jump: " + fixed3(jump) + "°)"
  }

  /** The first point at or after `from` that lies near a pole. */
  function FirstNearPole(pts: seq<Position>, from: nat): (r: Option<nat>)
    requires from <= |pts|
    ensures r.None? <==> forall k :: from <= k < |pts| ==> !NearPole(pts[k])
    ensures r.Some? ==> from <= r.value < |pts| && NearPole(pts[r.value])
    ensures r.Some? ==> forall k :: from <= k < r.value ==> !NearPole(pts[k])
    decreases |pts| - from
  {
    if from == |pts| then None
    else if NearPole(pts[from]) then Some(from)
    else FirstNearPole(pts, from + 1)
  }

  /** The first step at or after `from` that crosses the antimeridian. */
  function FirstCrossing(pts: seq<Position>, from: nat): (r: Option<nat>)
    requires 1 <= from <= |pts| || from == |pts|
    ensures r.None? <==> forall k :: from <= k < |pts| && k >= 1 ==> !CrossesAntimeridian(pts, k)
    ensures r.Some? ==> 1 <= from <= r.value < |pts| && CrossesAntimeridian(pts, r.value)
    ensures r.Some? ==> forall k :: from <= k < r.value ==> !CrossesAntimeridian(pts, k)
    decreases |pts| - from
  {
    if from == |pts| then None
    else if CrossesAntimeridian(pts, from) then Some(from)
    else FirstCrossing(pts, from + 1)
  }

  /** Why a route is refused: point k lies near a pole, or the step into point k crosses the
      antimeridian. */
  datatype RouteProblem = PoleAt(k: nat) | CrossingAt(k: nat)

  /** The problem `_check_route` finds: all points are checked for the poles before any step
      is checked for the antimeridian, and the first offending point (or step) is the one
      reported. A jump of exactly 180 degrees passes. */
  function FirstProblem(pts: seq<Position>): (r: Option<RouteProblem>)
    ensures r == None <==>
      && (forall k :: 0 <= k < |pts| ==> !NearPole(pts[k]))
      && (forall k :: 1 <= k < |pts| ==> !CrossesAntimeridian(pts, k))
    ensures forall k :: 0 <= k < |pts| && NearPole(pts[k]) && (forall j :: 0 <= j < k ==> !NearPole(pts[j])) ==>
      r == Some(PoleAt(k))
    ensures (forall j :: 0 <= j < |pts| ==> !NearPole(pts[j])) ==>
      forall k :: 1 <= k < |pts| && CrossesAntimeridian(pts, k) && (forall j :: 1 <= j < k ==> !CrossesAntimeridian(pts, j)) ==>
        r == Some(CrossingAt(k))
    ensures r.Some? ==> r.value.k < |pts| && (r.value.CrossingAt? ==> 1 <= r.value.k)
  {
    if |pts| == 0 then None
    else match FirstNearPole(pts, 0)
      case Some(k) => Some(PoleAt(k))
      case None =>
        match FirstCrossing(pts, 1)
        case Some(k) => Some(CrossingAt(k))
        case None => None
  }

  /** The message for the step into point k, with the size of its longitude jump. */
  function CrossingMessage(pts: seq<Position>, k: nat, fixed3: real -> string): string
    requires 1 <= k < |pts|
  {
    AntimeridianMessage(k, Abs(pts[k].lon - pts[k - 1].lon), fixed3)
  }

  /** The message of the RuntimeError raised for a problem. */
  function ProblemMessage(pts: seq<Position>, p: RouteProblem, fixed3: real -> string): string
    requires p.k < |pts| && (p.CrossingAt? ==> 1 <= p.k)
  {
    match p
    case PoleAt(k) => PoleMessage(k, pts[k].lat, fixed3)
    case CrossingAt(k) => CrossingMessage(pts, k, fixed3)
  }

  /** `_check_route`: None when the route is accepted, otherwise the RuntimeError it raises,
      naming the first offending point with its latitude (or the first offending step with
      the size of its longitude jump) formatted by `fixed3`. */
  function CheckRoute(pts: seq<Position>, fixed3: real -> string): (r: Option<Error>)
    ensures |pts| == 0 ==> r == None
    ensures r == None <==>
      && (forall k :: 0 <= k < |pts| ==> !NearPole(pts[k]))
      && (forall k :: 1 <= k < |pts| ==> !CrossesAntimeridian(pts, k))
    ensures forall k :: 0 <= k < |pts| && NearPole(pts[k]) && (forall j :: 0 <= j < k ==> !NearPole(pts[j])) ==>
      r == Some(RuntimeError(PoleMessage(k, pts[k].lat, fixed3)))
    ensures (forall j :: 0 <= j < |pts| ==> !NearPole(pts[j])) ==>
      forall k :: 1 <= k < |pts| && CrossesAntimeridian(pts, k) && (forall j :: 1 <= j < k ==> !CrossesAntimeridian(pts, j)) ==>
        r == Some(RuntimeError(CrossingMessage(pts, k, fixed3)))
  {
    match FirstProblem(pts)
    case None => None
    case Some(p) => Some(RuntimeError(ProblemMessage(pts, p, fixed3)))
  }

  // ---------------------------------------------------------------------------------------
  // get_bbox / _calculate_bbox

  /** (south, west, north, east) in decimal degrees. */
  datatype BBox = BBox(south: real, west: real, north: real, east: real)

  predicate ValidPosition(p: Position)
  {
    -90.0 <= p.lat <= 90.0 && -180.0 <= p.lon <= 180.0
  }

  predicate InBox(p: Position, b: BBox)
  {
    b.south <= p.lat <= b.north && b.west <= p.lon <= b.east
  }

  /** The box lies within the valid coordinate ranges. */
  predicate Clamped(b: BBox)
  {
    -90.0 <= b.south && b.north <= 90.0 && -180.0 <= b.west && b.east <= 180.0
  }

  function Lats(pts: seq<Position>): (r: seq<real>)
    ensures |r| == |pts| && forall k :: 0 <= k < |pts| ==> r[k] == pts[k].lat
  {
    seq(|pts|, k requires 0 <= k < |pts| => pts[k].lat)
  }

  function Lons(pts: seq<Position>): (r: seq<real>)
    ensures |r| == |pts| && forall k :: 0 <= k < |pts| ==> r[k] == pts[k].lon
  {
    seq(|pts|, k requires 0 <= k < |pts| => pts[k].lon)
  }

  /** `_calculate_bbox`: the least and greatest latitude and longitude, clamped to the valid
      ranges. Every valid point of the route lies in it, and each side is either a coordinate
      of some point or the limit of its range. */
  function CalculateBbox(pts: seq<Position>): (b: BBox)
    requires |pts| > 0
    ensures Clamped(b)
    ensures forall k :: 0 <= k < |pts| && ValidPosition(pts[k]) ==> InBox(pts[k], b)
    ensures b.south == -90.0 || exists k :: 0 <= k < |pts| && b.south == pts[k].lat
    ensures b.north == 90.0 || exists k :: 0 <= k < |pts| && b.north == pts[k].lat
    ensures b.west == -180.0 || exists k :: 0 <= k < |pts| && b.west == pts[k].lon
    ensures b.east == 180.0 || exists k :: 0 <= k < |pts| && b.east == pts[k].lon
  {
    var lats, lons := Lats(pts), Lons(pts);
    BBox(Max(-90.0, MinOf(lats)), Max(-180.0, MinOf(lons)), Min(90.0, MaxOf(lats)), Min(180.0, MaxOf(lons)))
  }

  const EmptyRouteMessage: string := "Cannot calculate bounding box for empty route"

  /** Metres per degree of latitude, as the program approximates it. */
  const MetresPerDegree: real := 111000.0

  /** `a / b` where b is known not to be zero. */
  function Ratio(a: real, b: real): (r: real)
    requires b != 0.0
    ensures a >= 0.0 && b > 0.0 ==> r >= 0.0
  {
    a / b
  }

  /** `get_bbox(buffer)`: the base box, widened by `buffer` metres on every side and clamped.
      `absCos(lat)` is `abs(cos(radians(lat)))`, an input; where it is zero the longitude buffer
      divides by zero. An empty route raises ValueError. */
  function GetBbox(pts: seq<Position>, buffer: real, absCos: real -> real): (r: Result<BBox>)
    ensures |pts| == 0 <==> r == Err(ValueError(EmptyRouteMessage))
    ensures |pts| > 0 && buffer == 0.0 ==> r == Ok(CalculateBbox(pts))
    ensures r.Ok? ==> Clamped(r.value)
    ensures r.Err? && |pts| > 0 ==> r.error == ZeroDivisionError && buffer != 0.0
    ensures r.Ok? && buffer >= 0.0 ==> forall k :: 0 <= k < |pts| && ValidPosition(pts[k]) ==> InBox(pts[k], r.value)
    ensures r.Ok? && buffer >= 0.0 ==>
      var base := CalculateBbox(pts);
      && r.value.south <= base.south && r.value.west <= base.west
      && base.north <= r.value.north && base.east <= r.value.east
  {
    if |pts| == 0 then Err(ValueError(EmptyRouteMessage))
    else
      var base := CalculateBbox(pts);
      if buffer == 0.0 then Ok(base)
      else
        var avgLat := (base.south + base.north) / 2.0;
        var latBuffer := Ratio(buffer, MetresPerDegree);
        var c := absCos(avgLat);
        if c == 0.0 then Err(ZeroDivisionError)
        else
          var lonBuffer := Ratio(buffer, MetresPerDegree * Abs(c));
          Ok(BBox(Max(-90.0, base.south - latBuffer), Max(-180.0, base.west - lonBuffer),
                  Min(90.0, base.north + latBuffer), Min(180.0, base.east + lonBuffer)))
  }

  // ---------------------------------------------------------------------------------------
  // calculate_distances

  // ---------------------------------------------------------------------------------------
  // closest_point_to

  /** What `to_line_segment_distance_and_projection` reports for one route segment: the distance
      from the point to the segment and the closest point on it. */
  datatype SegmentProjection = SegmentProjection(distance: real, closest: Position)

  const TwoPositionsMessage: string := "Route must have at least two positions to calculate distance."
  const IndexOutOfRangeMessage: string := "list index out of range"

  /** `calculate_distances`: the loop that fills `cumulative_distance` point by point. A route
      without points keeps the list it had (`previous`). */
  method CalculateDistances(pts: seq<Position>, dist: (Position, Position) -> real, previous: seq<real>)
    returns (cum: seq<real>)
    ensures |pts| == 0 ==> cum == previous
    ensures |pts| > 0 ==> cum == RouteDistances(pts, dist)
  {
    if |pts| == 0 {
      return previous;
    }
    cum := [0.0];
    var i := 1;
    while i < |pts|
      invariant 1 <= i <= |pts| && |cum| == i && cum[0] == 0.0
      invariant forall k :: 1 <= k < i ==> cum[k] == cum[k - 1] + dist(pts[k - 1], pts[k])
    {
      cum := cum + [cum[i - 1] + dist(pts[i - 1], pts[i])];
      i := i + 1;
    }
    SameRecurrence(pts, dist, cum);
  }

  /** A list that starts at 0 and grows by each step's distance is the route's cumulative
      distance list. */
  lemma SameRecurrence(pts: seq<Position>, dist: (Position, Position) -> real, cum: seq<real>)
    requires |pts| > 0 && |cum| == |pts| && cum[0] == 0.0
    requires forall k :: 1 <= k < |pts| ==> cum[k] == cum[k - 1] + dist(pts[k - 1], pts[k])
    ensures cum == RouteDistances(pts, dist)
  {
    var whole := RouteDistances(pts, dist);
    forall k | 0 <= k < |pts| ensures cum[k] == whole[k] {
      SameAt(pts, dist, cum, whole, k);
    }
  }

  lemma {:induction false} SameAt(pts: seq<Position>, dist: (Position, Position) -> real, cum: seq<real>, whole: seq<real>, k: nat)
    requires |pts| > 0 && |cum| == |pts| && |whole| == |pts| && cum[0] == 0.0 && whole[0] == 0.0
    requires forall j :: 1 <= j < |pts| ==> cum[j] == cum[j - 1] + dist(pts[j - 1], pts[j])
    requires forall j :: 1 <= j < |pts| ==> whole[j] == whole[j - 1] + dist(pts[j - 1], pts[j])
    requires k < |pts|
    ensures cum[k] == whole[k]
  {
    if k > 0 {
      SameAt(pts, dist, cum, whole, k - 1);
    }
  }

  /** The distance from the point to each segment. */
  function SegmentDistances(projs: seq<SegmentProjection>): (ds: seq<real>)
    ensures |ds| == |projs| && forall k :: 0 <= k < |projs| ==> ds[k] == projs[k].distance
  {
    seq(|projs|, k requires 0 <= k < |projs| => projs[k].distance)
  }

  /** A point found on the route: its distance along the route and its position. */
  datatype RoutePoint = RoutePoint(along: real, at: Position)

  /** `closest_point_to`: the closest point of the segment nearest to the point, the lowest such
      segment when several are equally near, measured along the route as the cumulative distance
      to the segment start plus the distance from there. `projs[k]` is the projection onto
      segment k; `cum` is the route's `cumulative_distance` list, which is empty until
      `calculate_distances` has run. */
  function ClosestPointTo(pts: seq<Position>, cum: seq<real>, projs: seq<SegmentProjection>,
                          dist: (Position, Position) -> real): (r: Result<RoutePoint>)
    requires |pts| < 2 || |projs| == |pts| - 1
    ensures |pts| < 2 <==> r == Err(ValueError(TwoPositionsMessage))
    ensures |pts| >= 2 ==>
      var i := FirstMin(SegmentDistances(projs));
      && (forall k :: 0 <= k < |projs| ==> projs[i].distance <= projs[k].distance)
      && (forall k :: 0 <= k < i ==> projs[k].distance > projs[i].distance)
      && (r.Ok? <==> i < |cum|)
      && (r.Err? ==> r.error == IndexError(IndexOutOfRangeMessage))
      && (r.Ok? ==> r.value == RoutePoint(cum[i] + dist(pts[i], projs[i].closest), projs[i].closest))
  {
    if |pts| < 2 then Err(ValueError(TwoPositionsMessage))
    else
      var i := FirstMin(SegmentDistances(projs));
      if i < |cum| then Ok(RoutePoint(cum[i] + dist(pts[i], projs[i].closest), projs[i].closest))
      else Err(IndexError(IndexOutOfRangeMessage))
  }

  /** Once the cumulative distances are computed, the point found lies along the route between
      the start and the end of its segment when the closest point is no farther from the
      segment start than the segment is long. */
  lemma ClosestAlongSegment(pts: seq<Position>, projs: seq<SegmentProjection>, dist: (Position, Position) -> real)
    requires |pts| >= 2 && |projs| == |pts| - 1
    requires forall k :: 0 <= k < |projs| ==>
      0.0 <= dist(pts[k], projs[k].closest) <= dist(pts[k], pts[k + 1])
    ensures var cum := RouteDistances(pts, dist);
      var r := ClosestPointTo(pts, cum, projs, dist);
      var i := FirstMin(SegmentDistances(projs));
      r.Ok? && cum[i] <= r.value.along <= cum[i + 1]
  {
  }

  // ---------------------------------------------------------------------------------------
  // filter_misaligned_brunnels

  /** `filter_misaligned_brunnels`: every unfiltered brunnel that is not aligned with the route
      (`aligned[i]`, the result of `is_aligned_with_route`) is marked UNALIGNED. */
  function FilterMisaligned(bs: seq<Brunnel>, aligned: seq<bool>): (r: seq<Brunnel>)
    requires |aligned| == |bs|
    ensures |r| == |bs|
    ensures forall i :: 0 <= i < |bs| ==> (r[i].reason == NoFilter <==> bs[i].reason == NoFilter && aligned[i])
    ensures forall i :: 0 <= i < |bs| ==> r[i] == bs[i].(reason := r[i].reason)
    ensures forall i :: 0 <= i < |bs| && bs[i].reason != NoFilter ==> r[i] == bs[i]
    ensures forall i :: 0 <= i < |bs| && r[i] != bs[i] ==> r[i].reason == Unaligned
  {
    seq(|bs|, i requires 0 <= i < |bs| =>
      if bs[i].reason == NoFilter && !aligned[i] then bs[i].(reason := Unaligned) else bs[i])
  }

  /** Running the filter a second time changes nothing. */
  lemma FilterMisalignedIdempotent(bs: seq<Brunnel>, aligned: seq<bool>)
    requires |aligned| == |bs|
    ensures FilterMisaligned(FilterMisaligned(bs, aligned), aligned) == FilterMisaligned(bs, aligned)
  {
  }

  // ---------------------------------------------------------------------------------------
  // calculate_route_spans

  /** `brunnel.calculate_route_span(route)` for one brunnel: `along[k]` is the distance along the
      route of the point closest to its k-th coordinate. The brunnel's own coordinate checks
      come first; then `closest_point_to` raises on a route of fewer than two points. */
  function SpanFor(routeLen: nat, along: seq<real>): (r: Result<RouteSpan>)
    ensures |along| < 2 ==> r == CalculateRouteSpan(along)
    ensures |along| >= 2 && routeLen < 2 ==> r == Err(ValueError(TwoPositionsMessage))
    ensures r.Ok? <==> |along| >= 2 && routeLen >= 2
    ensures r.Ok? ==> r.value.start <= r.value.end
    ensures r.Ok? ==> forall k :: 0 <= k < |along| ==> r.value.start <= along[k] <= r.value.end
  {
    if |along| < 2 then CalculateRouteSpan(along)
    else if routeLen < 2 then Err(ValueError(TwoPositionsMessage))
    else CalculateRouteSpan(along)
  }

  /** The brunnel i gets a span when it is unfiltered. */
  predicate SpanFails(bs: seq<Brunnel>, routeLen: nat, along: seq<seq<real>>, i: nat)
    requires i < |bs| && |along| == |bs|
  {
    bs[i].reason == NoFilter && SpanFor(routeLen, along[i]).Err?
  }

  /** Brunnel i is the first whose span cannot be measured. */
  predicate FirstFailure(bs: seq<Brunnel>, routeLen: nat, along: seq<seq<real>>, i: nat)
    requires |along| == |bs|
  {
    && i < |bs|
    && SpanFails(bs, routeLen, along, i)
    && forall j :: 0 <= j < i ==> !SpanFails(bs, routeLen, along, j)
  }

  /** `calculate_route_spans`: every unfiltered brunnel gets its route span, in list order; the
      first one that cannot be measured raises its error. Nothing else changes. */
  method CalculateRouteSpans(bs: seq<Brunnel>, routeLen: nat, along: seq<seq<real>>) returns (r: Result<seq<Brunnel>>)
    requires |along| == |bs|
    ensures r.Err? <==> exists i :: 0 <= i < |bs| && SpanFails(bs, routeLen, along, i)
    ensures r.Err? ==> exists i: nat :: FirstFailure(bs, routeLen, along, i) && r.error == SpanFor(routeLen, along[i]).error
    ensures r.Ok? ==> |r.value| == |bs|
    ensures r.Ok? ==> forall i :: 0 <= i < |bs| ==> r.value[i] == bs[i].(span := r.value[i].span)
    ensures r.Ok? ==> forall i :: 0 <= i < |bs| && bs[i].reason != NoFilter ==> r.value[i] == bs[i]
    ensures r.Ok? ==> forall i :: 0 <= i < |bs| && bs[i].reason == NoFilter ==>
      r.value[i].span.Some? && SpanFor(routeLen, along[i]) == Ok(r.value[i].span.value)
  {
    var out := bs;
    var i := 0;
    while i < |bs|
      invariant 0 <= i <= |bs| && |out| == |bs|
      invariant forall j :: 0 <= j < i ==> !SpanFails(bs, routeLen, along, j)
      invariant forall j :: 0 <= j < |bs| ==> out[j] == bs[j].(span := out[j].span)
      invariant forall j :: i <= j < |bs| ==> out[j] == bs[j]
      invariant forall j :: 0 <= j < i && bs[j].reason != NoFilter ==> out[j] == bs[j]
      invariant forall j :: 0 <= j < i && bs[j].reason == NoFilter ==> out[j].span.Some? && SpanFor(routeLen, along[j]) == Ok(out[j].span.value)
    {
      if bs[i].reason == NoFilter {
        var s := SpanFor(routeLen, along[i]);
        if s.Err? {
          assert FirstFailure(bs, routeLen, along, i);
          return Err(s.error);
        }
        out := out[i := bs[i].(span := Some(s.value))];
      }
      i := i + 1;
    }
    return Ok(out);
  }
}
