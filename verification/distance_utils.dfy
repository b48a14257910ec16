/** The distance helpers of the root scripts (distance_utils.py). The cumulative distances and
    the projection onto a segment are `LinearRef.RouteDistances` and
    `LinearRef.ProjectOntoSegment`; this module holds the search for the route point closest to
    a position. Haversine distances are inputs. */
module DistanceUtils {
  import opened Base
  import opened LinearRef

  const EmptyRouteMessage: string := "Cannot find closest point on empty route"
  const IndexOutOfRangeMessage: string := "list index out of range"

  /** The distance from the position to each segment. */
  function HitDistances(hits: seq<SegmentHit<Position>>): (ds: seq<real>)
    ensures |ds| == |hits| && forall k :: 0 <= k < |hits| ==> ds[k] == hits[k].distanceKm
  {
    seq(|hits|, k requires 0 <= k < |hits| => hits[k].distanceKm)
  }

  /** A point found on the route: its distance along the route and its position. */
  datatype RoutePoint = RoutePoint(along: real, at: Position)

  /** `find_closest_point_on_route`: `hits[k]` is the projection of the position onto segment k
      and `cum` the cumulative distances the caller passes. A route of one point answers with
      that point at distance 0; an empty route raises. Otherwise the first segment of least
      distance wins (a later one must be strictly nearer), and the answer is interpolated along
      it; a `cum` too short for that segment raises IndexError. */
  function FindClosestPointOnRoute(route: seq<Position>, cum: seq<real>, hits: seq<SegmentHit<Position>>): (r: Result<RoutePoint>)
    requires |route| < 2 || |hits| == |route| - 1
    ensures |route| == 0 <==> r == Err(ValueError(EmptyRouteMessage))
    ensures |route| == 1 ==> r == Ok(RoutePoint(0.0, route[0]))
    ensures |route| >= 2 ==>
      var i := FirstMin(HitDistances(hits));
      && (forall k :: 0 <= k < |hits| ==> hits[i].distanceKm <= hits[k].distanceKm)
      && (forall k :: 0 <= k < i ==> hits[k].distanceKm > hits[i].distanceKm)
      && (r.Ok? <==> i + 1 < |cum|)
      && (r.Err? ==> r.error == IndexError(IndexOutOfRangeMessage))
      && (r.Ok? ==> r.value.at == hits[i].closest)
      && (r.Ok? && 0.0 <= hits[i].t <= 1.0 && cum[i] <= cum[i + 1] ==> cum[i] <= r.value.along <= cum[i + 1])
  {
    if |route| < 2 then
      if |route| == 1 then Ok(RoutePoint(0.0, route[0])) else Err(ValueError(EmptyRouteMessage))
    else
      var i := FirstMin(HitDistances(hits));
      if i + 1 < |cum| then Ok(RoutePoint(Interpolate(cum, i, hits[i].t), hits[i].closest))
      else Err(IndexError(IndexOutOfRangeMessage))
  }

  /** With the route's own cumulative distances (and distances that are never negative), the
      answer never fails and lies between the start and the end of the route. */
  lemma {:induction false} ClosestWithinRoute(route: seq<Position>, dist: (Position, Position) -> real,
                                              hits: seq<SegmentHit<Position>>)
    requires |route| >= 1 && (|route| < 2 || |hits| == |route| - 1)
    requires forall p, q :: dist(p, q) >= 0.0
    requires forall k :: 0 <= k < |hits| ==> 0.0 <= hits[k].t <= 1.0
    ensures var cum := RouteDistances(route, dist);
      var r := FindClosestPointOnRoute(route, cum, hits);
      r.Ok? && 0.0 <= r.value.along <= cum[|route| - 1]
  {
    var cum := RouteDistances(route, dist);
    RouteDistancesGrow(route, dist);
    if |route| >= 2 {
      var i := FirstMin(HitDistances(hits));
      assert cum[0] <= cum[i] && cum[i + 1] <= cum[|route| - 1];
    }
  }
}
