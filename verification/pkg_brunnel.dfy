/** Route-span and alignment computations of a brunnel in the `brunnels` package
    (brunnels/brunnel.py). */
module PkgBrunnel {
  import opened Base
  import opened Seqs
  import opened WayModel

  /** `calculate_route_span`: `dists[k]` is the distance along the route of the route point
      closest to the brunnel's k-th coordinate. The span runs from the smallest to the largest
      of them; a brunnel without coordinates gets the empty span at the route start. */
  function CalculateRouteSpan(dists: seq<real>): (s: RouteSpan)
    ensures |dists| == 0 ==> s == RouteSpan(0.0, 0.0, 0.0)
    ensures |dists| > 0 ==> s.start in dists && s.end in dists
    ensures forall k :: 0 <= k < |dists| ==> s.start <= dists[k] <= s.end
    ensures s.length == s.end - s.start && s.length >= 0.0
  {
    if |dists| == 0 then MakeRouteSpan(0.0, 0.0, 0.0)
    else
      var lo, hi := MinOf(dists), MaxOf(dists);
      MakeRouteSpan(lo, hi, hi - lo)
  }

  /** `is_aligned_with_route`: false without two brunnel coordinates, without two route
      positions, or when no closest pair of segments is found; otherwise the verdict of the
      bearing comparison at the closest segments, given as `bearingsAligned`. */
  function IsAlignedWithRoute(coordCount: nat, routeCount: nat, closestFound: bool, bearingsAligned: bool): (r: bool)
    ensures r ==> coordCount >= 2 && routeCount >= 2 && closestFound
    ensures coordCount >= 2 && routeCount >= 2 && closestFound ==> r == bearingsAligned
  {
    if coordCount < 2 then false
    else if routeCount < 2 then false
    else if !closestFound then false
    else bearingsAligned
  }
}
