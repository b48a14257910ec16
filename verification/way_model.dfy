/** The brunnel record shared by the earlier generations of the program (the root scripts and
    the `brunnels` package): filter reasons, route spans and a single bridge or tunnel way. */
module WayModel {
  import opened Base
  import Intervals

  /** Why a brunnel was excluded; `NoFilter` (Python `NONE`) keeps it. */
  datatype FilterReason =
    | NoFilter
    | BicycleNo
    | Waterway
    | Railway
    | Polygon
    | NotContained
    | NoRouteSpan
    | Unaligned
    | NotNearest
    | Merged

  /** Where a brunnel lies along the route, in kilometres from the route start. */
  datatype RouteSpan = RouteSpan(start: real, end: real, length: real)

  /** The `RouteSpan` constructor: whatever length is passed, `__post_init__` replaces it by
      end minus start. */
  function MakeRouteSpan(start: real, end: real, ignoredLength: real): (s: RouteSpan)
    ensures s.start == start && s.end == end
    ensures s.end - s.start == s.length
  {
    RouteSpan(start, end, end - start)
  }

  /** A single bridge or tunnel way with its pipeline state. */
  datatype Way = Way(
    coords: seq<Position>,
    data: WayData,
    btype: BrunnelType,
    contained: bool,
    reason: FilterReason,
    span: Option<RouteSpan>)

  /** Two node lists have a node in common (`bool(set(nodes1) & set(nodes2))`, which is false
      when either list is empty). */
  function SharesNode(nodes1: seq<NodeId>, nodes2: seq<NodeId>): (r: bool)
    ensures r <==> exists n :: n in nodes1 && n in nodes2
  {
    if |nodes1| == 0 then false
    else if nodes1[0] in nodes2 then
      var w := nodes1[0];
      assert w in nodes1 && w in nodes2;
      assert exists n :: n in nodes1 && n in nodes2;
      true
    else
      assert forall n :: n in nodes1 ==> n == nodes1[0] || n in nodes1[1..];
      SharesNode(nodes1[1..], nodes2)
  }

  lemma SharesNodeSymmetric(nodes1: seq<NodeId>, nodes2: seq<NodeId>)
    ensures SharesNode(nodes1, nodes2) == SharesNode(nodes2, nodes1)
  {
  }

  /** `route_spans_overlap`: the closed spans intersect. For spans that start no later than
      they end this is the same as sharing a route distance. */
  function SpansOverlap(a: RouteSpan, b: RouteSpan): (r: bool)
    ensures a.start <= a.end && b.start <= b.end ==>
      (r <==> exists x :: Intervals.Within(x, a.start, a.end) && Intervals.Within(x, b.start, b.end))
  {
    if a.start <= a.end && b.start <= b.end then
      Intervals.OverlapIffCommonPoint(a.start, a.end, b.start, b.end);
      a.start <= b.end && b.start <= a.end
    else a.start <= b.end && b.start <= a.end
  }

  lemma SpansOverlapSymmetric(a: RouteSpan, b: RouteSpan)
    ensures SpansOverlap(a, b) == SpansOverlap(b, a)
  {
  }

  /** Spans that only meet at an end point still overlap. */
  lemma TouchingSpansOverlap(a: RouteSpan, b: RouteSpan)
    requires a.start <= a.end && b.start <= b.end && a.end == b.start
    ensures SpansOverlap(a, b)
  {
  }

  /** A span that starts no later than it ends overlaps itself. */
  lemma SpanOverlapsItself(a: RouteSpan)
    requires a.start <= a.end
    ensures SpansOverlap(a, a)
  {
  }

  /** Spans with a gap between them do not overlap. */
  lemma SeparateSpansDoNotOverlap(a: RouteSpan, b: RouteSpan)
    requires a.end < b.start
    ensures !SpansOverlap(a, b) && !SpansOverlap(b, a)
  {
  }
}
