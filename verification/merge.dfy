/** Pairwise shared-node detection of the root scripts (merge.py): how two consecutive ways
    must be oriented so that the first ends where the second begins. */
module Merge {
  import opened Base
  import opened WayChain

  /** Some endpoint of one node list equals some endpoint of the other. */
  predicate EndpointsTouch(nodes1: seq<NodeId>, nodes2: seq<NodeId>)
    requires |nodes1| > 0 && |nodes2| > 0
  {
    var f1, l1, f2, l2 := nodes1[0], nodes1[|nodes1| - 1], nodes2[0], nodes2[|nodes2| - 1];
    l1 == f2 || l1 == l2 || f1 == f2 || f1 == l2
  }

  /** `detect_shared_node`: None when either way has fewer than two nodes (missing node data
      reads as none) or no endpoints touch; otherwise the directions of the first matching
      pattern, tried in the order last-first, last-last, first-first, first-last. */
  function DetectSharedNode(nodes1: seq<NodeId>, nodes2: seq<NodeId>): (r: Option<(Direction, Direction)>)
    ensures r.None? <==> |nodes1| < 2 || |nodes2| < 2 || !EndpointsTouch(nodes1, nodes2)
    ensures r.Some? ==> Meets(Orient(nodes1, r.value.0), Orient(nodes2, r.value.1))
    ensures r.Some? && r.value.0 == Reverse ==> nodes1[|nodes1| - 1] != nodes2[0] && nodes1[|nodes1| - 1] != nodes2[|nodes2| - 1]
    ensures r == Some((Forward, Reverse)) ==> nodes1[|nodes1| - 1] != nodes2[0]
    ensures r == Some((Reverse, Reverse)) ==> nodes1[0] != nodes2[0]
  {
    if |nodes1| < 2 || |nodes2| < 2 then None
    else
      var f1, l1, f2, l2 := nodes1[0], nodes1[|nodes1| - 1], nodes2[0], nodes2[|nodes2| - 1];
      if l1 == f2 then Some((Forward, Forward))
      else if l1 == l2 then Some((Forward, Reverse))
      else if f1 == f2 then Some((Reverse, Forward))
      else if f1 == l2 then Some((Reverse, Reverse))
      else None
  }
}
