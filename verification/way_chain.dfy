/** How adjacent OpenStreetMap ways of a compound brunnel join: the connection analysis
    and validation shared by both generations of the directional coordinate combiner,
    the per-connection direction rule, and the stitching of oriented ways. */
module WayChain {
  import opened Base
  import opened Seqs

  /** Which end of a way's node list a connection uses. */
  datatype End = First | Last

  /** A way as the combiner sees it: its node ids and its coordinates. */
  datatype Component = Component(nodes: seq<NodeId>, coords: seq<Position>)

  /** How way i joins way i + 1: the one node they share and the end of each way it sits at. */
  datatype Connection = Connection(shared: NodeId, end1: End, end2: End)

  function NodeSet(nodes: seq<NodeId>): set<NodeId>
  {
    set n | n in nodes
  }

  function Flip(e: End): End
  {
    if e == First then Last else First
  }

  /** The node at end `e` of a non-empty node list. */
  function EndNode(nodes: seq<NodeId>, e: End): NodeId
    requires |nodes| > 0
  {
    if e == First then nodes[0] else nodes[|nodes| - 1]
  }

  predicate IsEndpoint(nodes: seq<NodeId>, s: NodeId)
  {
    |nodes| > 0 && (nodes[0] == s || nodes[|nodes| - 1] == s)
  }

  /** Two ways join at `s`: it is the only node they have in common, and it is an endpoint of both. */
  predicate JoinsAt(nodes1: seq<NodeId>, nodes2: seq<NodeId>, s: NodeId)
  {
    NodeSet(nodes1) * NodeSet(nodes2) == {s} && IsEndpoint(nodes1, s) && IsEndpoint(nodes2, s)
  }

  /** The first node of `a` that also occurs in `b`, if any. */
  function FirstCommon(a: seq<NodeId>, b: seq<NodeId>): (r: Option<NodeId>)
    ensures r.None? ==> NodeSet(a) * NodeSet(b) == {}
    ensures r.Some? ==> r.value in a && r.value in b
  {
    if |a| == 0 then None
    else if a[0] in b then Some(a[0])
    else
      var r := FirstCommon(a[1..], b);
      assert forall n :: n in a ==> n == a[0] || n in a[1..];
      r
  }

  /** The end of a node list at which an endpoint node sits; the first end wins when both do. */
  function EndAt(nodes: seq<NodeId>, s: NodeId): (e: End)
    requires IsEndpoint(nodes, s)
    ensures EndNode(nodes, e) == s
    ensures e == Last ==> nodes[0] != s
  {
    if nodes[0] == s then First else Last
  }

  /** The connection between two consecutive ways, or None when they do not share exactly one
      node or the shared node is not an endpoint of both. */
  function FindConnection(nodes1: seq<NodeId>, nodes2: seq<NodeId>): (r: Option<Connection>)
    ensures r.Some? <==> exists s :: JoinsAt(nodes1, nodes2, s)
    ensures r.Some? ==> JoinsAt(nodes1, nodes2, r.value.shared)
    ensures r.Some? ==> EndNode(nodes1, r.value.end1) == r.value.shared
    ensures r.Some? ==> EndNode(nodes2, r.value.end2) == r.value.shared
    ensures r.Some? && r.value.end1 == Last ==> nodes1[0] != r.value.shared
    ensures r.Some? && r.value.end2 == Last ==> nodes2[0] != r.value.shared
  {
    if |nodes1| == 0 || |nodes2| == 0 then None
    else
      var shared := NodeSet(nodes1) * NodeSet(nodes2);
      var common := FirstCommon(nodes1, nodes2);
      if common.None? || |shared| != 1 then None
      else
        var s := common.value;
        assert s in shared;
        SingletonCard(shared, s);
        if !IsEndpoint(nodes1, s) || !IsEndpoint(nodes2, s) then
          assert forall t :: JoinsAt(nodes1, nodes2, t) ==> t == s;
          None
        else
          assert JoinsAt(nodes1, nodes2, s);
          Some(Connection(s, EndAt(nodes1, s), EndAt(nodes2, s)))
  }

  lemma SingletonCard(a: set<NodeId>, s: NodeId)
    requires s in a && |a| == 1
    ensures a == {s}
  {
    var rest := a - {s};
    assert |rest| == 0;
  }

  /** The connection of way i to way i + 1. */
  function Link(comps: seq<Component>, i: int): Option<Connection>
    requires 0 <= i < |comps| - 1
  {
    FindConnection(comps[i].nodes, comps[i + 1].nodes)
  }

  /** Internal way i meets its two neighbours at different ends. */
  predicate EndsDiffer(comps: seq<Component>, i: int)
    requires 1 <= i < |comps| - 1
  {
    Link(comps, i - 1).Some? && Link(comps, i).Some? && Link(comps, i - 1).value.end2 != Link(comps, i).value.end1
  }

  /** The two adjacency assumptions: consecutive ways join at one shared endpoint, and every
      internal way joins its neighbours at opposite ends. */
  predicate Chainable(comps: seq<Component>)
  {
    (forall i :: 0 <= i < |comps| - 1 ==> Link(comps, i).Some?) &&
    (forall i :: 1 <= i < |comps| - 1 ==> EndsDiffer(comps, i))
  }

  function Connections(comps: seq<Component>): (r: Option<seq<Connection>>)
    ensures r.Some? <==> forall i :: 0 <= i < |comps| - 1 ==> Link(comps, i).Some?
    ensures r.Some? ==> |r.value| == if |comps| < 2 then 0 else |comps| - 1
    ensures r.Some? ==> forall i :: 0 <= i < |r.value| ==> Link(comps, i) == Some(r.value[i])
    decreases |comps|
  {
    if |comps| < 2 then Some([])
    else
      var init := comps[..|comps| - 1];
      assert forall i :: 0 <= i < |init| - 1 ==> Link(init, i) == Link(comps, i);
      var cs, c := Connections(init), Link(comps, |comps| - 2);
      if cs.None? || c.None? then None else Some(cs.value + [c.value])
  }

  /** Builds the connections of a list of ways and validates the adjacency assumptions; fewer
      than two ways need no connections. */
  function Analyze(comps: seq<Component>): (r: Result<seq<Connection>>)
    ensures |comps| < 2 ==> r == Ok([])
    ensures r.Ok? <==> Chainable(comps)
    ensures r.Err? ==> r.error.ValueError?
    ensures r.Ok? && |comps| >= 2 ==> |r.value| == |comps| - 1
    ensures r.Ok? ==> forall i :: 0 <= i < |r.value| ==> Link(comps, i) == Some(r.value[i])
  {
    if |comps| < 2 then Ok([])
    else
      match Connections(comps)
      case None => Err(ValueError("components do not share exactly one node"))
      case Some(cs) =>
        ChainableByConnections(comps, cs);
        if exists i :: 1 <= i < |comps| - 1 && cs[i - 1].end2 == cs[i].end1 then
          Err(ValueError("internal component uses the same endpoint for both neighbours"))
        else Ok(cs)
  }

  /** Once every link exists, the ways are chainable exactly when no internal way meets both
      neighbours at the same end. */
  lemma ChainableByConnections(comps: seq<Component>, cs: seq<Connection>)
    requires |comps| >= 2 && Connections(comps) == Some(cs)
    ensures |cs| == |comps| - 1
    ensures Chainable(comps) <==> forall i :: 1 <= i < |comps| - 1 ==> cs[i - 1].end2 != cs[i].end1
  {
    forall i | 1 <= i < |comps| - 1 ensures EndsDiffer(comps, i) <==> cs[i - 1].end2 != cs[i].end1 {
      assert Link(comps, i - 1) == Some(cs[i - 1]) && Link(comps, i) == Some(cs[i]);
    }
  }

  /** Two ways that join need exactly their one connection. */
  lemma AnalyzeTwo(comps: seq<Component>, c: Connection)
    requires |comps| == 2 && Link(comps, 0) == Some(c)
    ensures Analyze(comps) == Ok([c])
  {
    var cs := Connections(comps);
    assert cs.Some? && |cs.value| == 1 && cs.value[0] == c;
    assert cs.value == [c];
  }

  /** The end a connection uses, as seen after orienting its way in direction `d`. */
  function Effective(d: Direction, e: End): End
  {
    if d == Reverse then Flip(e) else e
  }

  /** The direction of way i + 1 given the direction of way i and their connection. */
  function NextDirection(prev: Direction, c: Connection): (d: Direction)
    ensures d == Forward <==> Effective(prev, c.end1) != c.end2
  {
    var prevEnd := Effective(prev, c.end1);
    if prevEnd == Last && c.end2 == First then Forward
    else if prevEnd == Last && c.end2 == Last then Reverse
    else if prevEnd == First && c.end2 == First then Reverse
    else
      assert prevEnd == First && c.end2 == Last;
      Forward
  }

  /** The directions of all ways, starting from the first way's direction `d` and applying
      NextDirection along the connections. */
  function Propagate(d: Direction, conns: seq<Connection>): (ds: seq<Direction>)
    ensures |ds| == |conns| + 1 && ds[0] == d
    ensures forall i :: 0 <= i < |conns| ==> ds[i + 1] == NextDirection(ds[i], conns[i])
    decreases |conns|
  {
    if |conns| == 0 then [d] else [d] + Propagate(NextDirection(d, conns[0]), conns[1..])
  }

  /** A list traversed in direction `d`. */
  function Orient<T>(s: seq<T>, d: Direction): (r: seq<T>)
    ensures |r| == |s|
  {
    if d == Reverse then Reversed(s) else s
  }

  /** All of the first list followed by every later list without its first element. */
  function Glue<T>(parts: seq<seq<T>>): seq<T>
  {
    if |parts| == 0 then [] else parts[0] + GlueRest(parts[1..])
  }

  function GlueRest<T>(parts: seq<seq<T>>): seq<T>
  {
    if |parts| == 0 then [] else Rest(parts[0]) + GlueRest(parts[1..])
  }

  /** The coordinate lists of the ways, each oriented in its direction. */
  function OrientedCoords(comps: seq<Component>, ds: seq<Direction>): (r: seq<seq<Position>>)
    requires |ds| == |comps|
    ensures |r| == |comps| && forall i :: 0 <= i < |comps| ==> r[i] == Orient(comps[i].coords, ds[i])
  {
    if |comps| == 0 then [] else [Orient(comps[0].coords, ds[0])] + OrientedCoords(comps[1..], ds[1..])
  }

  /** The node lists of the ways, each oriented in its direction. */
  function OrientedNodes(comps: seq<Component>, ds: seq<Direction>): (r: seq<seq<NodeId>>)
    requires |ds| == |comps|
    ensures |r| == |comps| && forall i :: 0 <= i < |comps| ==> r[i] == Orient(comps[i].nodes, ds[i])
  {
    if |comps| == 0 then [] else [Orient(comps[0].nodes, ds[0])] + OrientedNodes(comps[1..], ds[1..])
  }

  /** Lengths of a list of lists. */
  function Sizes<T>(parts: seq<seq<T>>): (r: seq<nat>)
    ensures |r| == |parts| && forall i :: 0 <= i < |parts| ==> r[i] == |parts[i]|
  {
    if |parts| == 0 then [] else [|parts[0]|] + Sizes(parts[1..])
  }

  function SumNat(xs: seq<nat>): nat
  {
    if |xs| == 0 then 0 else xs[0] + SumNat(xs[1..])
  }

  /** Gluing non-empty lists keeps one element less per list than plain concatenation, except
      for the first list. */
  lemma {:induction false} GlueLength<T>(parts: seq<seq<T>>)
    requires |parts| > 0
    requires forall i :: 0 <= i < |parts| ==> |parts[i]| > 0
    ensures |Glue(parts)| == SumNat(Sizes(parts)) - (|parts| - 1)
  {
    GlueRestLength(parts[1..]);
  }

  lemma {:induction false} GlueRestLength<T>(parts: seq<seq<T>>)
    requires forall i :: 0 <= i < |parts| ==> |parts[i]| > 0
    ensures |GlueRest(parts)| == SumNat(Sizes(parts)) - |parts|
    ensures SumNat(Sizes(parts)) >= |parts|
    decreases |parts|
  {
    if |parts| > 0 {
      GlueRestLength(parts[1..]);
      assert Sizes(parts)[1..] == Sizes(parts[1..]);
    }
  }

  /** List `b` starts with the element list `a` ends with. */
  predicate Meets<T(==)>(a: seq<T>, b: seq<T>)
  {
    |a| > 0 && |b| > 0 && a[|a| - 1] == b[0]
  }

  /** Directions in which every way leaves through the node it shares with the next way. */
  predicate LeavesAtJoins(conns: seq<Connection>, ds: seq<Direction>)
    requires |ds| == |conns| + 1
  {
    forall i :: 0 <= i < |conns| ==> Effective(ds[i], conns[i].end1) == Last
  }

  /** If the first way leaves through its joining end, so does every later way: the internal
      ways' opposite-end assumption carries the property along the chain. */
  lemma {:induction false} PropagateLeavesAtJoins(comps: seq<Component>, conns: seq<Connection>, d: Direction)
    requires |comps| >= 2 && Analyze(comps) == Ok(conns)
    requires Effective(d, conns[0].end1) == Last
    ensures LeavesAtJoins(conns, Propagate(d, conns))
  {
    var ds := Propagate(d, conns);
    var i := 0;
    while i < |conns| - 1
      invariant 0 <= i < |conns|
      invariant forall k :: 0 <= k <= i ==> Effective(ds[k], conns[k].end1) == Last
    {
      assert EndsDiffer(comps, i + 1);
      assert Link(comps, i) == Some(conns[i]) && Link(comps, i + 1) == Some(conns[i + 1]);
      i := i + 1;
    }
  }

  /** Where every way leaves at its join, consecutive oriented ways meet at the shared node:
      way i ends at it and way i + 1 starts at it. */
  lemma {:induction false} JoinsMeet(comps: seq<Component>, conns: seq<Connection>, ds: seq<Direction>, i: nat)
    requires |comps| >= 2 && Analyze(comps) == Ok(conns)
    requires |ds| == |comps| && LeavesAtJoins(conns, ds)
    requires forall k :: 0 <= k < |conns| ==> ds[k + 1] == NextDirection(ds[k], conns[k])
    requires i < |conns|
    ensures |comps[i].nodes| > 0 && |comps[i + 1].nodes| > 0
    ensures Orient(comps[i].nodes, ds[i])[|comps[i].nodes| - 1] == conns[i].shared
    ensures Orient(comps[i + 1].nodes, ds[i + 1])[0] == conns[i].shared
  {
    assert Link(comps, i) == Some(conns[i]);
    assert JoinsAt(comps[i].nodes, comps[i + 1].nodes, conns[i].shared);
    assert Effective(ds[i], conns[i].end1) == Last;
  }

  lemma {:induction false} GlueRestAppend<T>(parts: seq<seq<T>>, p: seq<T>)
    ensures GlueRest(parts + [p]) == GlueRest(parts) + Rest(p)
    decreases |parts|
  {
    if |parts| == 0 {
      assert [p][1..] == [];
    } else {
      assert (parts + [p])[1..] == parts[1..] + [p];
      GlueRestAppend(parts[1..], p);
    }
  }

  /** Gluing one more list appends it without its first element. */
  lemma GlueAppend<T>(parts: seq<seq<T>>, p: seq<T>)
    ensures |parts| == 0 ==> Glue(parts + [p]) == p
    ensures |parts| > 0 ==> Glue(parts + [p]) == Glue(parts) + Rest(p)
  {
    if |parts| == 0 {
      assert parts + [p] == [p];
    } else {
      assert (parts + [p])[1..] == parts[1..] + [p];
      GlueRestAppend(parts[1..], p);
    }
  }
}
