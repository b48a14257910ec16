/** The directional coordinate combiner of the current generation
    (src/brunnels/coordinate_combiner.py): orients every way of a compound brunnel so that
    consecutive ways meet at their shared node, then concatenates the coordinates, dropping
    each later way's first point. */
module SrcCoordinateCombiner {
  import opened Base
  import opened Seqs
  import opened WayChain

  /** The first way is reversed exactly when it joins the second way at its first node, so
      that it is always left through the shared node. */
  function InitialDirection(c: Connection): (d: Direction)
    ensures Effective(d, c.end1) == Last
    ensures d == Reverse <==> c.end1 == First
  {
    if c.end1 == First then Reverse
    else
      assert c.end1 == Last;
      Forward
  }

  /** One direction per way, from the connections of at least two ways. */
  function DetermineDirections(conns: seq<Connection>): (ds: seq<Direction>)
    requires |conns| > 0
    ensures |ds| == |conns| + 1
    ensures Effective(ds[0], conns[0].end1) == Last
    ensures forall i :: 0 <= i < |conns| ==> ds[i + 1] == NextDirection(ds[i], conns[i])
  {
    Propagate(InitialDirection(conns[0]), conns)
  }

  /** `combine_osm_way_coordinates`: validation in the constructor, then the combined polyline. */
  function CombineCoordinates(comps: seq<Component>): (r: Result<seq<Position>>)
    ensures r.Ok? <==> Chainable(comps)
    ensures r.Err? ==> r.error.ValueError?
    ensures |comps| == 0 ==> r == Ok([])
    ensures |comps| == 1 ==> r == Ok(comps[0].coords)
  {
    match Analyze(comps)
    case Err(e) => Err(e)
    case Ok(conns) =>
      if |comps| == 0 then Ok([])
      else if |comps| == 1 then Ok(comps[0].coords)
      else Ok(Glue(OrientedCoords(comps, DetermineDirections(conns))))
  }

  /** The directions the combiner gives a chainable list of at least two ways. */
  function Directions(comps: seq<Component>): (ds: seq<Direction>)
    requires |comps| >= 2 && Chainable(comps)
    ensures |ds| == |comps|
  {
    DetermineDirections(Analyze(comps).value)
  }

  /** Every coordinate of a way is the position of the node at the same index. */
  predicate CoordsFollowNodes(comps: seq<Component>, pos: NodeId -> Position)
  {
    forall i :: 0 <= i < |comps| ==>
      |comps[i].coords| == |comps[i].nodes| &&
      forall k :: 0 <= k < |comps[i].nodes| ==> comps[i].coords[k] == pos(comps[i].nodes[k])
  }

  /** The combined polyline is the ways' coordinates, each way oriented by Directions, the
      first kept whole and every later one without its first point. */
  lemma CombineShape(comps: seq<Component>)
    requires |comps| >= 2 && Chainable(comps)
    ensures CombineCoordinates(comps) == Ok(Glue(OrientedCoords(comps, Directions(comps))))
  {
  }

  /** Under Directions every oriented way starts at the node where the previous oriented way
      ends, which is the node the two share. */
  lemma {:induction false} WaysMeet(comps: seq<Component>)
    requires |comps| >= 2 && Chainable(comps)
    ensures forall i :: 0 <= i < |comps| - 1 ==>
      Meets(Orient(comps[i].nodes, Directions(comps)[i]), Orient(comps[i + 1].nodes, Directions(comps)[i + 1]))
  {
    var conns := Analyze(comps).value;
    var ds := Directions(comps);
    PropagateLeavesAtJoins(comps, conns, ds[0]);
    forall i | 0 <= i < |comps| - 1
      ensures Meets(Orient(comps[i].nodes, ds[i]), Orient(comps[i + 1].nodes, ds[i + 1]))
    {
      JoinsMeet(comps, conns, ds, i);
    }
  }

  /** Where the coordinates follow the nodes, the point dropped from each later way repeats the
      last point already emitted, so the combined polyline is continuous and loses nothing. */
  lemma {:induction false} PointsMeet(comps: seq<Component>, pos: NodeId -> Position)
    requires |comps| >= 2 && Chainable(comps)
    requires CoordsFollowNodes(comps, pos)
    ensures forall i :: 0 <= i < |comps| - 1 ==>
      Meets(Orient(comps[i].coords, Directions(comps)[i]), Orient(comps[i + 1].coords, Directions(comps)[i + 1]))
  {
    var ds := Directions(comps);
    WaysMeet(comps);
    forall i | 0 <= i < |comps| - 1
      ensures Meets(Orient(comps[i].coords, ds[i]), Orient(comps[i + 1].coords, ds[i + 1]))
    {
      CoordsMeet(comps[i].nodes, comps[i].coords, ds[i], comps[i + 1].nodes, comps[i + 1].coords, ds[i + 1], pos);
    }
  }

  /** Two ways whose coordinates follow their nodes meet in coordinates where they meet in
      nodes. */
  lemma CoordsMeet(n1: seq<NodeId>, c1: seq<Position>, d1: Direction,
                   n2: seq<NodeId>, c2: seq<Position>, d2: Direction, pos: NodeId -> Position)
    requires |c1| == |n1| && forall k :: 0 <= k < |n1| ==> c1[k] == pos(n1[k])
    requires |c2| == |n2| && forall k :: 0 <= k < |n2| ==> c2[k] == pos(n2[k])
    requires Meets(Orient(n1, d1), Orient(n2, d2))
    ensures Meets(Orient(c1, d1), Orient(c2, d2))
  {
    assert Orient(c1, d1)[|c1| - 1] == pos(Orient(n1, d1)[|n1| - 1]);
    assert Orient(c2, d2)[0] == pos(Orient(n2, d2)[0]);
  }

  /** Each way after the first contributes one point less than it has. */
  lemma CombineLength(comps: seq<Component>)
    requires |comps| >= 2 && Chainable(comps)
    requires forall i :: 0 <= i < |comps| ==> |comps[i].coords| > 0
    ensures CombineCoordinates(comps).Ok?
    ensures |CombineCoordinates(comps).value| == SumNat(Sizes(OrientedCoords(comps, Directions(comps)))) - (|comps| - 1)
  {
    GlueLength(OrientedCoords(comps, Directions(comps)));
  }

  /** A way stored against the travel direction at the start of the chain is reversed:
      nodes [20, 10] then [20, 30] give p1, p2, p3. */
  lemma BackwardForwardExample()
    ensures var p1, p2, p3 := Position(0.0, 0.0, None), Position(0.0, 1.0, None), Position(0.0, 2.0, None);
      CombineCoordinates([Component([20, 10], [p2, p1]), Component([20, 30], [p2, p3])]) == Ok([p1, p2, p3])
  {
    var p1, p2, p3 := Position(0.0, 0.0, None), Position(0.0, 1.0, None), Position(0.0, 2.0, None);
    var comps := [Component([20, 10], [p2, p1]), Component([20, 30], [p2, p3])];
    assert NodeSet([20, 10]) * NodeSet([20, 30]) == {20};
    assert Link(comps, 0) == Some(Connection(20, First, First));
    AnalyzeTwo(comps, Connection(20, First, First));
    assert DetermineDirections([Connection(20, First, First)]) == [Reverse, Forward];
    assert Reversed([p2, p1]) == [p1, p2];
    var oriented := OrientedCoords(comps, [Reverse, Forward]);
    assert oriented[0] == [p1, p2] && oriented[1] == [p2, p3];
    assert oriented == [[p1, p2], [p2, p3]];
    assert GlueRest([[p2, p3]]) == [p3];
    assert Glue(oriented) == [p1, p2, p3];
  }
}
