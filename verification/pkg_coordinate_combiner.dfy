/** The directional coordinate combiner of the earlier package generation
    (brunnels/coordinate_combiner.py). Connection analysis and validation are the same as in
    the current generation; the direction choice always starts the first way forward. */
module PkgCoordinateCombiner {
  import opened Base
  import opened Seqs
  import opened WayChain
  import SrcCoordinateCombiner

  /** One direction per way; the first way is always taken forward. */
  function DetermineDirections(conns: seq<Connection>): (ds: seq<Direction>)
    ensures |ds| == |conns| + 1 && ds[0] == Forward
    ensures forall i :: 0 <= i < |conns| ==> ds[i + 1] == NextDirection(ds[i], conns[i])
  {
    Propagate(Forward, conns)
  }

  /** `combine_osm_way_coordinates` as this generation writes it. */
  function CombineCoordinates(comps: seq<Component>): (r: Result<seq<Position>>)
    ensures r.Ok? <==> Chainable(comps)
    ensures r.Err? ==> r.error.ValueError?
    ensures |comps| == 0 ==> r == Ok([])
    ensures |comps| == 1 ==> r == Ok(comps[0].coords)
  {
    match Analyze(comps)
    case Err(e) => Err(e)
    case Ok(conns) =>
      if |comps| == 0 then Ok([])
      else if |comps| == 1 then Ok(comps[0].coords)
      else Ok(Glue(OrientedCoords(comps, DetermineDirections(conns))))
  }

  /** When the first way joins the second at its last node, both generations choose the same
      directions and produce the same polyline. */
  lemma AgreesWhenFirstWayEndsAtJoin(comps: seq<Component>)
    requires |comps| >= 2 && Chainable(comps)
    requires Link(comps, 0).value.end1 == Last
    ensures CombineCoordinates(comps) == SrcCoordinateCombiner.CombineCoordinates(comps)
  {
    var conns := Analyze(comps).value;
    assert SrcCoordinateCombiner.InitialDirection(conns[0]) == Forward;
  }

  /** The first way stored with its shared node first (nodes [20, 10], then [20, 30]) is not
      reversed, so the second way is reversed instead: the result runs p2, p1, p2 and never
      reaches p3 (the current generation gives p1, p2, p3). The oriented ways do not meet. */
  lemma BackwardForwardBreaksChain()
    ensures var p1, p2, p3 := Position(0.0, 0.0, None), Position(0.0, 1.0, None), Position(0.0, 2.0, None);
      var comps := [Component([20, 10], [p2, p1]), Component([20, 30], [p2, p3])];
      && CombineCoordinates(comps) == Ok([p2, p1, p2])
      && !Meets(Orient(comps[0].nodes, Forward), Orient(comps[1].nodes, Reverse))
  {
    var p1, p2, p3 := Position(0.0, 0.0, None), Position(0.0, 1.0, None), Position(0.0, 2.0, None);
    var comps := [Component([20, 10], [p2, p1]), Component([20, 30], [p2, p3])];
    assert NodeSet([20, 10]) * NodeSet([20, 30]) == {20};
    assert Link(comps, 0) == Some(Connection(20, First, First));
    AnalyzeTwo(comps, Connection(20, First, First));
    assert DetermineDirections([Connection(20, First, First)]) == [Forward, Reverse];
    assert Reversed([p2, p3]) == [p3, p2];
    var oriented := OrientedCoords(comps, [Forward, Reverse]);
    assert oriented[0] == [p2, p1] && oriented[1] == [p3, p2];
    assert oriented == [[p2, p1], [p3, p2]];
    assert GlueRest([[p3, p2]]) == [p2];
    assert Glue(oriented) == [p2, p1, p2];
    assert Reversed([20, 30]) == [30, 20];
  }
}
