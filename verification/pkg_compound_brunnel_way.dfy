/** The compound brunnel of the `brunnels` package (brunnels/compound_brunnel_way.py):
    a constructor that refuses filtered components, coordinates from this generation's
    directional combiner with the naive concatenation as fallback, and the list rewrite of `create_from_brunnels`. */
module PkgCompoundBrunnelWay {
  import opened Base
  import opened Seqs
  import opened WayModel
  import opened WayChain
  import opened AdjacentGrouping
  import opened CompoundCore
  import SrcCoordinateCombiner
  import PkgCoordinateCombiner

  /** The constructor: `_validate_components` refuses an empty list, mixed types and, in this
      generation, any component that has been filtered out. */
  function New(cs: seq<Way>, btype: BrunnelType, contained: bool, reason: FilterReason,
               span: Option<RouteSpan>): (r: Result<CompoundWay>)
    ensures r.Ok? <==> |cs| > 0 && SameType(cs) && AllUnfiltered(cs)
    ensures |cs| == 0 ==> r == Err(ValueError(NoComponentsMessage))
    ensures |cs| > 0 && !SameType(cs) ==> r == Err(ValueError(MixedTypesMessage))
    ensures |cs| > 0 && SameType(cs) && !AllUnfiltered(cs) ==> r == Err(ValueError(FilteredComponentMessage))
    ensures r.Ok? ==> r.value.components == cs && r.value.btype == cs[0].btype
  {
    NewCompound(cs, btype, contained, reason, span, true)
  }

  /** `_compute_combined_coordinates`: nothing for no components; otherwise this generation's
      directional combiner, or the naive concatenation when the combiner raises. */
  function CombinedCoordinates(cs: seq<Way>): (r: seq<Position>)
    ensures |cs| == 0 ==> r == []
    ensures |cs| == 1 ==> r == cs[0].coords
    ensures !Chainable(Chain(cs)) ==> r == Glue(CoordLists(cs))
    ensures |cs| >= 2 && Chainable(Chain(cs)) ==>
      r == Glue(OrientedCoords(Chain(cs), PkgCoordinateCombiner.DetermineDirections(Analyze(Chain(cs)).value)))
  {
    if |cs| == 0 then []
    else
      match PkgCoordinateCombiner.CombineCoordinates(Chain(cs))
      case Ok(coords) => coords
      case Err(_) => Glue(CoordLists(cs))
  }

  /** When the first component joins the second at its last node, consecutive components of
      the combined polyline meet: each oriented component starts at the node where the previous
      one ends. Without that condition they need not meet
      (PkgCoordinateCombiner.BackwardForwardBreaksChain). */
  lemma CombinedComponentsMeet(cs: seq<Way>)
    requires |cs| >= 2 && Chainable(Chain(cs))
    requires Link(Chain(cs), 0).value.end1 == Last
    ensures var ds := PkgCoordinateCombiner.DetermineDirections(Analyze(Chain(cs)).value);
      forall i :: 0 <= i < |cs| - 1 ==>
        Meets(Orient(cs[i].data.nodes, ds[i]), Orient(cs[i + 1].data.nodes, ds[i + 1]))
  {
    var comps := Chain(cs);
    var conns := Analyze(comps).value;
    assert SrcCoordinateCombiner.InitialDirection(conns[0]) == Forward;
    assert PkgCoordinateCombiner.DetermineDirections(conns) == SrcCoordinateCombiner.Directions(comps);
    SrcCoordinateCombiner.WaysMeet(comps);
  }

  /** `create_from_brunnels`: the detected groups become compounds, in group order, followed by
      every other brunnel in list order; with no group the list is returned unchanged. */
  function CreateFromBrunnels(ws: seq<Way>): (r: seq<Brunnel>)
    ensures AllInBounds(ws, DetectAdjacentGroups(ws))
    ensures CreatedShape(ws, DetectAdjacentGroups(ws), r)
    ensures |DetectAdjacentGroups(ws)| == 0 ==> r == seq(|ws|, q requires 0 <= q < |ws| => Single(q, ws[q]))
  {
    CreateFromDetected(ws, true);
    CreateWithoutGroups(ws, true);
    Create(ws, DetectAdjacentGroups(ws), true)
  }
}
