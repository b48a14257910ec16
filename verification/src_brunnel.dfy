/** The brunnel of the current generation (src/brunnels/brunnel.py): a way whose compound
    membership is a shared, ordered list of brunnels recorded in its metadata, and the
    connected-component search that builds those lists. Brunnels are identified by their
    position in the list that stands for the id-keyed dictionary. */
module SrcBrunnel {
  import opened Base
  import opened Seqs
  import opened Text
  import opened Graphs
  import opened IndexSort
  import Intervals
  import WayModel
  import PkgBrunnelWay

  /** Why a brunnel was excluded; `NoFilter` (Python `NONE`) keeps it. */
  datatype FilterReason = NoFilter | NotContained | Unaligned | NotNearest

  /** Where a brunnel lies along the route, in kilometres from the route start. */
  datatype RouteSpan = RouteSpan(start: real, end: real)

  /** A bridge or tunnel. `group` is `metadata["compound_group"]` when present: the positions of
      the brunnels of its compound, in their stored order. */
  datatype Brunnel = Brunnel(
    coords: seq<Position>,
    data: WayData,
    btype: BrunnelType,
    reason: FilterReason,
    span: Option<RouteSpan>,
    group: Option<seq<nat>>)

  /** Every compound list refers to brunnels of the list (object references in the program). */
  predicate GroupsInRange(bs: seq<Brunnel>)
  {
    forall i, k :: 0 <= i < |bs| && bs[i].group.Some? && 0 <= k < |bs[i].group.value| ==>
      bs[i].group.value[k] < |bs|
  }

  /** `is_compound_brunnel` */
  predicate IsCompound(b: Brunnel)
  {
    b.group.Some?
  }

  /** The first position of x in s (`list.index`). */
  function IndexOf(s: seq<nat>, x: nat): (r: Option<nat>)
    ensures r.Some? <==> x in s
    ensures r.Some? ==> r.value < |s| && s[r.value] == x && x !in s[..r.value]
  {
    if |s| == 0 then None
    else if s[0] == x then Some(0)
    else match IndexOf(s[1..], x)
      case None => None
      case Some(k) =>
        assert s[..k + 1] == [s[0]] + s[1..][..k];
        Some(k + 1)
  }

  /** `is_representative`: a plain brunnel represents itself; a compound member does when it
      heads its group, and `list.index` raises ValueError when it is missing from it. */
  function IsRepresentative(bs: seq<Brunnel>, i: nat): (r: Result<bool>)
    requires i < |bs|
    ensures !IsCompound(bs[i]) ==> r == Ok(true)
    ensures IsCompound(bs[i]) ==> (r.Ok? <==> i in bs[i].group.value)
    ensures IsCompound(bs[i]) && r.Ok? ==> (r.value <==> bs[i].group.value[0] == i)
  {
    match bs[i].group
    case None => Ok(true)
    case Some(g) =>
      match IndexOf(g, i)
      case None => Err(ValueError(NotInGroupMessage))
      case Some(k) => Ok(k == 0)
  }

  const NotInGroupMessage: string := "brunnel is not in list"

  /** `get_id`: a compound member is named by the ids of its whole group joined by ';';
      any other brunnel by its own id, or "unknown". */
  function GetId(bs: seq<Brunnel>, i: nat): (id: string)
    requires i < |bs| && GroupsInRange(bs)
    ensures !IsCompound(bs[i]) ==> id == IdString(bs[i].data.id)
    ensures IsCompound(bs[i]) && |bs[i].group.value| > 0 ==>
      var g := bs[i].group.value;
      Split(id, ';') == seq(|g|, k requires 0 <= k < |g| => IdString(bs[g[k]].data.id))
  {
    match bs[i].group
    case None => IdString(bs[i].data.id)
    case Some(g) =>
      var ids := seq(|g|, k requires 0 <= k < |g| => IdString(bs[g[k]].data.id));
      if |g| > 0 then
        SplitJoin(ids, ';');
        Join(ids, ';')
      else Join(ids, ';')
  }

  const EmptyGroupMessage: string := "list index out of range"
  const NoSpanMessage: string := "'NoneType' object has no attribute"

  /** `get_route_span`: a compound member spans from the start of its group's first brunnel to
      the end of its group's last one; any other brunnel has its own span. Indexing an empty
      group raises IndexError, and a group end without a span raises AttributeError. */
  function GetRouteSpan(bs: seq<Brunnel>, i: nat): (r: Result<Option<RouteSpan>>)
    requires i < |bs| && GroupsInRange(bs)
    ensures !IsCompound(bs[i]) ==> r == Ok(bs[i].span)
    ensures IsCompound(bs[i]) ==>
      var g := bs[i].group.value;
      && (|g| == 0 ==> r == Err(IndexError(EmptyGroupMessage)))
      && (|g| > 0 ==> (r.Ok? <==> bs[g[0]].span.Some? && bs[g[|g| - 1]].span.Some?))
      && (|g| > 0 && r.Err? ==> r == Err(AttributeError(NoSpanMessage)))
      && (|g| > 0 && r.Ok? ==>
            r.value == Some(RouteSpan(bs[g[0]].span.value.start, bs[g[|g| - 1]].span.value.end)))
  {
    match bs[i].group
    case None => Ok(bs[i].span)
    case Some(g) =>
      if |g| == 0 then Err(IndexError(EmptyGroupMessage))
      else
        var first, last := bs[g[0]], bs[g[|g| - 1]];
        if first.span.None? || last.span.None? then Err(AttributeError(NoSpanMessage))
        else Ok(Some(RouteSpan(first.span.value.start, last.span.value.end)))
  }

  /** `overlaps_with`: compares the two brunnels' own spans (not `get_route_span`); false when
      either has none. */
  function OverlapsWith(a: Brunnel, b: Brunnel): (r: bool)
    ensures r ==> a.span.Some? && b.span.Some?
    ensures a.span.Some? && b.span.Some? ==>
      (r <==> Intervals.Overlap(a.span.value.start, a.span.value.end, b.span.value.start, b.span.value.end))
  {
    match (a.span, b.span)
    case (Some(s), Some(t)) => Intervals.Overlap(s.start, s.end, t.start, t.end)
    case _ => false
  }

  lemma OverlapsWithSymmetric(a: Brunnel, b: Brunnel)
    ensures OverlapsWith(a, b) == OverlapsWith(b, a)
  {
  }

  /** For well-formed spans, overlapping means some route distance lies on both. */
  lemma OverlapsWithCommonPoint(a: Brunnel, b: Brunnel)
    requires a.span.Some? && a.span.value.start <= a.span.value.end
    requires b.span.Some? && b.span.value.start <= b.span.value.end
    ensures OverlapsWith(a, b) <==> exists x ::
      Intervals.Within(x, a.span.value.start, a.span.value.end) &&
      Intervals.Within(x, b.span.value.start, b.span.value.end)
  {
    Intervals.OverlapIffCommonPoint(a.span.value.start, a.span.value.end, b.span.value.start, b.span.value.end);
  }

  const NoCoordinatesMessage: string := "has no coordinates to calculate route span"
  const InsufficientCoordinatesMessage: string := "has insufficient coordinates to calculate route span"

  /** `calculate_route_span`: `dists[k]` is the distance along the route of the route point
      closest to the brunnel's k-th coordinate. Fewer than two coordinates raise ValueError;
      otherwise the span runs from the least to the greatest of them. */
  function CalculateRouteSpan(dists: seq<real>): (r: Result<RouteSpan>)
    ensures |dists| == 0 ==> r == Err(ValueError(NoCoordinatesMessage))
    ensures |dists| == 1 ==> r == Err(ValueError(InsufficientCoordinatesMessage))
    ensures r.Ok? <==> |dists| >= 2
    ensures r.Ok? ==> r.value.start <= r.value.end && r.value.start in dists && r.value.end in dists
    ensures r.Ok? ==> forall k :: 0 <= k < |dists| ==> r.value.start <= dists[k] <= r.value.end
  {
    if |dists| == 0 then Err(ValueError(NoCoordinatesMessage))
    else if |dists| < 2 then Err(ValueError(InsufficientCoordinatesMessage))
    else Ok(RouteSpan(MinOf(dists), MaxOf(dists)))
  }

  /** The brunnel's tags ask for a tunnel: `tags.get("tunnel", "no")` is neither "no" nor "false". */
  predicate TunnelTagged(tags: Tags)
  {
    "tunnel" in tags && tags["tunnel"] != "no" && tags["tunnel"] != "false"
  }

  /** `from_overpass_data`: one coordinate per geometry node, a tunnel when tagged as one and a
      bridge otherwise, unfiltered, without a span and outside any compound. */
  function FromOverpassData(data: WayData): (b: Brunnel)
    ensures b.coords == data.geometry && b.data == data
    ensures b.btype == Tunnel <==> TunnelTagged(data.tags)
    ensures b.reason == NoFilter && b.span.None? && b.group.None?
  {
    var t := if "tunnel" in data.tags && data.tags["tunnel"] !in ["no", "false"] then Tunnel else Bridge;
    Brunnel(data.geometry, data, t, NoFilter, None, None)
  }

  /** This generation classifies bridges and tunnels exactly as the package's `determine_type`. */
  lemma TypeAgreesWithPackage(data: WayData)
    ensures FromOverpassData(data).btype == PkgBrunnelWay.DetermineType(data.tags)
  {
  }

  /** Both generations read the same coordinates, way data and type from an Overpass element
      (the package also decides the filter reason while reading, this generation later). */
  lemma ReadAgreesWithPackage(data: WayData, keepPolygons: bool)
    ensures var b, w := FromOverpassData(data), PkgBrunnelWay.FromOverpassData(data, keepPolygons);
      b.coords == w.coords && b.data == w.data && b.btype == w.btype
  {
  }

  // ---------------------------------------------------------------------------------------
  // find_compound_brunnels

  /** A brunnel that takes part in the search: it exists and is not filtered. */
  predicate Active(bs: seq<Brunnel>, i: nat)
  {
    i < |bs| && bs[i].reason == NoFilter
  }

  /** Two active brunnels are joined when their node lists share a node id (the `edges` map of
      node id to the ways through it). */
  function Linked(bs: seq<Brunnel>): Rel
  {
    (i: nat, j: nat) =>
      Active(bs, i) && Active(bs, j) && WayModel.SharesNode(bs[i].data.nodes, bs[j].data.nodes)
  }

  lemma LinkedSymmetric(bs: seq<Brunnel>)
    ensures Symmetric(Linked(bs))
  {
    forall a: nat, b: nat ensures Linked(bs)(a, b) == Linked(bs)(b, a) {
      if Active(bs, a) && Active(bs, b) {
        WayModel.SharesNodeSymmetric(bs[a].data.nodes, bs[b].data.nodes);
      }
    }
  }

  /** The active positions in list order (`way_ids`). */
  function ActivePositions(bs: seq<Brunnel>): (r: seq<nat>)
    ensures forall x :: x in r <==> Active(bs, x)
  {
    Filter(Range(|bs|), (x: nat) => Active(bs, x))
  }

  /** Steps 1 and 2: the connected components of the shared-node graph of the active brunnels,
      in the order of their first member in the list. */
  method FindComponents(bs: seq<Brunnel>) returns (comps: seq<set<nat>>)
    ensures forall k :: 0 <= k < |comps| ==> IsComponent(Linked(bs), comps[k])
    ensures forall k, l :: 0 <= k < l < |comps| ==> comps[k] !! comps[l]
    ensures forall x :: Active(bs, x) <==> exists k :: 0 <= k < |comps| && x in comps[k]
  {
    LinkedSymmetric(bs);
    comps := Components(Linked(bs), |bs|, ActivePositions(bs));
  }

  /** The members of a component in list order (the program takes the set's iteration order;
      the model takes increasing position). */
  function Members(bs: seq<Brunnel>, c: set<nat>): (r: seq<nat>)
    ensures NoDup(r)
    ensures forall x :: x in r <==> x < |bs| && x in c
  {
    FilterNoDup(Range(|bs|), (x: nat) => x in c);
    Filter(Range(|bs|), (x: nat) => x in c)
  }

  /** The sort key of `find_compound_brunnels`: the span start, or 0.0 without a span. */
  function StartKeys(bs: seq<Brunnel>): (key: seq<real>)
    ensures |key| == |bs|
    ensures forall i :: 0 <= i < |bs| ==> key[i] == if bs[i].span.Some? then bs[i].span.value.start else 0.0
  {
    seq(|bs|, i requires 0 <= i < |bs| => if bs[i].span.Some? then bs[i].span.value.start else 0.0)
  }

  /** The index of the first component that holds x. */
  function ComponentOf(comps: seq<set<nat>>, x: nat): (r: Option<nat>)
    ensures r.Some? <==> exists k :: 0 <= k < |comps| && x in comps[k]
    ensures r.Some? ==> r.value < |comps| && x in comps[r.value]
  {
    if |comps| == 0 then None
    else if x in comps[0] then Some(0)
    else match ComponentOf(comps[1..], x)
      case None =>
        assert forall k :: 1 <= k < |comps| ==> comps[k] == comps[1..][k - 1];
        None
      case Some(k) => Some(k + 1)
  }

  /** Step 3 for one brunnel: a member of a component with more than one member records the
      component's members sorted by span start; any other brunnel is left as it was. */
  function MarkOne(bs: seq<Brunnel>, comps: seq<set<nat>>, i: nat): (b: Brunnel)
    requires i < |bs|
    ensures b == bs[i].(group := b.group)
  {
    match ComponentOf(comps, i)
    case Some(k) =>
      if |comps[k]| > 1 then bs[i].(group := Some(SortBy(StartKeys(bs), Members(bs, comps[k]))))
      else bs[i]
    case None => bs[i]
  }

  function MarkGroups(bs: seq<Brunnel>, comps: seq<set<nat>>): (r: seq<Brunnel>)
    ensures |r| == |bs| && forall i :: 0 <= i < |bs| ==> r[i] == MarkOne(bs, comps, i)
  {
    seq(|bs|, i requires 0 <= i < |bs| => MarkOne(bs, comps, i))
  }

  /** `find_compound_brunnels`: every active brunnel that shares nodes, directly or through other
      active brunnels, with some other active brunnel records the list of all brunnels so
      reachable, sorted by span start; the list is the same for all of them. Filtered brunnels
      and isolated ones are untouched, and nothing but the compound list changes. */
  method FindCompoundBrunnels(bs: seq<Brunnel>) returns (r: seq<Brunnel>)
    ensures |r| == |bs|
    ensures forall i :: 0 <= i < |bs| ==> r[i] == bs[i].(group := r[i].group)
    ensures forall i :: 0 <= i < |bs| && !Active(bs, i) ==> r[i] == bs[i]
    ensures forall i :: 0 <= i < |bs| && Active(bs, i) && (forall j :: Reachable(Linked(bs), i, j) ==> j == i) ==>
      r[i] == bs[i]
    ensures forall i, j :: 0 <= i < |bs| && Active(bs, i) && j != i && Reachable(Linked(bs), i, j) ==>
      && r[i].group.Some?
      && (forall x :: x in r[i].group.value <==> Reachable(Linked(bs), i, x))
      && NoDup(r[i].group.value)
      && SortedBy(StartKeys(bs), r[i].group.value)
    ensures forall i, j :: 0 <= i < |bs| && 0 <= j < |bs| && Active(bs, i) && Reachable(Linked(bs), i, j) ==>
      r[i].group == r[j].group
  {
    var comps := FindComponents(bs);
    r := MarkGroups(bs, comps);
    forall i | 0 <= i < |bs| && !Active(bs, i) ensures r[i] == bs[i] {
      assert ComponentOf(comps, i).None?;
    }
    forall i | 0 <= i < |bs| && Active(bs, i) ensures
      && ((forall j :: Reachable(Linked(bs), i, j) ==> j == i) ==> r[i] == bs[i])
      && ((exists j :: j != i && Reachable(Linked(bs), i, j)) ==>
            && r[i].group.Some?
            && (forall x :: x in r[i].group.value <==> Reachable(Linked(bs), i, x))
            && NoDup(r[i].group.value)
            && SortedBy(StartKeys(bs), r[i].group.value))
    {
      MarkedAt(bs, comps, i);
      var c := comps[ComponentOf(comps, i).value];
      if |c| > 1 {
        var g := SortBy(StartKeys(bs), Members(bs, c));
        assert r[i].group == Some(g);
        SortedNoDup(StartKeys(bs), g);
        forall x ensures x in g <==> Reachable(Linked(bs), i, x) {
          if x in c {
            assert Active(bs, x);
          }
        }
      }
    }
    forall i, j | 0 <= i < |bs| && 0 <= j < |bs| && Active(bs, i) && Reachable(Linked(bs), i, j)
      ensures r[i].group == r[j].group
    {
      MarkedAt(bs, comps, i);
      var k := ComponentOf(comps, i).value;
      var k' := ComponentOf(comps, j).value;
      assert j in comps[k] && j in comps[k'];
      assert k == k';
      if i != j {
        SizeOfTwo(comps[k], i, j);
      }
    }
  }

  lemma SizeOfTwo(c: set<nat>, i: nat, j: nat)
    requires i in c && j in c && i != j
    ensures |c| > 1
  {
    assert {i, j} <= c;
    assert |{i, j}| == 2;
    SubsetSize({i, j}, c);
  }

  lemma {:induction false} SubsetSize(a: set<nat>, b: set<nat>)
    requires a <= b
    ensures |a| <= |b|
    decreases |a|
  {
    if a != {} {
      var x :| x in a;
      SubsetSize(a - {x}, b - {x});
    }
  }

  /** What `MarkGroups` does to one active brunnel: its component is what it reaches; the
      brunnel records the sorted component when that has other members, and is kept otherwise. */
  lemma MarkedAt(bs: seq<Brunnel>, comps: seq<set<nat>>, i: nat)
    requires forall k :: 0 <= k < |comps| ==> IsComponent(Linked(bs), comps[k])
    requires forall x :: Active(bs, x) <==> exists k :: 0 <= k < |comps| && x in comps[k]
    requires 0 <= i < |bs| && Active(bs, i)
    ensures ComponentOf(comps, i).Some?
    ensures forall x :: x in comps[ComponentOf(comps, i).value] <==> Reachable(Linked(bs), i, x)
    ensures var c := comps[ComponentOf(comps, i).value];
      && (|c| > 1 ==> MarkOne(bs, comps, i) == bs[i].(group := Some(SortBy(StartKeys(bs), Members(bs, c)))))
      && (|c| <= 1 ==> MarkOne(bs, comps, i) == bs[i])
      && (|c| <= 1 ==> forall j :: Reachable(Linked(bs), i, j) ==> j == i)
      && ((forall j :: Reachable(Linked(bs), i, j) ==> j == i) ==> |c| <= 1)
  {
    LinkedSymmetric(bs);
    var k := ComponentOf(comps, i).value;
    var c := comps[k];
    ComponentFromMember(Linked(bs), c, i);
    if |c| <= 1 {
      forall j | Reachable(Linked(bs), i, j) ensures j == i {
        if j != i {
          SizeOfTwo(c, i, j);
        }
      }
    }
    if forall j :: Reachable(Linked(bs), i, j) ==> j == i {
      assert c == {i};
    }
  }
}
