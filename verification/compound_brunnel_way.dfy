/** The compound brunnel of the root-level scripts (compound_brunnel_way.py): a constructor that
    accepts filtered components, coordinates by plain concatenation, the merged tags with their
    conflicts, node sharing, and the list rewrite of `create_compound_brunnels`. */
module RootCompoundBrunnelWay {
  import opened Base
  import opened Seqs
  import opened WayModel
  import opened WayChain
  import opened AdjacentGrouping
  import opened CompoundCore
  import PkgCompoundBrunnelWay
  import SrcCoordinateCombiner
  import PkgCoordinateCombiner

  /** `__post_init__`: refuses an empty list and mixed types; unlike the packaged version it
      does not look at the components' filter reasons. */
  function PostInit(cs: seq<Way>, btype: BrunnelType, contained: bool, reason: FilterReason,
                    span: Option<RouteSpan>): (r: Result<CompoundWay>)
    ensures r.Ok? <==> |cs| > 0 && SameType(cs)
    ensures |cs| == 0 ==> r == Err(ValueError(NoComponentsMessage))
    ensures |cs| > 0 && !SameType(cs) ==> r == Err(ValueError(MixedTypesMessage))
    ensures r.Ok? ==> r.value.components == cs && r.value.btype == cs[0].btype
    ensures r.Ok? ==> r.value.contained == contained && r.value.reason == reason && r.value.span == span
  {
    NewCompound(cs, btype, contained, reason, span, false)
  }

  // ---------------------------------------------------------------------------------------
  // Coordinates

  /** `_compute_combined_coordinates`: the first component's points, then each later
      component's points after its first, with no regard to the direction a way is stored in. */
  function CombinedCoordinates(cs: seq<Way>): (r: seq<Position>)
    ensures |cs| == 0 ==> r == []
    ensures |cs| > 0 ==> |cs[0].coords| <= |r| && r[..|cs[0].coords|] == cs[0].coords
    ensures |cs| > 0 && (forall k :: 0 <= k < |cs| ==> |cs[k].coords| > 0) ==>
      |r| == SumNat(Sizes(CoordLists(cs))) - (|cs| - 1)
  {
    assert (|cs| > 0 && forall k :: 0 <= k < |cs| ==> |cs[k].coords| > 0) ==>
      |Glue(CoordLists(cs))| == SumNat(Sizes(CoordLists(cs))) - (|cs| - 1) by {
      if |cs| > 0 && forall k :: 0 <= k < |cs| ==> |cs[k].coords| > 0 {
        GlueLength(CoordLists(cs));
      }
    }
    Glue(CoordLists(cs))
  }

  /** The concatenation the root-level method evidently intends: every way oriented so that it
      is entered through the node it shares with the previous way (the current generation's
      combiner), falling back to the plain concatenation when the ways do not form a chain. */
  function OrientedCoordinates(cs: seq<Way>): (r: seq<Position>)
    ensures |cs| == 0 ==> r == []
    ensures |cs| == 1 ==> r == cs[0].coords
    ensures !Chainable(Chain(cs)) ==> r == CombinedCoordinates(cs)
    ensures |cs| >= 2 && Chainable(Chain(cs)) ==>
      r == Glue(OrientedCoords(Chain(cs), SrcCoordinateCombiner.Directions(Chain(cs))))
  {
    if |cs| == 0 then []
    else
      match SrcCoordinateCombiner.CombineCoordinates(Chain(cs))
      case Ok(coords) =>
        assert |cs| >= 2 ==> coords == Glue(OrientedCoords(Chain(cs), SrcCoordinateCombiner.Directions(Chain(cs)))) by {
          if |cs| >= 2 {
            SrcCoordinateCombiner.CombineShape(Chain(cs));
          }
        }
        coords
      case Err(_) => Glue(CoordLists(cs))
  }

  /** On a chain, the ways oriented by OrientedCoordinates meet: each starts at the node where
      the previous one ends, whichever way round the ways are stored. */
  lemma OrientedComponentsMeet(cs: seq<Way>)
    requires |cs| >= 2 && Chainable(Chain(cs))
    ensures var ds := SrcCoordinateCombiner.Directions(Chain(cs));
      forall i :: 0 <= i < |cs| - 1 ==>
        Meets(Orient(cs[i].data.nodes, ds[i]), Orient(cs[i + 1].data.nodes, ds[i + 1]))
  {
    SrcCoordinateCombiner.WaysMeet(Chain(cs));
  }

  /** The packaged version's coordinates equal the oriented concatenation whenever the first
      way joins the second at its last node, and whenever the ways do not form a chain. */
  lemma PackagedAgreesWithOriented(cs: seq<Way>)
    requires !Chainable(Chain(cs)) || (|cs| >= 2 && Link(Chain(cs), 0).value.end1 == Last)
    ensures PkgCompoundBrunnelWay.CombinedCoordinates(cs) == OrientedCoordinates(cs)
  {
    if |cs| >= 2 && Chainable(Chain(cs)) {
      PkgCoordinateCombiner.AgreesWhenFirstWayEndsAtJoin(Chain(cs));
    }
  }

  /** Where every way ends where the next one starts, plain concatenation and the oriented
      concatenation give the same polyline. */
  lemma NaiveAgreesWhenHeadToTail(cs: seq<Way>)
    requires |cs| >= 2 && HeadToTail(Chain(cs))
    ensures CombinedCoordinates(cs) == OrientedCoordinates(cs)
  {
    NaiveMatchesDirectional(Chain(cs));
    assert ChainCoords(Chain(cs)) == CoordLists(cs);
  }

  /** A later way stored against the travel direction is appended backwards: ways with nodes
      [10, 20] and [30, 20] give p1, p2, p2 and lose p3, where the oriented concatenation and
      the directional combiner of the packaged version give p1, p2, p3. */
  lemma ReversedWayRepeatsJoin()
    ensures var p1, p2, p3 := Position(0.0, 0.0, None), Position(0.0, 1.0, None), Position(0.0, 2.0, None);
      var w1 := Way([p1, p2], WayData(Some(1), [10, 20], map[], []), Bridge, true, NoFilter, None);
      var w2 := Way([p3, p2], WayData(Some(2), [30, 20], map[], []), Bridge, true, NoFilter, None);
      CombinedCoordinates([w1, w2]) == [p1, p2, p2]
      && OrientedCoordinates([w1, w2]) == [p1, p2, p3]
      && PkgCompoundBrunnelWay.CombinedCoordinates([w1, w2]) == [p1, p2, p3]
  {
    var p1, p2, p3 := Position(0.0, 0.0, None), Position(0.0, 1.0, None), Position(0.0, 2.0, None);
    NaiveRepeatsJoin(p1, p2, p3);
    OrientedReachesEnd(p1, p2, p3);
  }

  lemma NaiveRepeatsJoin(p1: Position, p2: Position, p3: Position)
    ensures var w1 := Way([p1, p2], WayData(Some(1), [10, 20], map[], []), Bridge, true, NoFilter, None);
      var w2 := Way([p3, p2], WayData(Some(2), [30, 20], map[], []), Bridge, true, NoFilter, None);
      CombinedCoordinates([w1, w2]) == [p1, p2, p2]
  {
    var w1 := Way([p1, p2], WayData(Some(1), [10, 20], map[], []), Bridge, true, NoFilter, None);
    var w2 := Way([p3, p2], WayData(Some(2), [30, 20], map[], []), Bridge, true, NoFilter, None);
    assert CoordLists([w1, w2]) == [[p1, p2], [p3, p2]];
    assert GlueRest([[p3, p2]]) == [p2];
  }

  lemma OrientedReachesEnd(p1: Position, p2: Position, p3: Position)
    ensures var w1 := Way([p1, p2], WayData(Some(1), [10, 20], map[], []), Bridge, true, NoFilter, None);
      var w2 := Way([p3, p2], WayData(Some(2), [30, 20], map[], []), Bridge, true, NoFilter, None);
      OrientedCoordinates([w1, w2]) == [p1, p2, p3] && PkgCompoundBrunnelWay.CombinedCoordinates([w1, w2]) == [p1, p2, p3]
  {
    var w1 := Way([p1, p2], WayData(Some(1), [10, 20], map[], []), Bridge, true, NoFilter, None);
    var w2 := Way([p3, p2], WayData(Some(2), [30, 20], map[], []), Bridge, true, NoFilter, None);
    JoinAtBothEnds(p1, p2, p3);
    var comps := Chain([w1, w2]);
    assert SrcCoordinateCombiner.Directions(comps) == [Forward, Reverse];
    assert PkgCoordinateCombiner.DetermineDirections(Analyze(comps).value) == [Forward, Reverse];
    assert Reversed([p3, p2]) == [p2, p3];
    var oriented := OrientedCoords(comps, [Forward, Reverse]);
    assert oriented == [[p1, p2], [p2, p3]];
    assert GlueRest([[p2, p3]]) == [p3];
  }

  /** Ways with nodes [10, 20] and [30, 20] form a chain joined by the last node of each. */
  lemma JoinAtBothEnds(p1: Position, p2: Position, p3: Position)
    ensures var w1 := Way([p1, p2], WayData(Some(1), [10, 20], map[], []), Bridge, true, NoFilter, None);
      var w2 := Way([p3, p2], WayData(Some(2), [30, 20], map[], []), Bridge, true, NoFilter, None);
      var comps := Chain([w1, w2]);
      && comps == [Component([10, 20], [p1, p2]), Component([30, 20], [p3, p2])]
      && Chainable(comps) && Analyze(comps) == Ok([Connection(20, Last, Last)])
  {
    var comps := [Component([10, 20], [p1, p2]), Component([30, 20], [p3, p2])];
    assert NodeSet([10, 20]) * NodeSet([30, 20]) == {20};
    assert Link(comps, 0) == Some(Connection(20, Last, Last));
    AnalyzeTwo(comps, Connection(20, Last, Last));
  }

  // ---------------------------------------------------------------------------------------
  // Metadata

  /** The merged tags of the components and the conflicts recorded while merging them. */
  datatype MergedTags = MergedTags(tags: Tags, conflicts: map<string, seq<string>>)

  /** A later component disagrees with the value already kept for key k. */
  predicate Clash(m: MergedTags, t: Tags, k: string)
  {
    k in m.tags && k in t && t[k] != m.tags[k]
  }

  /** The inner loop over one component's tags. Every key is handled on its own and touches
      only its own entries, so the order in which the component's keys are visited does not
      matter: a new key is kept, and a differing value is appended to the key's conflict list,
      which starts with the kept value. */
  function MergeComponent(m: MergedTags, t: Tags): (r: MergedTags)
  {
    var tags := map k | k in m.tags.Keys + t.Keys :: if k in m.tags then m.tags[k] else t[k];
    var clashes := set k | k in t.Keys && Clash(m, t, k);
    var conflicts := map k | k in m.conflicts.Keys + clashes ::
      if Clash(m, t, k) then (if k in m.conflicts then m.conflicts[k] else [m.tags[k]]) + [t[k]]
      else m.conflicts[k];
    MergedTags(tags, conflicts)
  }

  /** The outer loop over the components' tag maps, in component order. */
  function MergeAll(ts: seq<Tags>): MergedTags
  {
    if |ts| == 0 then MergedTags(map[], map[])
    else MergeComponent(MergeAll(ts[..|ts| - 1]), ts[|ts| - 1])
  }

  /** `metadata.get("tags", {})` of each component. */
  function TagLists(cs: seq<Way>): (ts: seq<Tags>)
    ensures |ts| == |cs| && forall k :: 0 <= k < |cs| ==> ts[k] == cs[k].data.tags
  {
    seq(|cs|, k requires 0 <= k < |cs| => cs[k].data.tags)
  }

  /** Reference: the value of key k in the first tag map that has it. */
  function FirstValue(ts: seq<Tags>, k: string): (v: Option<string>)
    ensures v.Some? <==> exists i :: 0 <= i < |ts| && k in ts[i]
    ensures v.Some? ==> exists i :: 0 <= i < |ts| && k in ts[i] && ts[i][k] == v.value
                                   && forall j :: 0 <= j < i ==> k !in ts[j]
  {
    if |ts| == 0 then None
    else if k in ts[0] then Some(ts[0][k])
    else
      var v := FirstValue(ts[1..], k);
      assert (exists i :: 0 <= i < |ts| && k in ts[i]) ==> exists i :: 0 <= i < |ts[1..]| && k in ts[1..][i] by {
        if exists i :: 0 <= i < |ts| && k in ts[i] {
          var i :| 0 <= i < |ts| && k in ts[i];
          assert k in ts[1..][i - 1];
        }
      }
      assert v.Some? ==> exists i :: 0 <= i < |ts| && k in ts[i] && ts[i][k] == v.value
                                   && forall j :: 0 <= j < i ==> k !in ts[j] by {
        if v.Some? {
          var i :| 0 <= i < |ts[1..]| && k in ts[1..][i] && ts[1..][i][k] == v.value
                   && forall j :: 0 <= j < i ==> k !in ts[1..][j];
          assert forall j :: 0 <= j < i + 1 ==> k !in ts[j] by {
            forall j | 0 <= j < i + 1 ensures k !in ts[j] {
              if j > 0 {
                assert ts[j] == ts[1..][j - 1];
              }
            }
          }
        }
      }
      v
  }

  /** Reference: the values of key k that differ from v, in component order. */
  function Differing(ts: seq<Tags>, k: string, v: string): (d: seq<string>)
    ensures forall x :: x in d ==> x != v
  {
    if |ts| == 0 then []
    else (if k in ts[0] && ts[0][k] != v then [ts[0][k]] else []) + Differing(ts[1..], k, v)
  }

  lemma {:induction false} FirstValueAppend(ts: seq<Tags>, t: Tags, k: string)
    ensures FirstValue(ts + [t], k) ==
      if FirstValue(ts, k).Some? then FirstValue(ts, k) else if k in t then Some(t[k]) else None
    decreases |ts|
  {
    if |ts| == 0 {
      assert ts + [t] == [t];
    } else {
      assert (ts + [t])[1..] == ts[1..] + [t];
      FirstValueAppend(ts[1..], t, k);
    }
  }

  lemma {:induction false} DifferingAppend(ts: seq<Tags>, t: Tags, k: string, v: string)
    ensures Differing(ts + [t], k, v) ==
      Differing(ts, k, v) + (if k in t && t[k] != v then [t[k]] else [])
    decreases |ts|
  {
    if |ts| == 0 {
      assert ts + [t] == [t];
    } else {
      assert (ts + [t])[1..] == ts[1..] + [t];
      DifferingAppend(ts[1..], t, k, v);
    }
  }

  /** Where no tag map has key k, nothing differs on it. */
  lemma {:induction false} DifferingAbsent(ts: seq<Tags>, k: string, v: string)
    requires forall i :: 0 <= i < |ts| ==> k !in ts[i]
    ensures Differing(ts, k, v) == []
    decreases |ts|
  {
    if |ts| > 0 {
      DifferingAbsent(ts[1..], k, v);
    }
  }

  /** What the merge keeps for key k: the first value, and a conflict list exactly when a later
      value differs, holding the kept value followed by every differing value in order. */
  ghost predicate MergedKey(m: MergedTags, ts: seq<Tags>, k: string)
  {
    && (k in m.tags <==> FirstValue(ts, k).Some?)
    && (k in m.tags ==> m.tags[k] == FirstValue(ts, k).value)
    && (k in m.conflicts <==> FirstValue(ts, k).Some? && |Differing(ts, k, FirstValue(ts, k).value)| > 0)
    && (k in m.conflicts ==> m.conflicts[k] == [FirstValue(ts, k).value] + Differing(ts, k, FirstValue(ts, k).value))
  }

  /** One more component keeps the characterisation of every key. */
  lemma MergeComponentKey(m: MergedTags, ts: seq<Tags>, t: Tags, k: string)
    requires MergedKey(m, ts, k)
    ensures MergedKey(MergeComponent(m, t), ts + [t], k)
  {
    FirstValueAppend(ts, t, k);
    var fv := FirstValue(ts, k);
    if fv.Some? {
      DifferingAppend(ts, t, k, fv.value);
    } else {
      assert forall i :: 0 <= i < |ts| ==> k !in ts[i];
      if k in t {
        DifferingAppend(ts, t, k, t[k]);
        DifferingAbsent(ts, k, t[k]);
      }
    }
  }

  /** The tag merge of `_compute_combined_metadata`: a key is kept iff some component has it,
      with the value of the first component that has it; `tag_conflicts[k]` exists iff a later
      component has a different value for k, and lists the kept value followed by each
      differing value in component order. */
  lemma {:induction false} MergeAllCharacterization(ts: seq<Tags>)
    ensures forall k :: MergedKey(MergeAll(ts), ts, k)
    decreases |ts|
  {
    if |ts| > 0 {
      var init := ts[..|ts| - 1];
      MergeAllCharacterization(init);
      assert init + [ts[|ts| - 1]] == ts;
      forall k ensures MergedKey(MergeAll(ts), ts, k) {
        MergeComponentKey(MergeAll(init), init, ts[|ts| - 1], k);
      }
    }
  }

  /** The merged tags of a compound: the union of the component keys, the first component's
      value winning. */
  lemma MergedTagsOfComponents(cs: seq<Way>)
    ensures var m := MergeAll(TagLists(cs));
      && (forall k :: k in m.tags <==> exists i :: 0 <= i < |cs| && k in cs[i].data.tags)
      && (forall k :: k in m.tags ==>
            exists i :: 0 <= i < |cs| && k in cs[i].data.tags && m.tags[k] == cs[i].data.tags[k]
                        && forall j :: 0 <= j < i ==> k !in cs[j].data.tags)
  {
    var ts := TagLists(cs);
    var m := MergeAll(ts);
    MergeAllCharacterization(ts);
    forall k
      ensures k in m.tags <==> exists i :: 0 <= i < |cs| && k in cs[i].data.tags
      ensures k in m.tags ==>
            exists i :: 0 <= i < |cs| && k in cs[i].data.tags && m.tags[k] == cs[i].data.tags[k]
                        && forall j :: 0 <= j < i ==> k !in cs[j].data.tags
    {
      assert MergedKey(m, ts, k);
    }
  }

  /** The summary fields of `_compute_combined_metadata`. */
  datatype CombinedMetadata = CombinedMetadata(
    id: string,
    componentCount: nat,
    totalLength: real,
    merged: MergedTags)

  /** `_compute_combined_metadata`: the ids joined by ';' (each `str(id)`, or "unknown"), the
      number of components, the summed span lengths and the merged tags with their conflicts. */
  function Metadata(cs: seq<Way>): (m: CombinedMetadata)
    ensures |cs| > 0 ==> Text.Split(m.id, ';') == ComponentIds(cs)
    ensures m.componentCount == |cs|
    ensures (forall k :: 0 <= k < |cs| ==> cs[k].span.None?) ==> m.totalLength == 0.0
    ensures m.totalLength == TotalLength(cs)
    ensures forall k :: MergedKey(m.merged, TagLists(cs), k)
  {
    MergeAllCharacterization(TagLists(cs));
    CombinedMetadata(CombinedId(cs), |cs|, TotalLength(cs), MergeAll(TagLists(cs)))
  }

  // ---------------------------------------------------------------------------------------
  // Grouping and the list rewrite

  /** `_brunnels_share_node`: false when either node list is empty, otherwise whether the two
      node sets intersect. */
  function BrunnelsShareNode(a: Way, b: Way): (r: bool)
    ensures |a.data.nodes| == 0 || |b.data.nodes| == 0 ==> !r
    ensures r <==> exists n :: n in a.data.nodes && n in b.data.nodes
  {
    SharesNode(a.data.nodes, b.data.nodes)
  }

  lemma BrunnelsShareNodeSymmetric(a: Way, b: Way)
    ensures BrunnelsShareNode(a, b) == BrunnelsShareNode(b, a)
  {
  }

  /** `detect_adjacent_brunnels`: groups of at least two eligible brunnels of one type, each
      following the previous in route order and sharing a node with it, no brunnel twice, and
      every such neighbouring pair grouped; groups of one type in route order, those of the
      type of the first eligible brunnel before the others. */
  function DetectAdjacentBrunnels(ws: seq<Way>): (groups: seq<seq<nat>>)
    ensures GroupsSound(ws, groups) && GroupsComplete(ws, groups)
    ensures forall p, k :: 0 <= p < |groups| && 0 <= k < |groups[p]| - 1 ==>
      BrunnelsShareNode(ws[groups[p][k]], ws[groups[p][k + 1]])
    ensures |groups| > 0 ==> exists i, j :: 0 <= i < j < |ws| && Eligible(ws[i]) && Eligible(ws[j])
    ensures SameTypeInRouteOrder(ws, groups)
    ensures forall i: nat :: RouteFirst(ws, i) ==> TypeComesFirst(ws, groups, ws[i].btype)
  {
    GroupsNeedTwoEligible(ws);
    DetectAdjacentGroupsInRouteOrder(ws);
    forall i: nat | RouteFirst(ws, i)
      ensures TypeComesFirst(ws, DetectAdjacentGroups(ws), ws[i].btype)
    {
      DetectAdjacentGroupsFirstType(ws, i);
    }
    DetectAdjacentGroups(ws)
  }

  /** `create_compound_brunnels`: the detected groups become compounds, in group order, followed
      by every other brunnel in list order; with no group, a copy of the list. */
  function CreateCompoundBrunnels(ws: seq<Way>): (r: seq<Brunnel>)
    ensures AllInBounds(ws, DetectAdjacentBrunnels(ws))
    ensures CreatedShape(ws, DetectAdjacentBrunnels(ws), r)
    ensures |DetectAdjacentBrunnels(ws)| == 0 ==> r == seq(|ws|, q requires 0 <= q < |ws| => Single(q, ws[q]))
  {
    CreateFromDetected(ws, false);
    CreateWithoutGroups(ws, false);
    Create(ws, DetectAdjacentBrunnels(ws), false)
  }
}

