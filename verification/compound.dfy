/** Compound brunnels, shared by the two generations that build them
    (brunnels/compound_brunnel_way.py and compound_brunnel_way.py): construction checks,
    combined identity, length and name, and the replacement of groups of adjacent brunnels by
    compounds. The two constructors differ only in whether filtered components are refused
    (`checkReasons`). */
module CompoundCore {
  import opened Base
  import opened Seqs
  import opened Text
  import opened WayModel
  import opened WayChain
  import opened AdjacentGrouping
  import SrcCoordinateCombiner

  datatype CompoundWay = CompoundWay(
    components: seq<Way>,
    btype: BrunnelType,
    contained: bool,
    reason: FilterReason,
    span: Option<RouteSpan>)

  /** An entry of the list `create_from_brunnels` returns: a brunnel kept as it is, with its
      index in the input, or a compound with the input indices of its components. */
  datatype Brunnel =
    | Single(index: nat, way: Way)
    | Compound(members: seq<nat>, compound: CompoundWay)

  const NoComponentsMessage: string := "CompoundBrunnelWay must have at least one component"
  const MixedTypesMessage: string := "All components must be the same brunnel type"
  const FilteredComponentMessage: string := "All components must have FilterReason.NONE to be combined"
  const EmptyMinMessage: string := "min() arg is an empty sequence"

  predicate SameType(cs: seq<Way>)
  {
    forall k :: 0 <= k < |cs| ==> cs[k].btype == cs[0].btype
  }

  predicate AllUnfiltered(cs: seq<Way>)
  {
    forall k :: 0 <= k < |cs| ==> cs[k].reason == NoFilter
  }

  /** The constructor's validation: at least one component, all of one type and, when
      `checkReasons`, none filtered. The compound takes its components' type whatever type was
      passed. */
  function NewCompound(cs: seq<Way>, btype: BrunnelType, contained: bool, reason: FilterReason,
                       span: Option<RouteSpan>, checkReasons: bool): (r: Result<CompoundWay>)
    ensures r.Ok? <==> |cs| > 0 && SameType(cs) && (checkReasons ==> AllUnfiltered(cs))
    ensures |cs| == 0 ==> r == Err(ValueError(NoComponentsMessage))
    ensures |cs| > 0 && !SameType(cs) ==> r == Err(ValueError(MixedTypesMessage))
    ensures r.Err? ==> r.error.ValueError?
    ensures r.Ok? ==> r.value.components == cs && r.value.btype == cs[0].btype
    ensures r.Ok? ==> r.value.contained == contained && r.value.reason == reason && r.value.span == span
  {
    if |cs| == 0 then Err(ValueError(NoComponentsMessage))
    else if !SameType(cs) then Err(ValueError(MixedTypesMessage))
    else if checkReasons && !AllUnfiltered(cs) then Err(ValueError(FilteredComponentMessage))
    else Ok(CompoundWay(cs, cs[0].btype, contained, reason, span))
  }

  // ---------------------------------------------------------------------------------------
  // Identity, length and name

  /** The text ids of the components, in order. */
  function ComponentIds(cs: seq<Way>): (ids: seq<string>)
    ensures |ids| == |cs| && forall k :: 0 <= k < |cs| ==> ids[k] == IdString(cs[k].data.id)
  {
    if |cs| == 0 then [] else [IdString(cs[0].data.id)] + ComponentIds(cs[1..])
  }

  /** `combined["id"]`: the component ids joined by ';'. Splitting it at ';' gives the
      component ids back, one per component. */
  function CombinedId(cs: seq<Way>): (id: string)
    ensures |cs| > 0 ==> Split(id, ';') == ComponentIds(cs)
  {
    var ids := ComponentIds(cs);
    if |cs| > 0 then
      SplitJoin(ids, ';');
      Join(ids, ';')
    else Join(ids, ';')
  }

  /** The length a component adds to the total: its span's length, or nothing without a span. */
  function SpanLength(w: Way): real
  {
    if w.span.Some? then w.span.value.length else 0.0
  }

  /** `combined["total_length_km"]`: the sum of the span lengths of the components that
      have a span. With TotalLengthAppend, the singleton case determines the total of every
      list. */
  function TotalLength(cs: seq<Way>): (total: real)
    ensures |cs| == 1 ==> total == SpanLength(cs[0])
    ensures (forall k :: 0 <= k < |cs| ==> cs[k].span.None?) ==> total == 0.0
    ensures (forall k :: 0 <= k < |cs| && cs[k].span.Some? ==> cs[k].span.value.length >= 0.0) ==> total >= 0.0
  {
    if |cs| == 0 then 0.0
    else SpanLength(cs[0]) + TotalLength(cs[1..])
  }

  /** The total length of a list of components is the sum over any split of the list. */
  lemma {:induction false} TotalLengthAppend(a: seq<Way>, b: seq<Way>)
    ensures TotalLength(a + b) == TotalLength(a) + TotalLength(b)
    decreases |a|
  {
    if |a| > 0 {
      assert (a + b)[1..] == a[1..] + b;
      TotalLengthAppend(a[1..], b);
    } else {
      assert a + b == b;
    }
  }

  /** A component with a non-empty `name` tag. */
  predicate Named(w: Way)
  {
    "name" in w.data.tags && w.data.tags["name"] != ""
  }

  /** `get_primary_name`: the name of the first named component, or "unnamed". */
  method PrimaryName(cs: seq<Way>) returns (name: string)
    ensures (forall k :: 0 <= k < |cs| ==> !Named(cs[k])) ==> name == "unnamed"
    ensures (exists k :: 0 <= k < |cs| && Named(cs[k])) ==>
      exists k :: 0 <= k < |cs| && Named(cs[k]) && name == cs[k].data.tags["name"]
                  && forall j :: 0 <= j < k ==> !Named(cs[j])
  {
    var k := 0;
    while k < |cs|
      invariant 0 <= k <= |cs|
      invariant forall j :: 0 <= j < k ==> !Named(cs[j])
    {
      if Named(cs[k]) {
        return cs[k].data.tags["name"];
      }
      k := k + 1;
    }
    return "unnamed";
  }

  // ---------------------------------------------------------------------------------------
  // Coordinates

  /** The coordinate lists of the components. */
  function CoordLists(cs: seq<Way>): (r: seq<seq<Position>>)
    ensures |r| == |cs| && forall k :: 0 <= k < |cs| ==> r[k] == cs[k].coords
  {
    if |cs| == 0 then [] else [cs[0].coords] + CoordLists(cs[1..])
  }

  /** The components as the coordinate combiner sees them: node ids and coordinates. */
  function Chain(cs: seq<Way>): (r: seq<Component>)
    ensures |r| == |cs| && forall k :: 0 <= k < |cs| ==> r[k] == Component(cs[k].data.nodes, cs[k].coords)
  {
    seq(|cs|, k requires 0 <= k < |cs| => Component(cs[k].data.nodes, cs[k].coords))
  }

  /** The naive concatenation loop: all points of the first component, then every later
      component without its first point. */
  method NaiveCombine(cs: seq<Way>) returns (r: seq<Position>)
    ensures r == Glue(CoordLists(cs))
  {
    r := [];
    var i := 0;
    while i < |cs|
      invariant 0 <= i <= |cs|
      invariant r == Glue(CoordLists(cs[..i]))
    {
      assert CoordLists(cs[..i + 1]) == CoordLists(cs[..i]) + [cs[i].coords];
      GlueAppend(CoordLists(cs[..i]), cs[i].coords);
      if i == 0 {
        r := r + cs[i].coords;
      } else if |cs[i].coords| > 0 {
        r := r + cs[i].coords[1..];
      }
      i := i + 1;
    }
    assert cs[..|cs|] == cs;
  }

  /** Ways that each end where the next one starts. */
  predicate HeadToTail(comps: seq<Component>)
  {
    forall i :: 0 <= i < |comps| - 1 ==>
      Link(comps, i).Some? && Link(comps, i).value.end1 == Last && Link(comps, i).value.end2 == First
  }

  lemma {:induction false} PropagateForward(conns: seq<Connection>)
    requires forall i :: 0 <= i < |conns| ==> conns[i].end1 == Last && conns[i].end2 == First
    ensures forall i :: 0 <= i < |conns| + 1 ==> Propagate(Forward, conns)[i] == Forward
  {
    var ds := Propagate(Forward, conns);
    forall i | 0 <= i < |conns| + 1 ensures ds[i] == Forward {
      var k := 0;
      while k < i
        invariant 0 <= k <= i && ds[k] == Forward
      {
        k := k + 1;
      }
    }
  }

  lemma OrientForward(comps: seq<Component>, ds: seq<Direction>)
    requires |ds| == |comps| && forall i :: 0 <= i < |ds| ==> ds[i] == Forward
    ensures OrientedCoords(comps, ds) == seq(|comps|, i requires 0 <= i < |comps| => comps[i].coords)
  {
  }

  /** The coordinate lists of a chain of ways, unoriented. */
  function ChainCoords(comps: seq<Component>): (r: seq<seq<Position>>)
    ensures |r| == |comps| && forall i :: 0 <= i < |comps| ==> r[i] == comps[i].coords
  {
    seq(|comps|, i requires 0 <= i < |comps| => comps[i].coords)
  }

  /** When every way ends where the next one starts, the directional combiner keeps every
      way forward, so it returns the naive concatenation. */
  lemma NaiveMatchesDirectional(comps: seq<Component>)
    requires |comps| >= 2 && HeadToTail(comps)
    ensures Chainable(comps)
    ensures SrcCoordinateCombiner.CombineCoordinates(comps) == Ok(Glue(ChainCoords(comps)))
  {
    assert Chainable(comps);
    var conns := Analyze(comps).value;
    assert forall i :: 0 <= i < |conns| ==> Link(comps, i) == Some(conns[i]);
    PropagateForward(conns);
    var ds := SrcCoordinateCombiner.Directions(comps);
    assert SrcCoordinateCombiner.InitialDirection(conns[0]) == Forward;
    assert ds == Propagate(Forward, conns);
    OrientForward(comps, ds);
    SrcCoordinateCombiner.CombineShape(comps);
  }

  // ---------------------------------------------------------------------------------------
  // Route span of a compound

  /** The spans of the components that have one, in order. */
  function Spans(cs: seq<Way>): (r: seq<RouteSpan>)
    ensures forall k :: 0 <= k < |cs| && cs[k].span.Some? ==> cs[k].span.value in r
    ensures forall s :: s in r ==> exists k :: 0 <= k < |cs| && cs[k].span == Some(s)
  {
    if |cs| == 0 then []
    else
      var rest := Spans(cs[1..]);
      assert forall s :: s in rest ==> exists k :: 0 <= k < |cs| && cs[k].span == Some(s) by {
        forall s | s in rest ensures exists k :: 0 <= k < |cs| && cs[k].span == Some(s) {
          var k :| 0 <= k < |cs[1..]| && cs[1..][k].span == Some(s);
          assert cs[k + 1].span == Some(s);
        }
      }
      if cs[0].span.Some? then [cs[0].span.value] + rest else rest
  }

  function Starts(spans: seq<RouteSpan>): (r: seq<real>)
    ensures |r| == |spans| && forall i :: 0 <= i < |spans| ==> r[i] == spans[i].start
  {
    if |spans| == 0 then [] else [spans[0].start] + Starts(spans[1..])
  }

  function Ends(spans: seq<RouteSpan>): (r: seq<real>)
    ensures |r| == |spans| && forall i :: 0 <= i < |spans| ==> r[i] == spans[i].end
  {
    if |spans| == 0 then [] else [spans[0].end] + Ends(spans[1..])
  }

  /** The compound's span in `create_from_brunnels`: from the smallest start to the largest
      end among the components with a span; `min` of nothing fails (None). */
  function CompoundSpan(cs: seq<Way>): Option<RouteSpan>
  {
    var spans := Spans(cs);
    if |spans| == 0 then None
    else
      var lo, hi := MinOf(Starts(spans)), MaxOf(Ends(spans));
      Some(MakeRouteSpan(lo, hi, hi - lo))
  }

  /** The compound span exists exactly when some component has a span; it covers every
      component span, its start and end are a component's start and end, and its length is
      end minus start. */
  lemma CompoundSpanBounds(cs: seq<Way>)
    ensures CompoundSpan(cs).None? <==> forall k :: 0 <= k < |cs| ==> cs[k].span.None?
    ensures CompoundSpan(cs).Some? ==> forall k :: 0 <= k < |cs| && cs[k].span.Some? ==>
      CompoundSpan(cs).value.start <= cs[k].span.value.start && cs[k].span.value.end <= CompoundSpan(cs).value.end
    ensures CompoundSpan(cs).Some? ==>
      exists k :: 0 <= k < |cs| && cs[k].span.Some? && cs[k].span.value.start == CompoundSpan(cs).value.start
    ensures CompoundSpan(cs).Some? ==>
      exists k :: 0 <= k < |cs| && cs[k].span.Some? && cs[k].span.value.end == CompoundSpan(cs).value.end
    ensures CompoundSpan(cs).Some? ==> CompoundSpan(cs).value.length == CompoundSpan(cs).value.end - CompoundSpan(cs).value.start
  {
    var spans := Spans(cs);
    if |spans| > 0 {
      var r := CompoundSpan(cs).value;
      var starts, ends := Starts(spans), Ends(spans);
      forall k | 0 <= k < |cs| && cs[k].span.Some?
        ensures r.start <= cs[k].span.value.start && cs[k].span.value.end <= r.end
      {
        var i :| 0 <= i < |spans| && spans[i] == cs[k].span.value;
        assert starts[i] == cs[k].span.value.start && ends[i] == cs[k].span.value.end;
      }
      var i :| 0 <= i < |starts| && starts[i] == r.start;
      assert spans[i] in spans;
      var j :| 0 <= j < |ends| && ends[j] == r.end;
      assert spans[j] in spans;
    } else {
      assert forall k :: 0 <= k < |cs| ==> cs[k].span.None?;
    }
  }

  // ---------------------------------------------------------------------------------------
  // Replacing groups by compounds

  predicate InBounds(ws: seq<Way>, g: seq<nat>)
  {
    forall k :: 0 <= k < |g| ==> g[k] < |ws|
  }

  predicate AllInBounds(ws: seq<Way>, groups: seq<seq<nat>>)
  {
    forall p :: 0 <= p < |groups| ==> InBounds(ws, groups[p])
  }

  /** `[brunnels[i] for i in group_indices]` */
  function Components(ws: seq<Way>, g: seq<nat>): (cs: seq<Way>)
    requires InBounds(ws, g)
    ensures |cs| == |g| && forall k :: 0 <= k < |g| ==> cs[k] == ws[g[k]]
  {
    if |g| == 0 then [] else [ws[g[0]]] + Components(ws, g[1..])
  }

  /** The body of the `try`: the constructor, then the combined route span. */
  function Attempt(ws: seq<Way>, g: seq<nat>, checkReasons: bool): Result<CompoundWay>
    requires InBounds(ws, g) && |g| > 0
  {
    var cs := Components(ws, g);
    match NewCompound(cs, cs[0].btype, true, NoFilter, None, checkReasons)
    case Err(e) => Err(e)
    case Ok(c) =>
      match CompoundSpan(cs)
      case None => Err(ValueError(EmptyMinMessage))
      case Some(s) => Ok(c.(span := Some(s)))
  }

  /** The `except` branch: the group's brunnels one by one, skipping those already placed. */
  function Fallback(ws: seq<Way>, g: seq<nat>, processed: set<nat>): (r: (seq<Brunnel>, set<nat>))
    requires InBounds(ws, g)
  {
    if |g| == 0 then ([], processed)
    else if g[0] in processed then Fallback(ws, g[1..], processed)
    else
      var rest := Fallback(ws, g[1..], processed + {g[0]});
      ([Single(g[0], ws[g[0]])] + rest.0, rest.1)
  }

  /** One iteration of the loop over the groups. */
  function Step(ws: seq<Way>, g: seq<nat>, processed: set<nat>, checkReasons: bool): (seq<Brunnel>, set<nat>)
    requires InBounds(ws, g)
  {
    if |g| < 2 then ([], processed)
    else
      match Attempt(ws, g, checkReasons)
      case Ok(c) => ([Compound(g, c)], processed + set x | x in g)
      case Err(_) => Fallback(ws, g, processed)
  }

  /** The loop over the groups: the entries it appends and the indices it has placed. */
  function Build(ws: seq<Way>, groups: seq<seq<nat>>, processed: set<nat>, checkReasons: bool): (seq<Brunnel>, set<nat>)
    requires AllInBounds(ws, groups)
    decreases |groups|
  {
    if |groups| == 0 then ([], processed)
    else
      var step := Step(ws, groups[0], processed, checkReasons);
      var rest := Build(ws, groups[1..], step.1, checkReasons);
      (step.0 + rest.0, rest.1)
  }

  /** The brunnels from index i on that were not placed, in list order. */
  function Remaining(ws: seq<Way>, done: set<nat>, i: nat): (r: seq<Brunnel>)
    requires i <= |ws|
    ensures forall q :: 0 <= q < |r| ==> r[q].Single? && i <= r[q].index < |ws| && r[q].way == ws[r[q].index]
    ensures forall x :: x in Indices(r) <==> i <= x < |ws| && x !in done
    decreases |ws| - i
  {
    if i == |ws| then []
    else
      var rest := Remaining(ws, done, i + 1);
      if i in done then rest
      else
        IndicesCons(Single(i, ws[i]), rest);
        [Single(i, ws[i])] + rest
  }

  /** The unplaced brunnels keep their list order. */
  lemma {:induction false} RemainingInOrder(ws: seq<Way>, done: set<nat>, i: nat)
    requires i <= |ws|
    ensures IndicesAscending(Remaining(ws, done, i))
    decreases |ws| - i
  {
    if i < |ws| {
      RemainingInOrder(ws, done, i + 1);
      var rest := Remaining(ws, done, i + 1);
      if i !in done {
        var r := [Single(i, ws[i])] + rest;
        assert Remaining(ws, done, i) == r;
        forall a, b | 0 <= a < b < |r| ensures r[a].Single? && r[b].Single? && r[a].index < r[b].index {
          assert r[b] == rest[b - 1] && i + 1 <= rest[b - 1].index;
          if a > 0 {
            assert r[a] == rest[a - 1];
          }
        }
      } else {
        assert Remaining(ws, done, i) == rest;
      }
    }
  }

  /** Single brunnels listed by increasing index. */
  predicate IndicesAscending(r: seq<Brunnel>)
  {
    forall a, b :: 0 <= a < b < |r| ==> r[a].Single? && r[b].Single? && r[a].index < r[b].index
  }

  /** The unplaced brunnels are listed once each. */
  lemma {:induction false} RemainingNoDup(ws: seq<Way>, done: set<nat>, i: nat)
    requires i <= |ws|
    ensures NoDup(Indices(Remaining(ws, done, i)))
    decreases |ws| - i
  {
    if i < |ws| {
      RemainingNoDup(ws, done, i + 1);
      var rest := Remaining(ws, done, i + 1);
      if i !in done {
        IndicesCons(Single(i, ws[i]), rest);
        assert i !in Indices(rest);
        NoDupAppend([i], Indices(rest));
      }
    }
  }

  /** `create_from_brunnels` given the groups: the entries built from the groups, then the
      brunnels no group placed, in list order. */
  function Create(ws: seq<Way>, groups: seq<seq<nat>>, checkReasons: bool): seq<Brunnel>
    requires AllInBounds(ws, groups)
  {
    if |groups| == 0 then Remaining(ws, {}, 0)
    else
      var built := Build(ws, groups, {}, checkReasons);
      built.0 + Remaining(ws, built.1, 0)
  }

  /** With nothing placed, the brunnels from index i on are all kept, in list order. */
  lemma {:induction false} RemainingAll(ws: seq<Way>, i: nat)
    requires i <= |ws|
    ensures |Remaining(ws, {}, i)| == |ws| - i
    ensures forall q :: 0 <= q < |ws| - i ==> Remaining(ws, {}, i)[q] == Single(i + q, ws[i + q])
    decreases |ws| - i
  {
    if i < |ws| {
      RemainingAll(ws, i + 1);
      var tail := Remaining(ws, {}, i + 1);
      var r := Remaining(ws, {}, i);
      assert r == [Single(i, ws[i])] + tail;
      forall q | 1 <= q < |ws| - i ensures r[q] == Single(i + q, ws[i + q]) {
        assert r[q] == tail[q - 1];
      }
    }
  }

  /** Without groups, `create_from_brunnels` returns a new list of the same brunnels in the
      same order. */
  lemma CreateWithoutGroups(ws: seq<Way>, checkReasons: bool)
    ensures Create(ws, [], checkReasons) == seq(|ws|, q requires 0 <= q < |ws| => Single(q, ws[q]))
  {
    RemainingAll(ws, 0);
    var r := Create(ws, [], checkReasons);
    assert forall q :: 0 <= q < |ws| ==> r[q] == Single(q, ws[q]);
  }

  /** The input indices an entry stands for. */
  function EntryIndices(b: Brunnel): seq<nat>
  {
    match b
    case Single(i, _) => [i]
    case Compound(m, _) => m
  }

  function Indices(r: seq<Brunnel>): seq<nat>
  {
    if |r| == 0 then [] else EntryIndices(r[0]) + Indices(r[1..])
  }

  lemma IndicesCons(b: Brunnel, rest: seq<Brunnel>)
    ensures Indices([b] + rest) == EntryIndices(b) + Indices(rest)
  {
    assert ([b] + rest)[1..] == rest;
  }

  lemma {:induction false} IndicesAppend(a: seq<Brunnel>, b: seq<Brunnel>)
    ensures Indices(a + b) == Indices(a) + Indices(b)
    decreases |a|
  {
    if |a| == 0 {
      assert a + b == b;
    } else {
      assert (a + b)[1..] == a[1..] + b;
      IndicesAppend(a[1..], b);
    }
  }

  lemma {:induction false} FallbackFacts(ws: seq<Way>, g: seq<nat>, processed: set<nat>)
    requires InBounds(ws, g)
    ensures var r := Fallback(ws, g, processed);
      NoDup(Indices(r.0))
      && (forall x :: x in Indices(r.0) ==> x in g && x !in processed)
      && r.1 == processed + set x | x in Indices(r.0)
    decreases |g|
  {
    if |g| > 0 {
      FallbackFacts(ws, g[1..], if g[0] in processed then processed else processed + {g[0]});
      if g[0] !in processed {
        var rest := Fallback(ws, g[1..], processed + {g[0]});
        assert Indices([Single(g[0], ws[g[0]])] + rest.0) == [g[0]] + Indices(rest.0);
      }
    }
  }

  /** One loop iteration, for a group with no repeated index and none placed before:
      it places each of its entries' indices once, all from the group. */
  lemma StepFacts(ws: seq<Way>, g: seq<nat>, processed: set<nat>, checkReasons: bool)
    requires InBounds(ws, g) && NoDup(g)
    requires forall x :: x in g ==> x !in processed
    ensures var r := Step(ws, g, processed, checkReasons);
      NoDup(Indices(r.0))
      && (forall x :: x in Indices(r.0) ==> x in g && x !in processed)
      && r.1 == processed + set x | x in Indices(r.0)
  {
    if |g| >= 2 {
      if Attempt(ws, g, checkReasons).Ok? {
        var c := Attempt(ws, g, checkReasons).value;
        assert Indices([Compound(g, c)]) == g;
      } else {
        FallbackFacts(ws, g, processed);
      }
    }
  }

  lemma DisjointTail(groups: seq<seq<nat>>)
    requires |groups| > 0 && Disjoint(groups)
    ensures NoDup(groups[0]) && Disjoint(groups[1..])
    ensures forall p, x :: 0 <= p < |groups| - 1 && x in groups[1..][p] ==> x !in groups[0]
  {
    assert forall p :: 0 <= p < |groups| - 1 ==> groups[1..][p] == groups[p + 1];
  }

  /** The indices placed by the loop, for groups that share no index and were not placed
      before: no index is placed twice and the placed set grows by exactly them. */
  lemma {:induction false} BuildFacts(ws: seq<Way>, groups: seq<seq<nat>>, processed: set<nat>, checkReasons: bool)
    requires AllInBounds(ws, groups) && Disjoint(groups)
    requires forall p, x :: 0 <= p < |groups| && x in groups[p] ==> x !in processed
    ensures var r := Build(ws, groups, processed, checkReasons);
      NoDup(Indices(r.0))
      && (forall x :: x in Indices(r.0) ==> x < |ws| && x !in processed)
      && r.1 == processed + set x | x in Indices(r.0)
    decreases |groups|
  {
    if |groups| > 0 {
      var g := groups[0];
      DisjointTail(groups);
      StepFacts(ws, g, processed, checkReasons);
      var step := Step(ws, g, processed, checkReasons);
      assert forall p :: 0 <= p < |groups| - 1 ==> groups[1..][p] == groups[p + 1];
      BuildFacts(ws, groups[1..], step.1, checkReasons);
      var rest := Build(ws, groups[1..], step.1, checkReasons);
      IndicesAppend(step.0, rest.0);
      NoDupAppend(Indices(step.0), Indices(rest.0));
    }
  }

  /** For groups that share no index, `create_from_brunnels` places every input brunnel
      exactly once: each index below |ws| occurs once among the entries, whether its group
      became a compound or fell back to single brunnels. */
  lemma CreatePartition(ws: seq<Way>, groups: seq<seq<nat>>, checkReasons: bool)
    requires AllInBounds(ws, groups) && Disjoint(groups)
    ensures NoDup(Indices(Create(ws, groups, checkReasons)))
    ensures forall x :: x in Indices(Create(ws, groups, checkReasons)) <==> 0 <= x < |ws|
  {
    if |groups| == 0 {
      RemainingNoDup(ws, {}, 0);
    } else {
      BuildFacts(ws, groups, {}, checkReasons);
      var built := Build(ws, groups, {}, checkReasons);
      var tail := Remaining(ws, built.1, 0);
      IndicesAppend(built.0, tail);
      RemainingNoDup(ws, built.1, 0);
      NoDupAppend(Indices(built.0), Indices(tail));
      forall x: nat ensures x in Indices(built.0) + Indices(tail) <==> x < |ws| {
        if x < |ws| && x !in Indices(built.0) {
          assert x !in built.1;
        }
      }
    }
  }

  /** The compound a group of unfiltered, spanned brunnels of one type becomes. */
  function Assembled(ws: seq<Way>, g: seq<nat>): CompoundWay
    requires InBounds(ws, g) && |g| > 0
  {
    var cs := Components(ws, g);
    CompoundWay(cs, cs[0].btype, true, NoFilter, CompoundSpan(cs))
  }

  /** A group of at least two eligible brunnels of one type. */
  predicate Combinable(ws: seq<Way>, g: seq<nat>)
  {
    InBounds(ws, g) && |g| >= 2 &&
    forall k :: 0 <= k < |g| ==> Eligible(ws[g[k]]) && ws[g[k]].btype == ws[g[0]].btype
  }

  lemma AttemptSucceeds(ws: seq<Way>, g: seq<nat>, checkReasons: bool)
    requires Combinable(ws, g)
    ensures Attempt(ws, g, checkReasons) == Ok(Assembled(ws, g))
    ensures CompoundSpan(Components(ws, g)).Some?
  {
    var cs := Components(ws, g);
    assert SameType(cs) && AllUnfiltered(cs);
    var c := NewCompound(cs, cs[0].btype, true, NoFilter, None, checkReasons);
    assert c == Ok(CompoundWay(cs, cs[0].btype, true, NoFilter, None));
    CompoundSpanBounds(cs);
    assert cs[0].span.Some?;
  }

  /** Group g combines into the compound its brunnels assemble. */
  ghost predicate Succeeds(ws: seq<Way>, g: seq<nat>, checkReasons: bool)
  {
    InBounds(ws, g) && |g| >= 2 && Attempt(ws, g, checkReasons) == Ok(Assembled(ws, g))
  }

  /** Groups that all combine become compounds, in group order. */
  lemma {:induction false} BuildCombinable(ws: seq<Way>, groups: seq<seq<nat>>, processed: set<nat>, checkReasons: bool)
    requires forall p :: 0 <= p < |groups| ==> Succeeds(ws, groups[p], checkReasons)
    ensures AllInBounds(ws, groups)
    ensures forall p :: 0 <= p < |groups| ==> |groups[p]| > 0
    ensures |Build(ws, groups, processed, checkReasons).0| == |groups|
    ensures forall p :: 0 <= p < |groups| ==>
      Build(ws, groups, processed, checkReasons).0[p] == Compound(groups[p], Assembled(ws, groups[p]))
    decreases |groups|
  {
    if |groups| > 0 {
      var tail := groups[1..];
      assert forall p :: 0 <= p < |tail| ==> tail[p] == groups[p + 1];
      var step := Step(ws, groups[0], processed, checkReasons);
      var head := Compound(groups[0], Assembled(ws, groups[0]));
      BuildCombinable(ws, tail, step.1, checkReasons);
      var rest := Build(ws, tail, step.1, checkReasons).0;
      var all := Build(ws, groups, processed, checkReasons).0;
      BuildSucceedingHead(ws, groups, processed, checkReasons);
      ConsIndex(all, head, rest);
      forall p | 1 <= p < |groups| ensures all[p] == Compound(groups[p], Assembled(ws, groups[p])) {
        assert tail[p - 1] == groups[p];
      }
    }
  }

  /** Past its head, a list built by prepending one element is the list it was built from. */
  lemma ConsIndex<T>(all: seq<T>, head: T, rest: seq<T>)
    requires all == [head] + rest
    ensures |all| == |rest| + 1 && all[0] == head
    ensures forall p :: 1 <= p < |all| ==> all[p] == rest[p - 1]
  {
  }

  /** A first group that combines contributes its compound ahead of the rest of the loop. */
  lemma BuildSucceedingHead(ws: seq<Way>, groups: seq<seq<nat>>, processed: set<nat>, checkReasons: bool)
    requires |groups| > 0 && AllInBounds(ws, groups) && Succeeds(ws, groups[0], checkReasons)
    ensures Build(ws, groups, processed, checkReasons).0 ==
      [Compound(groups[0], Assembled(ws, groups[0]))] + Build(ws, groups[1..], Step(ws, groups[0], processed, checkReasons).1, checkReasons).0
  {
    assert Step(ws, groups[0], processed, checkReasons).0 == [Compound(groups[0], Assembled(ws, groups[0]))];
  }

  lemma DetectedCombinable(ws: seq<Way>)
    ensures forall p :: 0 <= p < |DetectAdjacentGroups(ws)| ==> Combinable(ws, DetectAdjacentGroups(ws)[p])
  {
  }

  /** Without groups the loop places nothing, so `Create` is always the loop's entries
      followed by the unplaced brunnels. */
  lemma CreateUnfolds(ws: seq<Way>, groups: seq<seq<nat>>, checkReasons: bool)
    requires AllInBounds(ws, groups)
    ensures Create(ws, groups, checkReasons) ==
      Build(ws, groups, {}, checkReasons).0 + Remaining(ws, Build(ws, groups, {}, checkReasons).1, 0)
  {
  }

  lemma AfterPrefixSingles(ws: seq<Way>, front: seq<Brunnel>, done: set<nat>)
    ensures forall q :: |front| <= q < |front + Remaining(ws, done, 0)| ==>
      var e := (front + Remaining(ws, done, 0))[q]; e.Single? && e.index < |ws| && e.way == ws[e.index]
    ensures forall q, q' :: |front| <= q < q' < |front + Remaining(ws, done, 0)| ==>
      (front + Remaining(ws, done, 0))[q].index < (front + Remaining(ws, done, 0))[q'].index
  {
    var tail := Remaining(ws, done, 0);
    assert forall q :: |front| <= q < |front + tail| ==> (front + tail)[q] == tail[q - |front|];
    RemainingInOrder(ws, done, 0);
  }

  /** For combinable groups, `create_from_brunnels` gives one compound per group, in group
      order, then single brunnels only. */
  lemma CreateCombinableShape(ws: seq<Way>, groups: seq<seq<nat>>, checkReasons: bool)
    requires forall p :: 0 <= p < |groups| ==> Combinable(ws, groups[p])
    ensures AllInBounds(ws, groups)
    ensures var r := Create(ws, groups, checkReasons);
      |groups| <= |r|
      && (forall p :: 0 <= p < |groups| ==> |groups[p]| > 0 && r[p] == Compound(groups[p], Assembled(ws, groups[p])))
      && (forall q :: |groups| <= q < |r| ==> r[q].Single? && r[q].index < |ws| && r[q].way == ws[r[q].index])
      && (forall q, q' :: |groups| <= q < q' < |r| ==> r[q].index < r[q'].index)
  {
    forall p | 0 <= p < |groups| ensures Succeeds(ws, groups[p], checkReasons) {
      AttemptSucceeds(ws, groups[p], checkReasons);
    }
    BuildCombinable(ws, groups, {}, checkReasons);
    CreateUnfolds(ws, groups, checkReasons);
    var built := Build(ws, groups, {}, checkReasons);
    AfterPrefixSingles(ws, built.0, built.1);
  }

  /** What `create_from_brunnels` yields for groups that all combine: one compound per group,
      in group order, each with a route span, then single brunnels only, and every brunnel
      index of `ws` exactly once. */
  ghost predicate CreatedShape(ws: seq<Way>, groups: seq<seq<nat>>, r: seq<Brunnel>)
  {
    && AllInBounds(ws, groups)
    && |groups| <= |r|
    && (forall p :: 0 <= p < |groups| ==>
          |groups[p]| > 0 && r[p] == Compound(groups[p], Assembled(ws, groups[p]))
          && CompoundSpan(Components(ws, groups[p])).Some?)
    && (forall q :: |groups| <= q < |r| ==> r[q].Single? && r[q].index < |ws| && r[q].way == ws[r[q].index])
    && (forall q, q' :: |groups| <= q < q' < |r| ==> r[q].index < r[q'].index)
    && NoDup(Indices(r))
    && (forall x :: x in Indices(r) <==> 0 <= x < |ws|)
  }

  lemma CreateFromCombinable(ws: seq<Way>, groups: seq<seq<nat>>, checkReasons: bool)
    requires forall p :: 0 <= p < |groups| ==> Combinable(ws, groups[p])
    requires Disjoint(groups)
    ensures AllInBounds(ws, groups)
    ensures CreatedShape(ws, groups, Create(ws, groups, checkReasons))
  {
    CreateCombinableShape(ws, groups, checkReasons);
    forall p | 0 <= p < |groups| ensures CompoundSpan(Components(ws, groups[p])).Some? {
      AttemptSucceeds(ws, groups[p], checkReasons);
    }
    CreatePartition(ws, groups, checkReasons);
  }

  /** `create_from_brunnels` on its own detected groups has the shape above. */
  lemma CreateFromDetected(ws: seq<Way>, checkReasons: bool)
    ensures AllInBounds(ws, DetectAdjacentGroups(ws))
    ensures CreatedShape(ws, DetectAdjacentGroups(ws), Create(ws, DetectAdjacentGroups(ws), checkReasons))
  {
    DetectedCombinable(ws);
    CreateFromCombinable(ws, DetectAdjacentGroups(ws), checkReasons);
  }
}
