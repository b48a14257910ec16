/** `Route.filter_overlapping_brunnels` of the current generation (src/brunnels/route.py): the
    representative brunnels that lie on the route and are still unfiltered are grouped by
    overlapping route spans, and every group keeps only its member nearest to the route. The
    grouping itself is the shared one of OverlapGrouping; here the candidates are chosen and the
    losers marked. Distances to the route (`average_distance_to_polyline`) are inputs, one per
    brunnel. */
module SrcRouteOverlap {
  import opened Base
  import opened Seqs
  import opened Graphs
  import opened OverlapGrouping
  import opened SrcBrunnel

  /** One test of the candidate comprehension, with Python's short-circuit `and`:
      `b.is_representative() and b.get_route_span() is not None and b.filter_reason == NONE`.
      An exception from either call ends the comprehension. */
  function Admit(bs: seq<Brunnel>, i: nat): (r: Result<bool>)
    requires i < |bs| && GroupsInRange(bs)
    ensures !IsCompound(bs[i]) ==> r == Ok(bs[i].span.Some? && bs[i].reason == NoFilter)
    ensures IsCompound(bs[i]) ==>
      var g := bs[i].group.value;
      r.Err? <==> i !in g || (g[0] == i && (bs[g[0]].span.None? || bs[g[|g| - 1]].span.None?))
    ensures IsCompound(bs[i]) && r.Ok? ==>
      var g := bs[i].group.value;
      (r.value <==> g[0] == i && bs[i].reason == NoFilter)
    ensures r == Ok(true) ==> bs[i].reason == NoFilter
  {
    match IsRepresentative(bs, i)
    case Err(e) => Err(e)
    case Ok(rep) =>
      if !rep then Ok(false)
      else
        match GetRouteSpan(bs, i)
        case Err(e) => Err(e)
        case Ok(span) => Ok(span.Some? && bs[i].reason == NoFilter)
  }

  /** Position i is the first from `from` on whose test raises. */
  predicate FailsFirst(bs: seq<Brunnel>, from: nat, i: nat)
    requires GroupsInRange(bs)
  {
    && from <= i < |bs|
    && Admit(bs, i).Err?
    && forall j :: from <= j < i ==> Admit(bs, j).Ok?
  }

  /** The candidate list of positions `from` onwards, in dictionary order, or the exception of
      the first test that raises. */
  function Candidates(bs: seq<Brunnel>, from: nat): (r: Result<seq<nat>>)
    requires from <= |bs| && GroupsInRange(bs)
    ensures r.Ok? <==> forall i :: from <= i < |bs| ==> Admit(bs, i).Ok?
    ensures r.Err? ==> exists i: nat :: FailsFirst(bs, from, i) && r.error == Admit(bs, i).error
    ensures r.Ok? ==> forall x :: x in r.value <==> from <= x < |bs| && Admit(bs, x) == Ok(true)
    ensures r.Ok? ==> forall k :: 0 <= k < |r.value| ==> from <= r.value[k] < |bs| && bs[r.value[k]].reason == NoFilter
    ensures r.Ok? ==> forall k, l :: 0 <= k < l < |r.value| ==> r.value[k] < r.value[l]
    decreases |bs| - from
  {
    if from == |bs| then Ok([])
    else
      match Admit(bs, from)
      case Err(e) => Err(e)
      case Ok(take) =>
        match Candidates(bs, from + 1)
        case Err(e) =>
          var i: nat :| FailsFirst(bs, from + 1, i) && e == Admit(bs, i).error;
          assert FailsFirst(bs, from, i);
          Err(e)
        case Ok(rest) =>
          var cs := if take then [from] + rest else rest;
          assert forall x :: x in cs <==> (x == from && take) || x in rest;
          Ok(cs)
  }

  /** Candidates a and b (positions in the candidate list) have overlapping spans. */
  function Overlapping(bs: seq<Brunnel>, cs: seq<nat>): Rel
  {
    (a: nat, b: nat) =>
      a < |cs| && b < |cs| && cs[a] < |bs| && cs[b] < |bs| && OverlapsWith(bs[cs[a]], bs[cs[b]])
  }

  lemma OverlappingSymmetric(bs: seq<Brunnel>, cs: seq<nat>)
    ensures Symmetric(Overlapping(bs, cs))
  {
    forall a: nat, b: nat ensures Overlapping(bs, cs)(a, b) == Overlapping(bs, cs)(b, a) {
      if a < |cs| && b < |cs| && cs[a] < |bs| && cs[b] < |bs| {
        OverlapsWithSymmetric(bs[cs[a]], bs[cs[b]]);
      }
    }
  }

  /** Candidate a is still unfiltered in `out`. */
  predicate Kept(out: seq<Brunnel>, cs: seq<nat>, a: nat)
  {
    a < |cs| && cs[a] < |out| && out[cs[a]].reason == NoFilter
  }

  /** Candidate a is strictly nearer to the route than candidate b. */
  predicate Nearer(dist: seq<Dist>, cs: seq<nat>, a: nat, b: nat)
  {
    a < |cs| && b < |cs| && cs[a] < |dist| && cs[b] < |dist| && Less(dist[cs[a]], dist[cs[b]])
  }

  /** Brunnel i is the candidate at some position of `demoted`. */
  predicate DemotedAt(cs: seq<nat>, demoted: set<nat>, i: nat)
  {
    exists k :: 0 <= k < |cs| && cs[k] == i && k in demoted
  }

  /** `brunnel.filter_reason = FilterReason.NOT_NEAREST` for every demoted candidate. */
  function Demote(bs: seq<Brunnel>, cs: seq<nat>, demoted: set<nat>): (out: seq<Brunnel>)
    ensures |out| == |bs|
    ensures forall i :: 0 <= i < |bs| ==> out[i] == bs[i].(reason := out[i].reason)
    ensures forall i :: 0 <= i < |bs| ==>
      out[i].reason == if DemotedAt(cs, demoted, i) then NotNearest else bs[i].reason
  {
    seq(|bs|, i requires 0 <= i < |bs| => if DemotedAt(cs, demoted, i) then bs[i].(reason := NotNearest) else bs[i])
  }

  /** Only filter reasons differ. */
  predicate OnlyReasonsChange(bs: seq<Brunnel>, out: seq<Brunnel>)
  {
    |out| == |bs| && forall i :: 0 <= i < |bs| ==> out[i] == bs[i].(reason := out[i].reason)
  }

  /** What the filter promises about the candidates: two candidates connected by a chain of
      overlaps are never both kept, every candidate is connected to a kept one, and a candidate
      strictly nearer than everything it is connected to is kept. No candidate is strictly nearer
      than a kept candidate it is connected to, so with ties a least-distance one is kept. */
  ghost predicate OnePerOverlapGroup(bs: seq<Brunnel>, cs: seq<nat>, dist: seq<Dist>, out: seq<Brunnel>)
  {
    var ov := Overlapping(bs, cs);
    && (forall a: nat, b: nat :: a != b && Reachable(ov, a, b) && Kept(out, cs, a) ==> !Kept(out, cs, b))
    && (forall a: nat :: a < |cs| ==> ReachesKept(ov, cs, out, a))
    && (forall a: nat :: a < |cs| && (forall b: nat :: b != a && Reachable(ov, a, b) ==> Nearer(dist, cs, a, b)) ==>
          Kept(out, cs, a))
    && (forall a: nat, b: nat :: a != b && Reachable(ov, a, b) && Kept(out, cs, a) ==> !Nearer(dist, cs, b, a))
  }

  /** Candidate a is joined by overlaps to a kept candidate (possibly itself). */
  ghost predicate ReachesKept(ov: Rel, cs: seq<nat>, out: seq<Brunnel>, a: nat)
  {
    exists b: nat :: Reachable(ov, a, b) && Kept(out, cs, b)
  }

  /** The filter over the brunnel list; `dist[i]` is brunnel i's average distance to the route
      and `routeEmpty` says the route has no track points. */
  method FilterOverlappingBrunnels(routeEmpty: bool, bs: seq<Brunnel>, dist: seq<Dist>) returns (r: Result<seq<Brunnel>>)
    requires GroupsInRange(bs) && |dist| == |bs|
    ensures routeEmpty || |bs| == 0 ==> r == Ok(bs)
    ensures r.Err? <==> !routeEmpty && Candidates(bs, 0).Err?
    ensures r.Err? ==> r.error == Candidates(bs, 0).error
    ensures r.Ok? ==> OnlyReasonsChange(bs, r.value)
    ensures r.Ok? ==> forall i :: 0 <= i < |bs| && r.value[i].reason != bs[i].reason ==>
      && r.value[i].reason == NotNearest
      && Candidates(bs, 0).Ok? && i in Candidates(bs, 0).value
    ensures !routeEmpty && r.Ok? && Candidates(bs, 0).Ok? ==>
      OnePerOverlapGroup(bs, Candidates(bs, 0).value, dist, r.value)
  {
    if routeEmpty {
      return Ok(bs);
    }
    var c := Candidates(bs, 0);
    if |bs| == 0 {
      Untouched(bs, c.value, dist);
      return Ok(bs);
    }
    if c.Err? {
      return Err(c.error);
    }
    var cs := c.value;
    if |cs| < 2 {
      Untouched(bs, cs, dist);
      return Ok(bs);
    }
    var ov := Overlapping(bs, cs);
    OverlappingSymmetric(bs, cs);
    var cdist := seq(|cs|, k requires 0 <= k < |cs| => dist[cs[k]]);
    var demoted := DemoteAllButNearest(ov, cdist);
    var out := Demote(bs, cs, demoted);
    KeptIffNotDemoted(bs, cs, demoted, out);
    OneSurvivorEach(bs, cs, dist, cdist, demoted, out);
    r := Ok(out);
  }

  /** With fewer than two candidates nothing is marked, and the promise holds of the input. */
  lemma Untouched(bs: seq<Brunnel>, cs: seq<nat>, dist: seq<Dist>)
    requires |cs| < 2
    requires forall k :: 0 <= k < |cs| ==> cs[k] < |bs| && bs[cs[k]].reason == NoFilter
    ensures OnePerOverlapGroup(bs, cs, dist, bs)
  {
    var ov := Overlapping(bs, cs);
    forall a: nat, b: nat | a != b && Reachable(ov, a, b) ensures false {
      ReachedFromEdge(ov, a, b);
      ReachedByEdge(ov, a, b);
    }
    forall a: nat | a < |cs| ensures ReachesKept(ov, cs, bs, a) {
      ReachRefl(ov, a);
      assert Kept(bs, cs, a);
    }
  }

  /** A candidate stays unfiltered exactly when its position is not demoted: candidates start
      unfiltered, and positions in the candidate list are distinct brunnels. */
  lemma KeptIffNotDemoted(bs: seq<Brunnel>, cs: seq<nat>, demoted: set<nat>, out: seq<Brunnel>)
    requires forall k :: 0 <= k < |cs| ==> cs[k] < |bs| && bs[cs[k]].reason == NoFilter
    requires forall k, l :: 0 <= k < l < |cs| ==> cs[k] < cs[l]
    requires out == Demote(bs, cs, demoted)
    ensures forall a :: 0 <= a < |cs| ==> (Kept(out, cs, a) <==> a !in demoted)
  {
    forall a | 0 <= a < |cs| ensures Kept(out, cs, a) <==> a !in demoted {
      if DemotedAt(cs, demoted, cs[a]) {
        var k :| 0 <= k < |cs| && cs[k] == cs[a] && k in demoted;
      } else {
        assert a !in demoted;
      }
    }
  }

  /** The group properties carried over from spared positions to kept candidates. */
  lemma OneSurvivorEach(bs: seq<Brunnel>, cs: seq<nat>, dist: seq<Dist>, cdist: seq<Dist>, demoted: set<nat>, out: seq<Brunnel>)
    requires |dist| == |bs| && forall k :: 0 <= k < |cs| ==> cs[k] < |bs|
    requires |cdist| == |cs| && forall k :: 0 <= k < |cs| ==> cdist[k] == dist[cs[k]]
    requires forall a: nat, b: nat :: a != b && Reachable(Overlapping(bs, cs), a, b) && a !in demoted ==> b in demoted
    requires forall a: nat :: a < |cs| ==> ReachesSpared(Overlapping(bs, cs), |cs|, demoted, a)
    requires forall a: nat :: a < |cs| && (forall b: nat :: b != a && Reachable(Overlapping(bs, cs), a, b) ==> b < |cs| && Less(cdist[a], cdist[b])) ==>
      a !in demoted
    requires forall a: nat, b: nat :: a < |cs| && a !in demoted && b != a && Reachable(Overlapping(bs, cs), a, b) ==>
      b < |cs| && !Less(cdist[b], cdist[a])
    requires |out| == |bs|
    requires forall a :: 0 <= a < |cs| ==> (Kept(out, cs, a) <==> a !in demoted)
    ensures OnePerOverlapGroup(bs, cs, dist, out)
  {
    var ov := Overlapping(bs, cs);
    forall a: nat | a < |cs| ensures ReachesKept(ov, cs, out, a) {
      assert ReachesSpared(ov, |cs|, demoted, a);
      var b: nat :| b < |cs| && Reachable(ov, a, b) && b !in demoted;
      assert Kept(out, cs, b);
    }
    forall a: nat | a < |cs| && (forall b: nat :: b != a && Reachable(ov, a, b) ==> Nearer(dist, cs, a, b))
      ensures Kept(out, cs, a)
    {
    }
    forall a: nat, b: nat | a != b && Reachable(ov, a, b) && Kept(out, cs, a) ensures !Nearer(dist, cs, b, a) {
      assert a !in demoted;
    }
  }
}
