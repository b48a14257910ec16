/** The overlap filter that two generations share line for line (src/brunnels/route.py and
    geometry_utils.py): candidates whose route spans overlap, directly or through other
    candidates, form a group, and only the group member nearest to the route survives.
    Candidates are numbered by their position in the candidate list. */
module OverlapGrouping {
  import opened Base
  import opened Seqs
  import opened Graphs

  /** An average distance to the route in kilometres, or Python's `float("inf")`. */
  datatype Dist = Finite(km: real) | Infinite

  /** Python's `<` on such distances. */
  predicate Less(a: Dist, b: Dist)
  {
    match (a, b)
    case (Finite(x), Finite(y)) => x < y
    case (Finite(_), Infinite) => true
    case (Infinite, _) => false
  }

  lemma LessIsStrictTotalOrder(a: Dist, b: Dist, c: Dist)
    ensures !Less(a, a)
    ensures Less(a, b) && Less(b, c) ==> Less(a, c)
    ensures Less(a, b) || Less(b, a) || a == b
  {
  }

  /** `calculate_brunnel_average_distance_to_route` / `average_distance_to_polyline`:
      `pointDists[k]` is the distance from the brunnel's k-th point to its closest route point,
      or None when computing it raised. The average is taken over the points that worked;
      infinity when there are none, the brunnel has no points or the route is empty. */
  function AverageDistance(routeEmpty: bool, pointDists: seq<Option<real>>): (d: Dist)
    ensures d.Finite? <==> !routeEmpty && |Valid(pointDists)| > 0
    ensures d.Finite? ==> d.km * (|Valid(pointDists)| as real) == Sum(Valid(pointDists))
    ensures d.Finite? ==> IsMean(d.km, Valid(pointDists))
  {
    var vs := Valid(pointDists);
    if |pointDists| == 0 || routeEmpty then Infinite
    else if |vs| == 0 then Infinite
    else
      DivTimes(Sum(vs), |vs| as real);
      Finite(Sum(vs) / (|vs| as real))
  }

  lemma DivTimes(s: real, n: real)
    requires n > 0.0
    ensures (s / n) * n == s
  {
  }

  /** `x` is the arithmetic mean of the non-empty list `vs`. */
  predicate IsMean(x: real, vs: seq<real>)
  {
    |vs| > 0 && x * (|vs| as real) == Sum(vs)
  }

  /** The distances that were computed, in point order. */
  function Valid(pointDists: seq<Option<real>>): (vs: seq<real>)
    ensures |vs| <= |pointDists|
    ensures forall x :: x in vs <==> Some(x) in pointDists
  {
    if |pointDists| == 0 then []
    else
      var rest := Valid(pointDists[1..]);
      assert forall o :: o in pointDists <==> o == pointDists[0] || o in pointDists[1..];
      match pointDists[0]
      case Some(x) => [x] + rest
      case None => rest
  }

  /** Some distance was computed exactly when some point has one. */
  lemma ValidNonEmpty(pointDists: seq<Option<real>>)
    ensures |Valid(pointDists)| > 0 <==> exists k :: 0 <= k < |pointDists| && pointDists[k].Some?
  {
    if k :| 0 <= k < |pointDists| && pointDists[k].Some? {
      assert Some(pointDists[k].value) in pointDists;
      assert pointDists[k].value in Valid(pointDists);
    }
    if |Valid(pointDists)| > 0 {
      assert Valid(pointDists)[0] in Valid(pointDists);
    }
  }

  /** The average lies between the least and the greatest computed distance, so it is never
      negative when distances are not. */
  lemma AverageWithinRange(routeEmpty: bool, pointDists: seq<Option<real>>, lo: real, hi: real)
    requires forall x :: Some(x) in pointDists ==> lo <= x <= hi
    ensures AverageDistance(routeEmpty, pointDists).Finite? ==>
      lo <= AverageDistance(routeEmpty, pointDists).km <= hi
  {
    var vs := Valid(pointDists);
    if AverageDistance(routeEmpty, pointDists).Finite? {
      SumBounds(vs, lo, hi);
      DivBounds(Sum(vs), |vs| as real, lo, hi);
    }
  }

  lemma DivBounds(s: real, n: real, lo: real, hi: real)
    requires n > 0.0 && lo * n <= s <= hi * n
    ensures lo <= s / n <= hi
  {
    var a := s / n;
    assert a * n == s;
    if a < lo {
      MulStrict(a, lo, n);
    }
    if hi < a {
      MulStrict(hi, a, n);
    }
  }

  lemma MulStrict(x: real, y: real, n: real)
    requires x < y && n > 0.0
    ensures x * n < y * n
  {
  }

  lemma {:induction false} SumBounds(xs: seq<real>, lo: real, hi: real)
    requires forall x :: x in xs ==> lo <= x <= hi
    ensures lo * (|xs| as real) <= Sum(xs) <= hi * (|xs| as real)
  {
    if |xs| > 0 {
      assert xs[0] in xs;
      assert forall x :: x in xs[1..] ==> x in xs;
      SumBounds(xs[1..], lo, hi);
    }
  }

  /** The position within group g of the member that `sort(key=distance)` puts first: the first
      member, in group order, whose distance no other member beats. */
  function Nearest(g: seq<nat>, dist: seq<Dist>): (p: nat)
    requires |g| > 0 && forall k :: 0 <= k < |g| ==> g[k] < |dist|
    ensures p < |g|
    ensures forall q :: 0 <= q < |g| ==> !Less(dist[g[q]], dist[g[p]])
    ensures forall q :: 0 <= q < p ==> Less(dist[g[p]], dist[g[q]])
  {
    if |g| == 1 then 0
    else
      var front := g[..|g| - 1];
      var p := Nearest(front, dist);
      if Less(dist[g[|g| - 1]], dist[g[p]]) then |g| - 1 else p
  }

  /** Some member of the group has a span that overlaps candidate j's (the inner `for` with
      its `break`). */
  predicate AnyOverlap(ov: Rel, group: seq<nat>, j: nat)
  {
    exists k :: 0 <= k < |group| && ov(group[k], j)
  }

  /** What the grouping loop promises about the groups it has built from the candidates it
      has processed: disjoint, duplicate-free groups of more than one candidate, each exactly
      the set its first member reaches; every processed candidate outside the groups overlaps
      nothing but itself. */
  ghost predicate GroupsOf(ov: Rel, groups: seq<seq<nat>>, processed: set<nat>)
  {
    && (forall k :: 0 <= k < |groups| ==> |groups[k]| > 1 && NoDup(groups[k]))
    && (forall k :: 0 <= k < |groups| ==> forall x :: x in groups[k] <==> Reachable(ov, groups[k][0], x))
    && (forall k, l, x :: 0 <= k < l < |groups| && x in groups[k] ==> x !in groups[l])
    && (forall k, x :: 0 <= k < |groups| && x in groups[k] ==> x in processed)
    && (forall x :: x in processed ==>
          (exists k :: 0 <= k < |groups| && x in groups[k]) || (forall y :: Reachable(ov, x, y) ==> y == x))
  }

  /** The grouping of `filter_overlapping_brunnels`: each candidate not yet processed starts a
      group, which grows by whole passes over the candidates, appending every unprocessed one
      that overlaps a member, until a pass adds nothing; groups of one are dropped. The groups
      are the connected components of the overlap graph that have more than one candidate. */
  method Groups(ov: Rel, m: nat) returns (groups: seq<seq<nat>>)
    requires Symmetric(ov) && forall x: nat, y: nat :: ov(x, y) ==> x < m && y < m
    ensures forall k :: 0 <= k < |groups| ==> |groups[k]| > 1 && NoDup(groups[k])
    ensures forall k :: 0 <= k < |groups| ==> forall x :: x in groups[k] <==> Reachable(ov, groups[k][0], x)
    ensures forall k, l, x :: 0 <= k < l < |groups| && x in groups[k] ==> x !in groups[l]
    ensures forall k, x :: 0 <= k < |groups| && x in groups[k] ==> exists y :: y != x && Reachable(ov, x, y)
    ensures forall x: nat, y: nat :: y != x && Reachable(ov, x, y) ==> exists k :: 0 <= k < |groups| && x in groups[k]
  {
    var processed: set<nat> := {};
    groups := [];
    var i := 0;
    while i < m
      invariant i <= m
      invariant forall x :: x in processed ==> x < m
      invariant forall x: nat :: x < i ==> x in processed
      invariant Closed(ov, processed)
      invariant GroupsOf(ov, groups, processed)
    {
      if i !in processed {
        var group, processed' := Grow(ov, m, i, processed);
        if |group| > 1 {
          AppendGroup(ov, groups, processed, group, processed');
          groups := groups + [group];
        } else {
          forall y | Reachable(ov, i, y) ensures y == i {
            assert y in group;
          }
          forall x | x in processed' ensures
            (exists k :: 0 <= k < |groups| && x in groups[k]) || (forall y :: Reachable(ov, x, y) ==> y == x)
          {
            if x !in processed {
              assert x in group;
            }
          }
        }
        processed := processed';
      }
      i := i + 1;
    }
    GroupsFinished(ov, m, groups, processed);
  }

  /** Once every candidate is processed, the groups hold exactly the candidates that reach
      another one. */
  lemma GroupsFinished(ov: Rel, m: nat, groups: seq<seq<nat>>, processed: set<nat>)
    requires Symmetric(ov) && forall x: nat, y: nat :: ov(x, y) ==> x < m && y < m
    requires GroupsOf(ov, groups, processed) && forall x: nat :: x < m ==> x in processed
    ensures forall k, x :: 0 <= k < |groups| && x in groups[k] ==> exists y :: y != x && Reachable(ov, x, y)
    ensures forall x: nat, y: nat :: y != x && Reachable(ov, x, y) ==> exists k :: 0 <= k < |groups| && x in groups[k]
  {
    forall k, x | 0 <= k < |groups| && x in groups[k] ensures exists y :: y != x && Reachable(ov, x, y) {
      var g := groups[k];
      var y := if g[0] == x then g[1] else g[0];
      assert y in g && y != x;
      ReachSym(ov, g[0], x);
      ReachTrans(ov, x, g[0], y);
    }
    forall x: nat, y: nat | y != x && Reachable(ov, x, y) ensures exists k :: 0 <= k < |groups| && x in groups[k] {
      ReachedFromEdge(ov, x, y);
      var v :| ov(x, v);
      assert x in processed;
    }
  }

  lemma AppendGroup(ov: Rel, groups: seq<seq<nat>>, processed: set<nat>, group: seq<nat>, processed': set<nat>)
    requires Symmetric(ov)
    requires GroupsOf(ov, groups, processed)
    requires |group| > 1 && NoDup(group)
    requires forall x :: x in group <==> Reachable(ov, group[0], x)
    requires processed' == processed + set x | x in group
    requires forall x :: x in group ==> x !in processed
    ensures GroupsOf(ov, groups + [group], processed')
  {
    var gs := groups + [group];
    assert forall k :: 0 <= k < |groups| ==> gs[k] == groups[k];
    forall x | x in processed' ensures
      (exists k :: 0 <= k < |gs| && x in gs[k]) || (forall y :: Reachable(ov, x, y) ==> y == x)
    {
      if x !in processed {
        assert x in gs[|groups|];
      } else if exists k :: 0 <= k < |groups| && x in groups[k] {
        var k :| 0 <= k < |groups| && x in groups[k];
        assert x in gs[k];
      }
    }
  }

  /** One group: starting from candidate i, passes over all candidates append the unprocessed
      ones that overlap a member, until a pass appends nothing. */
  method Grow(ov: Rel, m: nat, i: nat, processed0: set<nat>) returns (group: seq<nat>, processed: set<nat>)
    requires Symmetric(ov) && forall x: nat, y: nat :: ov(x, y) ==> x < m && y < m
    requires i < m && i !in processed0 && Closed(ov, processed0)
    requires forall x :: x in processed0 ==> x < m
    ensures |group| > 0 && group[0] == i && NoDup(group)
    ensures processed == processed0 + set x | x in group
    ensures forall x :: x in group ==> x !in processed0 && x < m
    ensures Closed(ov, processed)
    ensures forall x :: x in group <==> Reachable(ov, i, x)
  {
    ReachRefl(ov, i);
    group := [i];
    processed := processed0 + {i};
    var changed := true;
    while changed
      invariant |group| > 0 && group[0] == i && NoDup(group)
      invariant processed == processed0 + set x | x in group
      invariant forall x :: x in group ==> x !in processed0 && x < m && Reachable(ov, i, x)
      invariant !changed ==> forall j: nat :: j < m && j !in processed ==> !AnyOverlap(ov, group, j)
      decreases Below(m) - processed, changed
    {
      changed := false;
      var j := 0;
      ghost var before := processed;
      while j < m
        invariant j <= m
        invariant |group| > 0 && group[0] == i && NoDup(group)
        invariant processed == processed0 + set x | x in group
        invariant forall x :: x in group ==> x !in processed0 && x < m && Reachable(ov, i, x)
        invariant before <= processed
        invariant changed ==> processed != before
        invariant !changed ==> processed == before
        invariant !changed ==> forall j': nat :: j' < j && j' !in processed ==> !AnyOverlap(ov, group, j')
      {
        if j !in processed && AnyOverlap(ov, group, j) {
          var k :| 0 <= k < |group| && ov(group[k], j);
          ReachStep(ov, i, group[k], j);
          NoDupAppend(group, [j]);
          group := group + [j];
          processed := processed + {j};
          changed := true;
        }
        j := j + 1;
      }
    }
    GrowFinished(ov, m, i, processed0, group, processed);
  }

  /** When a pass appends nothing, the processed set is closed and the group is everything
      the start reaches. */
  lemma GrowFinished(ov: Rel, m: nat, i: nat, processed0: set<nat>, group: seq<nat>, processed: set<nat>)
    requires Symmetric(ov) && forall x: nat, y: nat :: ov(x, y) ==> x < m && y < m
    requires Closed(ov, processed0) && |group| > 0 && group[0] == i
    requires processed == processed0 + set x | x in group
    requires forall x :: x in group ==> x !in processed0
    requires forall j: nat :: j < m && j !in processed ==> !AnyOverlap(ov, group, j)
    ensures Closed(ov, processed)
    ensures forall x :: Reachable(ov, i, x) ==> x in group
  {
    forall x: nat, y: nat | x in processed && ov(x, y) ensures y in processed {
      if x in processed0 {
        assert y in processed0;
      } else {
        assert x in group;
        var k :| 0 <= k < |group| && group[k] == x;
        assert AnyOverlap(ov, group, y);
      }
    }
    forall x | Reachable(ov, i, x) ensures x in group {
      var c := set x | x in group;
      forall a: nat, b: nat | a in c && ov(a, b) ensures b in c {
        assert a in processed && ov(b, a);
      }
      ClosedReach(ov, c, i, x);
    }
  }

  /** The candidates a group loses: every member but the nearest. */
  function Losers(g: seq<nat>, dist: seq<Dist>): (r: set<nat>)
    requires |g| > 0 && forall k :: 0 <= k < |g| ==> g[k] < |dist|
    ensures forall x :: x in r <==> x in g && x != g[Nearest(g, dist)]
  {
    set x | x in g && x != g[Nearest(g, dist)]
  }

  /** The candidates the filter marks NOT_NEAREST: the losers of every group. */
  function Demoted(groups: seq<seq<nat>>, dist: seq<Dist>): (r: set<nat>)
    requires forall k :: 0 <= k < |groups| ==> |groups[k]| > 0
    requires forall k, q :: 0 <= k < |groups| && 0 <= q < |groups[k]| ==> groups[k][q] < |dist|
    ensures forall x :: x in r <==> exists k :: 0 <= k < |groups| && x in Losers(groups[k], dist)
  {
    if |groups| == 0 then {}
    else
      var rest := Demoted(groups[1..], dist);
      assert forall k :: 1 <= k < |groups| ==> groups[k] == groups[1..][k - 1];
      Losers(groups[0], dist) + rest
  }

  /** Every group keeps exactly one member, and a member whose distance is strictly smaller than
      every other member's is the one kept. */
  lemma OneSurvivorPerGroup(groups: seq<seq<nat>>, dist: seq<Dist>, k: nat)
    requires forall k :: 0 <= k < |groups| ==> |groups[k]| > 1 && NoDup(groups[k])
    requires forall k, l, x :: 0 <= k < l < |groups| && x in groups[k] ==> x !in groups[l]
    requires forall k, q :: 0 <= k < |groups| && 0 <= q < |groups[k]| ==> groups[k][q] < |dist|
    requires k < |groups|
    ensures exists x :: x in groups[k] && x !in Demoted(groups, dist)
    ensures forall x, y :: (x in groups[k] && y in groups[k] && x != y &&
      x !in Demoted(groups, dist) && y !in Demoted(groups, dist)) ==> false
    ensures forall x :: x in groups[k] && (forall y :: y in groups[k] && y != x ==> Less(dist[x], dist[y])) ==>
      x !in Demoted(groups, dist)
  {
    var g := groups[k];
    var p := Nearest(g, dist);
    assert g[p] in g;
    forall l | 0 <= l < |groups| ensures g[p] !in Losers(groups[l], dist) {
      if l != k {
        assert g[p] !in groups[l];
      }
    }
    forall x | x in g && (forall y :: y in g && y != x ==> Less(dist[x], dist[y])) ensures x == g[p] {
      var q :| 0 <= q < |g| && g[q] == x;
      assert !Less(dist[g[q]], dist[g[p]]);
    }
  }

  /** What `Groups` promises about the groups of the candidate positions below m. */
  ghost predicate GroupedBy(ov: Rel, m: nat, groups: seq<seq<nat>>)
  {
    && (forall k :: 0 <= k < |groups| ==> |groups[k]| > 1 && NoDup(groups[k]))
    && (forall k :: 0 <= k < |groups| ==> forall x :: x in groups[k] <==> Reachable(ov, groups[k][0], x))
    && (forall k, l, x :: 0 <= k < l < |groups| && x in groups[k] ==> x !in groups[l])
    && (forall x: nat, y: nat :: y != x && Reachable(ov, x, y) ==> exists k :: 0 <= k < |groups| && x in groups[k])
    && (forall k, q :: 0 <= k < |groups| && 0 <= q < |groups[k]| ==> groups[k][q] < m)
  }

  /** Two positions joined by overlaps are never both spared. */
  lemma NoTwoSpared(ov: Rel, m: nat, groups: seq<seq<nat>>, cdist: seq<Dist>, demoted: set<nat>)
    requires Symmetric(ov) && GroupedBy(ov, m, groups) && |cdist| == m
    requires demoted == Demoted(groups, cdist)
    ensures forall a: nat, b: nat :: a != b && Reachable(ov, a, b) && a !in demoted ==> b in demoted
  {
    forall a: nat, b: nat | a != b && Reachable(ov, a, b) && a !in demoted ensures b in demoted {
      var k :| 0 <= k < |groups| && a in groups[k];
      ReachTrans(ov, groups[k][0], a, b);
      OneSurvivorPerGroup(groups, cdist, k);
    }
  }

  /** Every position is joined by overlaps to a spared one. */
  lemma SomeSpared(ov: Rel, m: nat, groups: seq<seq<nat>>, cdist: seq<Dist>, demoted: set<nat>, a: nat)
    requires Symmetric(ov) && GroupedBy(ov, m, groups) && |cdist| == m
    requires demoted == Demoted(groups, cdist) && a < m
    ensures exists b: nat :: b < m && Reachable(ov, a, b) && b !in demoted
  {
    if exists k :: 0 <= k < |groups| && a in groups[k] {
      var k :| 0 <= k < |groups| && a in groups[k];
      var g := groups[k];
      OneSurvivorPerGroup(groups, cdist, k);
      var x :| x in g && x !in demoted;
      ReachSym(ov, g[0], a);
      ReachTrans(ov, a, g[0], x);
    } else {
      ReachRefl(ov, a);
    }
  }

  /** A position strictly nearer than every position it is joined to is spared. */
  lemma NearestSpared(ov: Rel, m: nat, groups: seq<seq<nat>>, cdist: seq<Dist>, demoted: set<nat>, a: nat)
    requires Symmetric(ov) && GroupedBy(ov, m, groups) && |cdist| == m
    requires demoted == Demoted(groups, cdist) && a < m
    requires forall b: nat :: b != a && Reachable(ov, a, b) ==> b < m && Less(cdist[a], cdist[b])
    ensures a !in demoted
  {
    if exists k :: 0 <= k < |groups| && a in groups[k] {
      var k :| 0 <= k < |groups| && a in groups[k];
      var g := groups[k];
      forall y | y in g && y != a ensures Less(cdist[a], cdist[y]) {
        ReachSym(ov, g[0], a);
        ReachTrans(ov, a, g[0], y);
      }
      OneSurvivorPerGroup(groups, cdist, k);
    }
  }

  /** A spared position is no farther than any position it is joined to: the stable sort by
      distance puts a least-distance member first, whatever the ties. */
  lemma SparedIsNearest(ov: Rel, m: nat, groups: seq<seq<nat>>, cdist: seq<Dist>, demoted: set<nat>, a: nat, b: nat)
    requires Symmetric(ov) && GroupedBy(ov, m, groups) && |cdist| == m
    requires demoted == Demoted(groups, cdist) && a < m && a !in demoted
    requires b != a && Reachable(ov, a, b)
    ensures b < m && !Less(cdist[b], cdist[a])
  {
    var k :| 0 <= k < |groups| && a in groups[k];
    var g := groups[k];
    var p := Nearest(g, cdist);
    assert a == g[p] by {
      assert a !in Losers(g, cdist);
    }
    ReachTrans(ov, g[0], a, b);
    var q :| 0 <= q < |g| && g[q] == b;
  }

  /** Every grouped candidate is one of the m candidates. */
  lemma GroupMembersInRange(ov: Rel, m: nat, groups: seq<seq<nat>>)
    requires forall x: nat, y: nat :: ov(x, y) ==> x < m && y < m
    requires forall k, x :: 0 <= k < |groups| && x in groups[k] ==> exists y :: y != x && Reachable(ov, x, y)
    ensures forall k, q :: 0 <= k < |groups| && 0 <= q < |groups[k]| ==> groups[k][q] < m
  {
    forall k, q | 0 <= k < |groups| && 0 <= q < |groups[k]| ensures groups[k][q] < m {
      var x := groups[k][q];
      assert x in groups[k];
      var y :| y != x && Reachable(ov, x, y);
      ReachedFromEdge(ov, x, y);
    }
  }

  /** Without two candidates no candidate reaches another. */
  lemma NoDistinctReach(ov: Rel, m: nat)
    requires m < 2 && forall x: nat, y: nat :: ov(x, y) ==> x < m && y < m
    ensures forall a: nat, b: nat :: Reachable(ov, a, b) ==> a == b
  {
    forall a: nat, b: nat | Reachable(ov, a, b) ensures a == b {
      if a != b {
        ReachedFromEdge(ov, a, b);
        ReachedByEdge(ov, a, b);
      }
    }
  }

  /** Candidate a is joined by overlaps to a candidate that is spared. */
  ghost predicate ReachesSpared(ov: Rel, m: nat, demoted: set<nat>, a: nat)
  {
    exists b: nat :: b < m && Reachable(ov, a, b) && b !in demoted
  }

  /** The grouping and the demotion together, over m candidates with distances `cdist`: the
      candidates demoted are exactly the losers of the groups. Two candidates joined by a chain
      of overlaps are never both spared, every candidate is joined to a spared one, a candidate
      strictly nearer than everything it is joined to is spared, a spared candidate is no
      farther than anything it is joined to, and a candidate that overlaps nothing else is never
      demoted. */
  method DemoteAllButNearest(ov: Rel, cdist: seq<Dist>) returns (demoted: set<nat>)
    requires Symmetric(ov) && forall x: nat, y: nat :: ov(x, y) ==> x < |cdist| && y < |cdist|
    ensures forall x :: x in demoted ==> x < |cdist| && exists y :: y != x && Reachable(ov, x, y)
    ensures forall a: nat, b: nat :: a != b && Reachable(ov, a, b) && a !in demoted ==> b in demoted
    ensures forall a: nat :: a < |cdist| ==> ReachesSpared(ov, |cdist|, demoted, a)
    ensures forall a: nat :: a < |cdist| && (forall b: nat :: b != a && Reachable(ov, a, b) ==> b < |cdist| && Less(cdist[a], cdist[b])) ==>
      a !in demoted
    ensures forall a: nat, b: nat :: a < |cdist| && a !in demoted && b != a && Reachable(ov, a, b) ==>
      b < |cdist| && !Less(cdist[b], cdist[a])
  {
    var m := |cdist|;
    var groups := Groups(ov, m);
    GroupMembersInRange(ov, m, groups);
    assert GroupedBy(ov, m, groups);
    demoted := Demoted(groups, cdist);
    NoTwoSpared(ov, m, groups, cdist, demoted);
    forall a: nat | a < m ensures ReachesSpared(ov, m, demoted, a) {
      SomeSpared(ov, m, groups, cdist, demoted, a);
    }
    forall a: nat | a < m && (forall b: nat :: b != a && Reachable(ov, a, b) ==> b < m && Less(cdist[a], cdist[b]))
      ensures a !in demoted
    {
      NearestSpared(ov, m, groups, cdist, demoted, a);
    }
    forall a: nat, b: nat | a < m && a !in demoted && b != a && Reachable(ov, a, b)
      ensures b < m && !Less(cdist[b], cdist[a])
    {
      SparedIsNearest(ov, m, groups, cdist, demoted, a, b);
    }
    DemotedAreGrouped(ov, m, groups, cdist, demoted);
  }

  /** Only grouped positions are demoted. */
  lemma DemotedAreGrouped(ov: Rel, m: nat, groups: seq<seq<nat>>, cdist: seq<Dist>, demoted: set<nat>)
    requires GroupedBy(ov, m, groups) && |cdist| == m
    requires forall k, x :: 0 <= k < |groups| && x in groups[k] ==> exists y :: y != x && Reachable(ov, x, y)
    requires demoted == Demoted(groups, cdist)
    ensures forall x :: x in demoted ==> x < m && exists y :: y != x && Reachable(ov, x, y)
  {
    forall x | x in demoted ensures x < m && exists y :: y != x && Reachable(ov, x, y) {
      var k :| 0 <= k < |groups| && x in Losers(groups[k], cdist);
      var q :| 0 <= q < |groups[k]| && groups[k][q] == x;
    }
  }
}
