/** Detection of adjacent brunnels that form one compound brunnel, shared by both compound-way
    implementations (brunnels/compound_brunnel_way.py and compound_brunnel_way.py): among the
    contained, spanned, unfiltered brunnels, taken in route order and separated by type,
    maximal runs of consecutive brunnels that share a node. */
module AdjacentGrouping {
  import opened Base
  import opened Seqs
  import opened WayModel

  /** Contained in the route, with a route span, not filtered. */
  predicate Eligible(w: Way)
  {
    w.contained && w.span.Some? && w.reason == NoFilter
  }

  /** The sort key: start of the route span (brunnels without one are never sorted). */
  function Key(ws: seq<Way>, i: nat): real
  {
    if i < |ws| && ws[i].span.Some? then ws[i].span.value.start else 0.0
  }

  /** Route order: by start distance, ties kept in list order (what Python's stable sort of
      increasing indices produces). */
  predicate Before(ws: seq<Way>, i: nat, j: nat)
  {
    Key(ws, i) < Key(ws, j) || (Key(ws, i) == Key(ws, j) && i < j)
  }

  predicate Ordered(ws: seq<Way>, s: seq<nat>)
  {
    forall a, b :: 0 <= a < b < |s| ==> Before(ws, s[a], s[b])
  }

  predicate InRange(ws: seq<Way>, s: seq<nat>)
  {
    forall k :: 0 <= k < |s| ==> s[k] < |ws|
  }

  /** `shares_node_with` between brunnels i and j. */
  predicate Linked(ws: seq<Way>, i: nat, j: nat)
  {
    i < |ws| && j < |ws| && SharesNode(ws[i].data.nodes, ws[j].data.nodes)
  }

  function OtherType(t: BrunnelType): BrunnelType
  {
    if t == Bridge then Tunnel else Bridge
  }

  /** j comes right after i in the route order of the eligible brunnels of their type. */
  ghost predicate Successor(ws: seq<Way>, i: nat, j: nat)
  {
    i < |ws| && j < |ws| && Eligible(ws[i]) && Eligible(ws[j]) && ws[i].btype == ws[j].btype
    && Before(ws, i, j)
    && forall k: nat :: k < |ws| && Eligible(ws[k]) && ws[k].btype == ws[i].btype ==>
         !(Before(ws, i, k) && Before(ws, k, j))
  }

  /** No index occurs twice, inside a group or across groups. */
  predicate Disjoint(groups: seq<seq<nat>>)
  {
    (forall p :: 0 <= p < |groups| ==> NoDup(groups[p])) &&
    forall p, q, x :: 0 <= p < q < |groups| && x in groups[p] ==> x !in groups[q]
  }

  /** Every group has at least two eligible brunnels of one type, each the route-order
      successor of the previous one and sharing a node with it; no brunnel is in two groups. */
  ghost predicate GroupsSound(ws: seq<Way>, groups: seq<seq<nat>>)
  {
    (forall p :: 0 <= p < |groups| ==> |groups[p]| >= 2) &&
    (forall p, k :: 0 <= p < |groups| && 0 <= k < |groups[p]| ==>
       groups[p][k] < |ws| && Eligible(ws[groups[p][k]])) &&
    (forall p, k :: 0 <= p < |groups| && 0 <= k < |groups[p]| - 1 ==>
       Successor(ws, groups[p][k], groups[p][k + 1]) && Linked(ws, groups[p][k], groups[p][k + 1])) &&
    Disjoint(groups)
  }

  /** Every successor pair that shares a node ends up in one group. */
  ghost predicate GroupsComplete(ws: seq<Way>, groups: seq<seq<nat>>)
  {
    forall i: nat, j: nat :: Successor(ws, i, j) && Linked(ws, i, j) ==>
      exists p :: 0 <= p < |groups| && i in groups[p] && j in groups[p]
  }

  /** Eligible indices from `i` on, in list order. */
  function EligibleFrom(ws: seq<Way>, i: nat): (r: seq<nat>)
    requires i <= |ws|
    ensures forall x: nat :: x in r <==> i <= x < |ws| && Eligible(ws[x])
    ensures forall a, b :: 0 <= a < b < |r| ==> r[a] < r[b]
    decreases |ws| - i
  {
    if i == |ws| then []
    else
      var rest := EligibleFrom(ws, i + 1);
      assert forall b :: 0 <= b < |rest| ==> rest[b] in rest;
      if Eligible(ws[i]) then [i] + rest else rest
  }

  /** Inserts x into its route-order place. */
  function Insert(ws: seq<Way>, x: nat, s: seq<nat>): (r: seq<nat>)
    requires Ordered(ws, s) && x !in s
    ensures |r| == |s| + 1
    ensures forall y :: y in r <==> y == x || y in s
    ensures Ordered(ws, r)
    decreases |s|
  {
    if |s| == 0 then [x]
    else if Before(ws, x, s[0]) then [x] + s
    else
      var rest := Insert(ws, x, s[1..]);
      assert Before(ws, s[0], x);
      assert forall y :: y in rest ==> Before(ws, s[0], y);
      [s[0]] + rest
  }

  /** `indices.sort(key=start)`: the indices in route order. */
  function SortByStart(ws: seq<Way>, idx: seq<nat>): (r: seq<nat>)
    requires NoDup(idx)
    ensures |r| == |idx|
    ensures forall y :: y in r <==> y in idx
    ensures Ordered(ws, r)
  {
    if |idx| == 0 then []
    else
      assert idx[0] !in idx[1..];
      Insert(ws, idx[0], SortByStart(ws, idx[1..]))
  }

  /** The brunnels of one type, keeping the order of `s`. */
  function OfType(ws: seq<Way>, s: seq<nat>, t: BrunnelType): (r: seq<nat>)
    requires InRange(ws, s)
    ensures forall y :: y in r <==> y in s && y < |ws| && ws[y].btype == t
    ensures InRange(ws, r)
    ensures Ordered(ws, s) ==> Ordered(ws, r)
  {
    var r := Filter(s, (y: nat) => y < |ws| && ws[y].btype == t);
    assert forall k :: 0 <= k < |r| ==> r[k] in r;
    assert Ordered(ws, s) ==> Ordered(ws, r) by {
      if Ordered(ws, s) {
        FilterPairwise(s, (y: nat) => y < |ws| && ws[y].btype == t, (a: nat, b: nat) => Before(ws, a, b));
      }
    }
    r
  }

  /** The eligible brunnels of type t, in route order. */
  ghost predicate TypeList(ws: seq<Way>, L: seq<nat>, t: BrunnelType)
  {
    InRange(ws, L) && Ordered(ws, L) &&
    forall y: nat :: y in L <==> y < |ws| && Eligible(ws[y]) && ws[y].btype == t
  }

  lemma {:induction false} ConsecutiveIsSuccessor(ws: seq<Way>, L: seq<nat>, t: BrunnelType, a: nat)
    requires TypeList(ws, L, t) && a + 1 < |L|
    ensures Successor(ws, L[a], L[a + 1])
  {
    assert L[a] in L && L[a + 1] in L;
    forall k: nat | k < |ws| && Eligible(ws[k]) && ws[k].btype == ws[L[a]].btype
      ensures !(Before(ws, L[a], k) && Before(ws, k, L[a + 1]))
    {
      assert k in L;
      var c :| 0 <= c < |L| && L[c] == k;
      if c < a {
        assert Before(ws, L[c], L[a]);
      } else if c > a + 1 {
        assert Before(ws, L[a + 1], L[c]);
      }
    }
  }

  lemma {:induction false} SuccessorIsConsecutive(ws: seq<Way>, L: seq<nat>, t: BrunnelType, i: nat, j: nat) returns (a: nat)
    requires TypeList(ws, L, t) && Successor(ws, i, j) && ws[i].btype == t
    ensures a + 1 < |L| && L[a] == i && L[a + 1] == j
  {
    assert i in L && j in L;
    var ai :| 0 <= ai < |L| && L[ai] == i;
    var aj :| 0 <= aj < |L| && L[aj] == j;
    a := ai;
  }

  /** Brunnels L[m] and L[m + 1] share a node. */
  predicate LinkedAt(ws: seq<Way>, L: seq<nat>, m: int)
    requires 0 <= m < |L| - 1
  {
    Linked(ws, L[m], L[m + 1])
  }

  /** A maximal run L[lo..hi] of consecutive brunnels that share a node. */
  predicate Run(ws: seq<Way>, L: seq<nat>, s: (nat, nat))
  {
    s.0 < s.1 <= |L| &&
    (forall m :: s.0 <= m < s.1 - 1 ==> LinkedAt(ws, L, m)) &&
    (s.1 < |L| ==> !LinkedAt(ws, L, s.1 - 1))
  }

  function RunEnd(ws: seq<Way>, L: seq<nat>, lo: nat): (hi: nat)
    requires lo < |L|
    ensures lo < hi <= |L|
    ensures forall m :: lo <= m < hi - 1 ==> LinkedAt(ws, L, m)
    ensures hi < |L| ==> !LinkedAt(ws, L, hi - 1)
    decreases |L| - lo
  {
    if lo + 1 < |L| && LinkedAt(ws, L, lo) then RunEnd(ws, L, lo + 1) else lo + 1
  }

  /** The runs of L from position lo on, left to right (the loop over `indices`). */
  function Runs(ws: seq<Way>, L: seq<nat>, lo: nat): (runs: seq<(nat, nat)>)
    requires lo <= |L|
    ensures forall s :: s in runs ==> Run(ws, L, s) && lo <= s.0
    ensures forall q, q' :: 0 <= q < q' < |runs| ==> runs[q].1 <= runs[q'].0
    decreases |L| - lo
  {
    if lo == |L| then []
    else
      var hi := RunEnd(ws, L, lo);
      var rest := Runs(ws, L, hi);
      assert forall q :: 0 <= q < |rest| ==> rest[q] in rest;
      [(lo, hi)] + rest
  }

  lemma {:induction false} RunsCover(ws: seq<Way>, L: seq<nat>, lo: nat, a: nat) returns (s: (nat, nat))
    requires lo <= a < |L|
    ensures s in Runs(ws, L, lo) && s.0 <= a < s.1
    decreases |L| - lo
  {
    var hi := RunEnd(ws, L, lo);
    if a < hi {
      s := (lo, hi);
    } else {
      s := RunsCover(ws, L, hi, a);
    }
  }

  /** Two consecutive brunnels of L that share a node lie in one run. */
  lemma {:induction false} LinkedPairInRun(ws: seq<Way>, L: seq<nat>, a: nat) returns (s: (nat, nat))
    requires a + 1 < |L| && LinkedAt(ws, L, a)
    ensures s in Runs(ws, L, 0) && s.0 <= a && a + 1 < s.1
  {
    s := RunsCover(ws, L, 0, a);
    assert Run(ws, L, s);
  }

  predicate Long(s: (nat, nat))
  {
    s.1 - s.0 >= 2
  }

  /** The runs of at least two brunnels, left to right. */
  function LongRuns(ws: seq<Way>, L: seq<nat>): (r: seq<(nat, nat)>)
    ensures forall s :: s in r ==> Run(ws, L, s) && Long(s)
    ensures forall q, q' :: 0 <= q < q' < |r| ==> r[q].1 <= r[q'].0
    ensures forall s :: s in Runs(ws, L, 0) && Long(s) ==> s in r
  {
    var runs := Runs(ws, L, 0);
    FilterPairwise(runs, Long, (x: (nat, nat), y: (nat, nat)) => x.1 <= y.0);
    Filter(runs, Long)
  }

  function Slices(L: seq<nat>, runs: seq<(nat, nat)>): (r: seq<seq<nat>>)
    requires forall q :: 0 <= q < |runs| ==> runs[q].0 <= runs[q].1 <= |L|
    ensures |r| == |runs| && forall p :: 0 <= p < |runs| ==> r[p] == L[runs[p].0..runs[p].1]
  {
    if |runs| == 0 then [] else [L[runs[0].0..runs[0].1]] + Slices(L, runs[1..])
  }

  /** The runs of at least two brunnels of L, as lists of indices. */
  function GroupsOf(ws: seq<Way>, L: seq<nat>): (G: seq<seq<nat>>)
    ensures |G| == |LongRuns(ws, L)|
    ensures forall p :: 0 <= p < |G| ==> G[p] == L[LongRuns(ws, L)[p].0..LongRuns(ws, L)[p].1]
  {
    var long := LongRuns(ws, L);
    assert forall q :: 0 <= q < |long| ==> long[q] in long;
    Slices(L, long)
  }

  /** Every group member of G has type t. */
  ghost predicate AllOfType(ws: seq<Way>, G: seq<seq<nat>>, t: BrunnelType)
  {
    forall p, k :: 0 <= p < |G| && 0 <= k < |G[p]| ==> G[p][k] < |ws| && ws[G[p][k]].btype == t
  }

  /** Every pair of consecutive brunnels of L that share a node lies in one group of G. */
  ghost predicate CoversLinked(ws: seq<Way>, L: seq<nat>, G: seq<seq<nat>>)
  {
    forall a :: 0 <= a < |L| - 1 && LinkedAt(ws, L, a) ==>
      exists p :: 0 <= p < |G| && L[a] in G[p] && L[a + 1] in G[p]
  }

  lemma GroupsOfMembers(ws: seq<Way>, L: seq<nat>, t: BrunnelType)
    requires TypeList(ws, L, t)
    ensures forall p :: 0 <= p < |GroupsOf(ws, L)| ==> |GroupsOf(ws, L)[p]| >= 2
    ensures forall p, k :: 0 <= p < |GroupsOf(ws, L)| && 0 <= k < |GroupsOf(ws, L)[p]| ==>
      GroupsOf(ws, L)[p][k] < |ws| && Eligible(ws[GroupsOf(ws, L)[p][k]])
    ensures AllOfType(ws, GroupsOf(ws, L), t)
  {
    var long := LongRuns(ws, L);
    var G := GroupsOf(ws, L);
    forall p | 0 <= p < |G| ensures |G[p]| >= 2 && forall k :: 0 <= k < |G[p]| ==> G[p][k] in L {
      assert long[p] in long;
      SliceWithin(L, long[p].0, long[p].1);
    }
  }

  lemma SliceWithin(L: seq<nat>, lo: nat, hi: nat)
    requires lo <= hi <= |L|
    ensures forall k :: 0 <= k < hi - lo ==> L[lo..hi][k] in L
  {
    forall k | 0 <= k < hi - lo ensures L[lo..hi][k] in L {
      assert L[lo..hi][k] == L[lo + k];
    }
  }

  lemma GroupsOfChained(ws: seq<Way>, L: seq<nat>, t: BrunnelType)
    requires TypeList(ws, L, t)
    ensures forall p, k :: 0 <= p < |GroupsOf(ws, L)| && 0 <= k < |GroupsOf(ws, L)[p]| - 1 ==>
      Successor(ws, GroupsOf(ws, L)[p][k], GroupsOf(ws, L)[p][k + 1])
      && Linked(ws, GroupsOf(ws, L)[p][k], GroupsOf(ws, L)[p][k + 1])
  {
    var long := LongRuns(ws, L);
    var G := GroupsOf(ws, L);
    forall p, k | 0 <= p < |G| && 0 <= k < |G[p]| - 1
      ensures Successor(ws, G[p][k], G[p][k + 1]) && Linked(ws, G[p][k], G[p][k + 1])
    {
      assert long[p] in long;
      RunChained(ws, L, t, long[p], k);
    }
  }

  /** Neighbours within a run are successors in the sorted order that share a node. */
  lemma RunChained(ws: seq<Way>, L: seq<nat>, t: BrunnelType, s: (nat, nat), k: nat)
    requires TypeList(ws, L, t) && Run(ws, L, s) && k + 1 < s.1 - s.0
    ensures Successor(ws, L[s.0..s.1][k], L[s.0..s.1][k + 1]) && Linked(ws, L[s.0..s.1][k], L[s.0..s.1][k + 1])
  {
    var m := s.0 + k;
    assert LinkedAt(ws, L, m);
    ConsecutiveIsSuccessor(ws, L, t, m);
  }

  lemma GroupsOfDisjoint(ws: seq<Way>, L: seq<nat>, t: BrunnelType)
    requires TypeList(ws, L, t)
    ensures Disjoint(GroupsOf(ws, L))
  {
    var long := LongRuns(ws, L);
    var G := GroupsOf(ws, L);
    forall p | 0 <= p < |G| ensures NoDup(G[p]) {
      assert long[p] in long;
      SliceNoDup(ws, L, long[p].0, long[p].1);
    }
    forall p, q, x | 0 <= p < q < |G| && x in G[p] ensures x !in G[q] {
      assert long[p] in long && long[q] in long;
      SlicesApart(ws, L, long[p], long[q], x);
    }
  }

  lemma OrderedDistinct(ws: seq<Way>, L: seq<nat>, a: nat, b: nat)
    requires Ordered(ws, L) && a < b < |L|
    ensures L[a] != L[b]
  {
    assert Before(ws, L[a], L[b]);
  }

  /** A slice of an ordered list repeats nothing. */
  lemma SliceNoDup(ws: seq<Way>, L: seq<nat>, lo: nat, hi: nat)
    requires Ordered(ws, L) && lo <= hi <= |L|
    ensures NoDup(L[lo..hi])
  {
    var s := L[lo..hi];
    forall i, j | 0 <= i < j < |s| ensures s[i] != s[j] {
      OrderedDistinct(ws, L, lo + i, lo + j);
    }
  }

  /** Slices of an ordered list that do not overlap as index ranges share no element. */
  lemma SlicesApart(ws: seq<Way>, L: seq<nat>, s1: (nat, nat), s2: (nat, nat), x: nat)
    requires Ordered(ws, L) && s1.0 <= s1.1 <= s2.0 <= s2.1 <= |L|
    requires x in L[s1.0..s1.1]
    ensures x !in L[s2.0..s2.1]
  {
    var k :| 0 <= k < s1.1 - s1.0 && L[s1.0..s1.1][k] == x;
    forall j | 0 <= j < s2.1 - s2.0 ensures L[s2.0..s2.1][j] != x {
      OrderedDistinct(ws, L, s1.0 + k, s2.0 + j);
    }
  }

  lemma LinkedPairInGroup(ws: seq<Way>, L: seq<nat>, a: nat) returns (p: nat)
    requires a + 1 < |L| && LinkedAt(ws, L, a)
    ensures p < |GroupsOf(ws, L)| && L[a] in GroupsOf(ws, L)[p] && L[a + 1] in GroupsOf(ws, L)[p]
  {
    var s := LinkedPairInRun(ws, L, a);
    p := LongRunIndex(ws, L, s, a);
  }

  /** A run of at least two brunnels is one of the groups. */
  lemma LongRunIndex(ws: seq<Way>, L: seq<nat>, s: (nat, nat), a: nat) returns (q: nat)
    requires s in Runs(ws, L, 0) && s.0 <= a && a + 1 < s.1
    ensures q < |GroupsOf(ws, L)| && L[a] in GroupsOf(ws, L)[q] && L[a + 1] in GroupsOf(ws, L)[q]
  {
    var long := LongRuns(ws, L);
    assert Long(s);
    assert s in long;
    q :| 0 <= q < |long| && long[q] == s;
    assert GroupsOf(ws, L)[q] == L[s.0..s.1];
    InSlice(L, s.0, s.1, a);
    InSlice(L, s.0, s.1, a + 1);
  }

  lemma InSlice(L: seq<nat>, lo: nat, hi: nat, a: nat)
    requires lo <= a < hi <= |L|
    ensures L[a] in L[lo..hi]
  {
    assert L[lo..hi][a - lo] == L[a];
  }

  lemma GroupsOfCover(ws: seq<Way>, L: seq<nat>)
    ensures CoversLinked(ws, L, GroupsOf(ws, L))
  {
    var G := GroupsOf(ws, L);
    forall a | 0 <= a < |L| - 1 && LinkedAt(ws, L, a)
      ensures exists p :: 0 <= p < |G| && L[a] in G[p] && L[a + 1] in G[p]
    {
      var p := LinkedPairInGroup(ws, L, a);
    }
  }

  /** The groups of L are sound, of type t, and cover every linked consecutive pair. */
  lemma GroupsOfFacts(ws: seq<Way>, L: seq<nat>, t: BrunnelType)
    requires TypeList(ws, L, t)
    ensures GroupsSound(ws, GroupsOf(ws, L))
    ensures AllOfType(ws, GroupsOf(ws, L), t)
    ensures CoversLinked(ws, L, GroupsOf(ws, L))
  {
    GroupsOfMembers(ws, L, t);
    GroupsOfChained(ws, L, t);
    GroupsOfDisjoint(ws, L, t);
    GroupsOfCover(ws, L);
  }

  lemma ConcatSound(ws: seq<Way>, G0: seq<seq<nat>>, G1: seq<seq<nat>>, t0: BrunnelType)
    requires GroupsSound(ws, G0) && GroupsSound(ws, G1)
    requires AllOfType(ws, G0, t0) && AllOfType(ws, G1, OtherType(t0))
    ensures GroupsSound(ws, G0 + G1)
  {
    var G := G0 + G1;
    assert forall p :: 0 <= p < |G| ==> G[p] == if p < |G0| then G0[p] else G1[p - |G0|];
    forall p, q, x | 0 <= p < q < |G| && x in G[p] ensures x !in G[q] {
      if p < |G0| <= q {
        TypesApart(ws, G0[p], G1[q - |G0|], t0, x);
      }
    }
  }

  /** A brunnel of one type is in no group of the other type. */
  lemma TypesApart(ws: seq<Way>, g0: seq<nat>, g1: seq<nat>, t0: BrunnelType, x: nat)
    requires forall k :: 0 <= k < |g0| ==> g0[k] < |ws| && ws[g0[k]].btype == t0
    requires forall k :: 0 <= k < |g1| ==> g1[k] < |ws| && ws[g1[k]].btype == OtherType(t0)
    requires x in g0
    ensures x !in g1
  {
    var i :| 0 <= i < |g0| && g0[i] == x;
    forall j | 0 <= j < |g1| ensures g1[j] != x {
      assert ws[g1[j]].btype == OtherType(t0);
    }
  }

  lemma SuccessorInGroup(ws: seq<Way>, L: seq<nat>, G: seq<seq<nat>>, t: BrunnelType, i: nat, j: nat) returns (p: nat)
    requires TypeList(ws, L, t) && CoversLinked(ws, L, G)
    requires Successor(ws, i, j) && Linked(ws, i, j) && ws[i].btype == t
    ensures p < |G| && i in G[p] && j in G[p]
  {
    var a := SuccessorIsConsecutive(ws, L, t, i, j);
    assert LinkedAt(ws, L, a);
    p :| 0 <= p < |G| && L[a] in G[p] && L[a + 1] in G[p];
  }

  lemma ConcatComplete(ws: seq<Way>, L0: seq<nat>, L1: seq<nat>, G0: seq<seq<nat>>, G1: seq<seq<nat>>, t0: BrunnelType)
    requires TypeList(ws, L0, t0) && TypeList(ws, L1, OtherType(t0))
    requires CoversLinked(ws, L0, G0) && CoversLinked(ws, L1, G1)
    ensures GroupsComplete(ws, G0 + G1)
  {
    var G := G0 + G1;
    forall i: nat, j: nat | Successor(ws, i, j) && Linked(ws, i, j)
      ensures exists p :: 0 <= p < |G| && i in G[p] && j in G[p]
    {
      if ws[i].btype == t0 {
        var p := SuccessorInGroup(ws, L0, G0, t0, i, j);
        assert G[p] == G0[p];
      } else {
        var p := SuccessorInGroup(ws, L1, G1, OtherType(t0), i, j);
        assert G[p + |G0|] == G1[p];
      }
    }
  }

  /** `detect_adjacent_groups`: fewer than two eligible brunnels give no groups; otherwise the
      runs of the type of the first brunnel in route order, then those of the other type. */
  function DetectAdjacentGroups(ws: seq<Way>): (groups: seq<seq<nat>>)
    ensures GroupsSound(ws, groups)
    ensures GroupsComplete(ws, groups)
    ensures forall p, k :: 0 <= p < |groups| && 0 <= k < |groups[p]| ==>
      ws[groups[p][k]].btype == ws[groups[p][0]].btype
  {
    var idx := EligibleFrom(ws, 0);
    if |idx| < 2 then
      FewEligibleNoSuccessor(ws, idx);
      []
    else
      var sorted := SortByStart(ws, idx);
      assert forall k :: 0 <= k < |sorted| ==> sorted[k] in idx;
      var t0 := ws[sorted[0]].btype;
      var L0, L1 := OfType(ws, sorted, t0), OfType(ws, sorted, OtherType(t0));
      var G0, G1 := GroupsOf(ws, L0), GroupsOf(ws, L1);
      GroupsOfFacts(ws, L0, t0);
      GroupsOfFacts(ws, L1, OtherType(t0));
      ConcatSound(ws, G0, G1, t0);
      ConcatComplete(ws, L0, L1, G0, G1, t0);
      ConcatSameType(ws, G0, G1, t0);
      G0 + G1
  }

  lemma ConcatSameType(ws: seq<Way>, G0: seq<seq<nat>>, G1: seq<seq<nat>>, t0: BrunnelType)
    requires AllOfType(ws, G0, t0) && AllOfType(ws, G1, OtherType(t0))
    ensures forall p, k :: 0 <= p < |G0 + G1| && 0 <= k < |(G0 + G1)[p]| ==>
      (G0 + G1)[p][0] < |ws| && ws[(G0 + G1)[p][k]].btype == ws[(G0 + G1)[p][0]].btype
  {
    var G := G0 + G1;
    forall p, k | 0 <= p < |G| && 0 <= k < |G[p]|
      ensures G[p][0] < |ws| && ws[G[p][k]].btype == ws[G[p][0]].btype
    {
      if p < |G0| {
        assert G[p] == G0[p];
      } else {
        assert G[p] == G1[p - |G0|];
      }
    }
  }

  lemma FewEligibleNoSuccessor(ws: seq<Way>, idx: seq<nat>)
    requires idx == EligibleFrom(ws, 0) && |idx| < 2
    ensures GroupsComplete(ws, [])
  {
    forall i: nat, j: nat | Successor(ws, i, j) ensures false {
    }
  }

  /** A group needs two eligible brunnels, so with fewer there is none. */
  lemma GroupsNeedTwoEligible(ws: seq<Way>)
    ensures |DetectAdjacentGroups(ws)| > 0 ==>
      exists i, j :: 0 <= i < j < |ws| && Eligible(ws[i]) && Eligible(ws[j])
  {
    var groups := DetectAdjacentGroups(ws);
    if |groups| > 0 {
      var g := groups[0];
      assert g[0] != g[1];
      if g[0] < g[1] {
        assert Eligible(ws[g[0]]) && Eligible(ws[g[1]]);
      } else {
        assert Eligible(ws[g[1]]) && Eligible(ws[g[0]]);
      }
    }
  }

  // ---------------------------------------------------------------------------------------
  // Group order

  /** Every member of an earlier group comes before every member of a later group of the same
      type in route order. */
  ghost predicate SameTypeInRouteOrder(ws: seq<Way>, G: seq<seq<nat>>)
  {
    forall p, q, a, b ::
      && 0 <= p < q < |G| && 0 <= a < |G[p]| && 0 <= b < |G[q]|
      && G[p][a] < |ws| && G[q][b] < |ws| && ws[G[p][a]].btype == ws[G[q][b]].btype
      ==> Before(ws, G[p][a], G[q][b])
  }

  /** Every member of an earlier group comes before every member of a later group. */
  ghost predicate InOrder(ws: seq<Way>, G: seq<seq<nat>>)
  {
    forall p, q, a, b :: 0 <= p < q < |G| && 0 <= a < |G[p]| && 0 <= b < |G[q]| ==>
      Before(ws, G[p][a], G[q][b])
  }

  /** Brunnel i is eligible and the first eligible brunnel in route order. */
  ghost predicate RouteFirst(ws: seq<Way>, i: nat)
  {
    i < |ws| && Eligible(ws[i]) &&
    forall k: nat :: k < |ws| && Eligible(ws[k]) && k != i ==> Before(ws, i, k)
  }

  /** No group of type t follows a group of another type. */
  ghost predicate TypeComesFirst(ws: seq<Way>, G: seq<seq<nat>>, t: BrunnelType)
  {
    forall p, q :: 0 <= p < q < |G| && |G[q]| > 0 && G[q][0] < |ws| && ws[G[q][0]].btype == t ==>
      |G[p]| > 0 && G[p][0] < |ws| && ws[G[p][0]].btype == t
  }

  /** The groups of an ordered list are in its order, member by member. */
  lemma GroupsOfInOrder(ws: seq<Way>, L: seq<nat>)
    requires Ordered(ws, L)
    ensures InOrder(ws, GroupsOf(ws, L))
  {
    var long := LongRuns(ws, L);
    var G := GroupsOf(ws, L);
    forall p, q, a, b | 0 <= p < q < |G| && 0 <= a < |G[p]| && 0 <= b < |G[q]|
      ensures Before(ws, G[p][a], G[q][b])
    {
      SliceAt(ws, L, long, p, a);
      SliceAt(ws, L, long, q, b);
      OrderedAt(ws, L, long[p].0 + a, long[q].0 + b);
    }
  }

  /** Member a of group p is the brunnel at position a of its run. */
  lemma SliceAt(ws: seq<Way>, L: seq<nat>, long: seq<(nat, nat)>, p: nat, a: nat)
    requires long == LongRuns(ws, L) && p < |long| && a < |GroupsOf(ws, L)[p]|
    ensures long[p].0 + a < long[p].1 <= |L| && GroupsOf(ws, L)[p][a] == L[long[p].0 + a]
  {
    assert long[p] in long;
  }

  lemma OrderedAt(ws: seq<Way>, L: seq<nat>, x: nat, y: nat)
    requires Ordered(ws, L) && x < y < |L|
    ensures Before(ws, L[x], L[y])
  {
  }

  /** `detect_adjacent_groups` lists the groups of one type in route order: each `type_groups`
      list is sorted by start distance and scanned left to right. */
  lemma DetectAdjacentGroupsInRouteOrder(ws: seq<Way>)
    ensures SameTypeInRouteOrder(ws, DetectAdjacentGroups(ws))
  {
    var idx := EligibleFrom(ws, 0);
    if |idx| >= 2 {
      var sorted := SortByStart(ws, idx);
      assert forall k :: 0 <= k < |sorted| ==> sorted[k] in idx;
      var t0 := ws[sorted[0]].btype;
      var L0, L1 := OfType(ws, sorted, t0), OfType(ws, sorted, OtherType(t0));
      var G0, G1 := GroupsOf(ws, L0), GroupsOf(ws, L1);
      GroupsOfFacts(ws, L0, t0);
      GroupsOfFacts(ws, L1, OtherType(t0));
      GroupsOfInOrder(ws, L0);
      GroupsOfInOrder(ws, L1);
      ConcatInRouteOrder(ws, G0, G1, t0);
      assert DetectAdjacentGroups(ws) == G0 + G1;
    }
  }

  lemma ConcatInRouteOrder(ws: seq<Way>, G0: seq<seq<nat>>, G1: seq<seq<nat>>, t0: BrunnelType)
    requires InOrder(ws, G0) && InOrder(ws, G1)
    requires AllOfType(ws, G0, t0) && AllOfType(ws, G1, OtherType(t0))
    ensures SameTypeInRouteOrder(ws, G0 + G1)
  {
    var G := G0 + G1;
    forall p, q, a, b | 0 <= p < q < |G| && 0 <= a < |G[p]| && 0 <= b < |G[q]| &&
      G[p][a] < |ws| && G[q][b] < |ws| && ws[G[p][a]].btype == ws[G[q][b]].btype
      ensures Before(ws, G[p][a], G[q][b])
    {
      if q < |G0| {
        assert G[p] == G0[p] && G[q] == G0[q];
      } else if |G0| <= p {
        assert G[p] == G1[p - |G0|] && G[q] == G1[q - |G0|];
      }
    }
  }

  /** The groups of the type of the first eligible brunnel in route order come first, because
      `type_groups` is keyed in order of first appearance in the sorted list. */
  lemma DetectAdjacentGroupsFirstType(ws: seq<Way>, i: nat)
    requires RouteFirst(ws, i)
    ensures TypeComesFirst(ws, DetectAdjacentGroups(ws), ws[i].btype)
  {
    var idx := EligibleFrom(ws, 0);
    if |idx| >= 2 {
      var sorted := SortByStart(ws, idx);
      assert forall k :: 0 <= k < |sorted| ==> sorted[k] in idx;
      assert sorted[0] == i by {
        assert i in idx;
        var c :| 0 <= c < |sorted| && sorted[c] == i;
      }
      var t0 := ws[sorted[0]].btype;
      var L0, L1 := OfType(ws, sorted, t0), OfType(ws, sorted, OtherType(t0));
      var G0, G1 := GroupsOf(ws, L0), GroupsOf(ws, L1);
      GroupsOfFacts(ws, L0, t0);
      GroupsOfFacts(ws, L1, OtherType(t0));
      ConcatFirstType(ws, G0, G1, t0);
      assert DetectAdjacentGroups(ws) == G0 + G1;
    }
  }

  lemma ConcatFirstType(ws: seq<Way>, G0: seq<seq<nat>>, G1: seq<seq<nat>>, t0: BrunnelType)
    requires forall p :: 0 <= p < |G0| ==> |G0[p]| >= 2
    requires AllOfType(ws, G0, t0) && AllOfType(ws, G1, OtherType(t0))
    ensures TypeComesFirst(ws, G0 + G1, t0)
  {
    var G := G0 + G1;
    forall p, q | 0 <= p < q < |G| && |G[q]| > 0 && G[q][0] < |ws| && ws[G[q][0]].btype == t0
      ensures |G[p]| > 0 && G[p][0] < |ws| && ws[G[p][0]].btype == t0
    {
      assert G[p] == G0[p];
    }
  }
}
