/** Reachability in the undirected graphs the program explores: brunnels joined by shared nodes,
    and candidate brunnels joined by overlapping route spans. */
module Graphs {
  import opened Seqs

  /** An edge relation on positions. */
  type Rel = (nat, nat) -> bool

  ghost predicate Symmetric(adj: Rel)
  {
    forall a: nat, b: nat :: adj(a, b) == adj(b, a)
  }

  /** A walk along edges. */
  ghost predicate Path(adj: Rel, p: seq<nat>)
  {
    |p| > 0 && forall k :: 0 <= k < |p| - 1 ==> adj(p[k], p[k + 1])
  }

  ghost predicate Reachable(adj: Rel, a: nat, b: nat)
  {
    exists p :: Path(adj, p) && p[0] == a && p[|p| - 1] == b
  }

  /** No edge leaves the set. */
  ghost predicate Closed(adj: Rel, c: set<nat>)
  {
    forall x: nat, y: nat :: x in c && adj(x, y) ==> y in c
  }

  lemma ReachRefl(adj: Rel, a: nat)
    ensures Reachable(adj, a, a)
  {
    assert Path(adj, [a]);
  }

  lemma ReachStep(adj: Rel, a: nat, v: nat, u: nat)
    requires Reachable(adj, a, v) && adj(v, u)
    ensures Reachable(adj, a, u)
  {
    var p :| Path(adj, p) && p[0] == a && p[|p| - 1] == v;
    var q := p + [u];
    forall k | 0 <= k < |q| - 1 ensures adj(q[k], q[k + 1]) {
      if k < |p| - 1 {
        assert q[k] == p[k] && q[k + 1] == p[k + 1];
      }
    }
    assert Path(adj, q);
  }

  lemma ReachSym(adj: Rel, a: nat, b: nat)
    requires Symmetric(adj) && Reachable(adj, a, b)
    ensures Reachable(adj, b, a)
  {
    var p :| Path(adj, p) && p[0] == a && p[|p| - 1] == b;
    var q := seq(|p|, k requires 0 <= k < |p| => p[|p| - 1 - k]);
    forall k | 0 <= k < |q| - 1 ensures adj(q[k], q[k + 1]) {
      assert adj(p[|p| - 2 - k], p[|p| - 1 - k]);
    }
    assert Path(adj, q);
  }

  lemma ReachTrans(adj: Rel, a: nat, b: nat, c: nat)
    requires Reachable(adj, a, b) && Reachable(adj, b, c)
    ensures Reachable(adj, a, c)
  {
    var p :| Path(adj, p) && p[0] == a && p[|p| - 1] == b;
    var q :| Path(adj, q) && q[0] == b && q[|q| - 1] == c;
    var r := p + q[1..];
    forall k | 0 <= k < |r| - 1 ensures adj(r[k], r[k + 1]) {
      if k < |p| - 1 {
        assert r[k] == p[k] && r[k + 1] == p[k + 1];
      } else {
        assert r[k] == q[k - |p| + 1] && r[k + 1] == q[k - |p| + 2];
      }
    }
    assert Path(adj, r);
  }

  /** Nothing reachable from inside a closed set lies outside it. */
  lemma {:induction false} ClosedReach(adj: Rel, c: set<nat>, a: nat, b: nat)
    requires Closed(adj, c) && a in c && Reachable(adj, a, b)
    ensures b in c
  {
    var p :| Path(adj, p) && p[0] == a && p[|p| - 1] == b;
    var k := 0;
    while k < |p| - 1
      invariant 0 <= k < |p| && p[k] in c
    {
      assert adj(p[k], p[k + 1]);
      k := k + 1;
    }
  }

  lemma ClosedUnion(adj: Rel, c: set<nat>, d: set<nat>)
    requires Closed(adj, c) && Closed(adj, d)
    ensures Closed(adj, c + d)
  {
  }

  /** A closed set of points all reachable from a seed is exactly what the seed reaches. */
  lemma ComponentOfSeed(adj: Rel, c: set<nat>, seed: nat)
    requires Closed(adj, c) && seed in c
    requires forall x :: x in c ==> Reachable(adj, seed, x)
    ensures forall x :: x in c <==> Reachable(adj, seed, x)
  {
    forall x | Reachable(adj, seed, x) ensures x in c {
      ClosedReach(adj, c, seed, x);
    }
  }
  /** The vertices below n. */
  function Below(n: nat): set<nat>
  {
    set x | x in Range(n)
  }

  /** One breadth-first search from `seed` over a graph on the vertices below n, skipping the
      closed set `visited0`: it collects exactly the vertices the seed reaches. The queue takes
      the unvisited neighbours of each dequeued vertex in increasing order; a vertex dequeued a
      second time is skipped. */
  method Bfs(adj: Rel, n: nat, seed: nat, visited0: set<nat>) returns (comp: set<nat>, visited: set<nat>)
    requires Symmetric(adj) && forall x: nat, y: nat :: adj(x, y) ==> y < n
    requires seed < n && seed !in visited0 && Closed(adj, visited0)
    ensures visited == visited0 + comp && comp !! visited0
    ensures seed in comp && Closed(adj, comp)
    ensures forall x :: x in comp <==> Reachable(adj, seed, x)
  {
    ReachRefl(adj, seed);
    comp, visited := {}, visited0;
    var q: seq<nat> := [seed];
    while |q| > 0
      invariant visited == visited0 + comp && comp !! visited0
      invariant forall x :: x in comp ==> x < n && Reachable(adj, seed, x)
      invariant forall x :: x in q ==> x < n && Reachable(adj, seed, x) && x !in visited0
      invariant forall x: nat, y: nat :: x in comp && adj(x, y) ==> y in comp || y in q
      invariant seed in comp || seed in q
      decreases Below(n) - visited, |q|
    {
      var cur, rest := q[0], q[1..];
      assert forall x :: x in q <==> x == cur || x in rest;
      q := rest;
      if cur in visited {
        continue;
      }
      visited := visited + {cur};
      comp := comp + {cur};
      var next := Filter(Range(n), (j: nat) => adj(cur, j) && j !in visited);
      assert forall j :: j in next <==> adj(cur, j) && j !in visited;
      forall j | j in next ensures Reachable(adj, seed, j) {
        ReachStep(adj, seed, cur, j);
      }
      forall y | adj(cur, y) ensures y !in visited0 {
        assert adj(y, cur);
      }
      assert forall x :: x in q + next <==> x in q || x in next;
      q := q + next;
    }
    forall x | Reachable(adj, seed, x) ensures x in comp {
      ClosedReach(adj, comp, seed, x);
    }
  }

  /** c is a whole connected component: exactly what one of its members reaches. */
  ghost predicate IsComponent(adj: Rel, c: set<nat>)
  {
    exists s :: s in c && forall x :: x in c <==> Reachable(adj, s, x)
  }

  /** In an undirected graph every member of a component reaches exactly the component. */
  lemma ComponentFromMember(adj: Rel, c: set<nat>, i: nat)
    requires Symmetric(adj) && IsComponent(adj, c) && i in c
    ensures forall x :: x in c <==> Reachable(adj, i, x)
  {
    var s :| s in c && forall x :: x in c <==> Reachable(adj, s, x);
    forall x ensures x in c <==> Reachable(adj, i, x) {
      if x in c {
        ReachSym(adj, s, i);
        ReachTrans(adj, i, s, x);
      }
      if Reachable(adj, i, x) {
        ReachTrans(adj, s, i, x);
      }
    }
  }

  /** `comps` are disjoint components whose union is `covered`. */
  ghost predicate Partitioned(adj: Rel, comps: seq<set<nat>>, covered: set<nat>)
  {
    && (forall x :: x in covered <==> exists k :: 0 <= k < |comps| && x in comps[k])
    && (forall k, l :: 0 <= k < l < |comps| ==> comps[k] !! comps[l])
    && (forall k :: 0 <= k < |comps| ==> IsComponent(adj, comps[k]))
  }

  lemma AddComponent(adj: Rel, comps: seq<set<nat>>, covered: set<nat>, c: set<nat>)
    requires Partitioned(adj, comps, covered) && IsComponent(adj, c) && c !! covered
    ensures Partitioned(adj, comps + [c], covered + c)
  {
    var comps' := comps + [c];
    forall k, l | 0 <= k < l < |comps'| ensures comps'[k] !! comps'[l] {
      if l == |comps| {
        forall x | x in comps[k] ensures x !in c {
          assert x in covered;
        }
      }
    }
    forall x ensures x in covered + c <==> exists k :: 0 <= k < |comps'| && x in comps'[k] {
      if x in c {
        assert x in comps'[|comps|];
      }
      if x in covered {
        var k :| 0 <= k < |comps| && x in comps[k];
        assert x in comps'[k];
      }
      if exists k :: 0 <= k < |comps'| && x in comps'[k] {
        var k :| 0 <= k < |comps'| && x in comps'[k];
        if k < |comps| {
          assert x in comps[k];
        }
      }
    }
    assert forall k :: 0 <= k < |comps| ==> comps'[k] == comps[k];
  }

  /** The connected components of a graph whose edges join vertices of `vs`, found by one
      search from each vertex of `vs` not yet visited, in the order of `vs`. */
  method Components(adj: Rel, n: nat, vs: seq<nat>) returns (comps: seq<set<nat>>)
    requires Symmetric(adj)
    requires forall x: nat, y: nat :: adj(x, y) ==> x in vs && y in vs
    requires forall x :: x in vs ==> x < n
    ensures forall k :: 0 <= k < |comps| ==> IsComponent(adj, comps[k])
    ensures forall k, l :: 0 <= k < l < |comps| ==> comps[k] !! comps[l]
    ensures forall x :: x in vs <==> exists k :: 0 <= k < |comps| && x in comps[k]
  {
    assert forall x: nat, y: nat :: adj(x, y) ==> y < n;
    var visited: set<nat> := {};
    comps := [];
    var i := 0;
    while i < |vs|
      invariant 0 <= i <= |vs|
      invariant Closed(adj, visited)
      invariant Partitioned(adj, comps, visited)
      invariant forall x :: x in visited ==> x in vs
      invariant forall x :: x in vs[..i] ==> x in visited
    {
      var w := vs[i];
      assert w in vs && w < n;
      if w !in visited {
        var comp, visited' := Bfs(adj, n, w, visited);
        assert visited <= visited';
        forall x | x in comp ensures x in vs {
          if x != w {
            ReachedByEdge(adj, w, x);
          }
        }
        AddComponent(adj, comps, visited, comp);
        ClosedUnion(adj, visited, comp);
        comps := comps + [comp];
        visited := visited';
      }
      assert vs[..i + 1] == vs[..i] + [w];
      i := i + 1;
    }
    assert vs[..i] == vs;
  }

  /** A vertex that reaches another one starts some edge. */
  lemma ReachedFromEdge(adj: Rel, a: nat, b: nat)
    requires Reachable(adj, a, b) && a != b
    ensures exists v :: adj(a, v)
  {
    var p :| Path(adj, p) && p[0] == a && p[|p| - 1] == b;
    assert adj(p[0], p[1]);
  }

  /** A vertex reached from another one is the end of some edge. */
  lemma ReachedByEdge(adj: Rel, a: nat, b: nat)
    requires Reachable(adj, a, b) && a != b
    ensures exists v :: adj(v, b)
  {
    var p :| Path(adj, p) && p[0] == a && p[|p| - 1] == b;
    assert adj(p[|p| - 2], p[|p| - 1]);
  }
}
