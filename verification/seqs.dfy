/** Sequence helpers with the meaning of the Python list idioms the program uses. */
module Seqs {

  /** `list(reversed(s))` */
  function Reversed<T>(s: seq<T>): (r: seq<T>)
    ensures |r| == |s|
    ensures forall i :: 0 <= i < |s| ==> r[i] == s[|s| - 1 - i]
  {
    if |s| == 0 then [] else Reversed(s[1..]) + [s[0]]
  }

  lemma ReverseInvolution<T>(s: seq<T>)
    ensures Reversed(Reversed(s)) == s
  {
  }

  /** `s[1:]`, which is empty for an empty list. */
  function Rest<T>(s: seq<T>): (r: seq<T>)
    ensures |s| > 0 ==> |r| == |s| - 1 && forall i :: 0 <= i < |r| ==> r[i] == s[i + 1]
    ensures |s| == 0 ==> r == []
  {
    if |s| == 0 then [] else s[1..]
  }

  /** Concatenation of a list of lists. */
  function Flatten<T>(ss: seq<seq<T>>): seq<T>
  {
    if |ss| == 0 then [] else ss[0] + Flatten(ss[1..])
  }

  lemma FlattenAppend<T>(ss: seq<seq<T>>, s: seq<T>)
    ensures Flatten(ss + [s]) == Flatten(ss) + s
  {
    if |ss| == 0 {
      assert ss + [s] == [s];
    } else {
      assert (ss + [s])[1..] == ss[1..] + [s];
    }
  }

  lemma InFlatten<T>(ss: seq<seq<T>>, x: T)
    ensures x in Flatten(ss) <==> exists k :: 0 <= k < |ss| && x in ss[k]
  {
    if |ss| > 0 {
      InFlatten(ss[1..], x);
      if x in Flatten(ss[1..]) {
        var k :| 0 <= k < |ss[1..]| && x in ss[1..][k];
        assert x in ss[k + 1];
      }
      if exists k :: 0 <= k < |ss| && x in ss[k] {
        var k :| 0 <= k < |ss| && x in ss[k];
        if k > 0 {
          assert x in ss[1..][k - 1];
        }
      }
    }
  }

  /** Python `sum(xs)`. */
  function Sum(xs: seq<real>): real
  {
    if |xs| == 0 then 0.0 else xs[0] + Sum(xs[1..])
  }

  lemma SumAppend(xs: seq<real>, x: real)
    ensures Sum(xs + [x]) == Sum(xs) + x
  {
    if |xs| > 0 {
      assert (xs + [x])[1..] == xs[1..] + [x];
      SumAppend(xs[1..], x);
    }
  }

  /** Python `min(xs)` of a non-empty list. */
  function MinOf(xs: seq<real>): (m: real)
    requires |xs| > 0
    ensures m in xs
    ensures forall i :: 0 <= i < |xs| ==> m <= xs[i]
  {
    if |xs| == 1 then xs[0]
    else var m := MinOf(xs[1..]); if xs[0] <= m then xs[0] else m
  }

  /** Python `max(xs)` of a non-empty list. */
  function MaxOf(xs: seq<real>): (m: real)
    requires |xs| > 0
    ensures m in xs
    ensures forall i :: 0 <= i < |xs| ==> xs[i] <= m
  {
    if |xs| == 1 then xs[0]
    else var m := MaxOf(xs[1..]); if xs[0] >= m then xs[0] else m
  }

  /** No element occurs twice. */
  predicate NoDup<T(==)>(s: seq<T>)
  {
    forall i, j :: 0 <= i < j < |s| ==> s[i] != s[j]
  }

  /** `list(range(n))` */
  function Range(n: nat): (r: seq<nat>)
    ensures |r| == n
    ensures forall i :: 0 <= i < n ==> r[i] == i
    ensures forall x: nat :: x in r <==> x < n
    ensures NoDup(r)
  {
    if n == 0 then []
    else
      var p := Range(n - 1);
      var r := p + [n - 1];
      forall x: nat ensures x in r <==> x < n {
        if x < n - 1 {
          assert r[x] == p[x] == x;
        }
        if x == n - 1 {
          assert r[n - 1] == x;
        }
      }
      r
  }

  /** `[x for x in s if f(x)]` */
  function Filter<T(!new)>(s: seq<T>, f: T -> bool): (r: seq<T>)
    ensures |r| <= |s|
    ensures forall x :: x in r <==> x in s && f(x)
  {
    if |s| == 0 then []
    else if f(s[0]) then [s[0]] + Filter(s[1..], f)
    else Filter(s[1..], f)
  }

  /** A relation that holds between every earlier and later element still holds after filtering. */
  lemma {:induction false} FilterPairwise<T(!new)>(s: seq<T>, f: T -> bool, R: (T, T) -> bool)
    requires forall a, b :: 0 <= a < b < |s| ==> R(s[a], s[b])
    ensures forall a, b :: 0 <= a < b < |Filter(s, f)| ==> R(Filter(s, f)[a], Filter(s, f)[b])
  {
    if |s| > 0 {
      var tail := s[1..];
      assert forall a, b :: 0 <= a < b < |tail| ==> R(tail[a], tail[b]) by {
        forall a, b | 0 <= a < b < |tail| ensures R(tail[a], tail[b]) {
          assert tail[a] == s[a + 1] && tail[b] == s[b + 1];
        }
      }
      FilterPairwise(tail, f, R);
      var rt := Filter(tail, f);
      if f(s[0]) {
        var r := [s[0]] + rt;
        forall a, b | 0 <= a < b < |r| ensures R(r[a], r[b]) {
          if a == 0 {
            assert r[b] == rt[b - 1];
            assert r[b] in tail;
            var k :| 0 <= k < |tail| && tail[k] == r[b];
            assert s[k + 1] == r[b];
            assert R(s[0], s[k + 1]);
          } else {
            assert r[a] == rt[a - 1] && r[b] == rt[b - 1];
            assert R(rt[a - 1], rt[b - 1]);
          }
        }
        assert Filter(s, f) == r;
      } else {
        assert Filter(s, f) == rt;
        assert forall a, b :: 0 <= a < b < |rt| ==> R(rt[a], rt[b]);
      }
    }
  }

  /** No duplicates survive filtering. */
  lemma {:induction false} FilterNoDup<T(!new)>(s: seq<T>, f: T -> bool)
    requires NoDup(s)
    ensures NoDup(Filter(s, f))
  {
    FilterPairwise(s, f, (x, y) => x != y);
  }

  lemma NoDupAppend<T>(a: seq<T>, b: seq<T>)
    requires NoDup(a) && NoDup(b)
    requires forall x :: x in a ==> x !in b
    ensures NoDup(a + b)
  {
    forall i, j | 0 <= i < j < |a + b| ensures (a + b)[i] != (a + b)[j] {
      if i < |a| <= j {
        assert (a + b)[i] in a && (a + b)[j] == b[j - |a|];
      } else if |a| <= i {
        assert (a + b)[i] == b[i - |a|] && (a + b)[j] == b[j - |a|];
      }
    }
  }
}
