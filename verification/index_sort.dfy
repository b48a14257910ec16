/** Python's stable `list.sort(key=...)` applied to a list of positions whose initial order is
    increasing: the result is ordered by key, ties in position order. */
module IndexSort {
  import opened Seqs

  /** The key of position i (positions beyond the key list never occur; they read as 0). */
  function KeyOf(key: seq<real>, i: nat): real
  {
    if i < |key| then key[i] else 0.0
  }

  /** i sorts before j: smaller key, or the same key and an earlier position. */
  predicate Precedes(key: seq<real>, i: nat, j: nat)
  {
    KeyOf(key, i) < KeyOf(key, j) || (KeyOf(key, i) == KeyOf(key, j) && i < j)
  }

  predicate SortedBy(key: seq<real>, s: seq<nat>)
  {
    forall a, b :: 0 <= a < b < |s| ==> Precedes(key, s[a], s[b])
  }

  function InsertBy(key: seq<real>, x: nat, s: seq<nat>): (r: seq<nat>)
    requires SortedBy(key, s) && x !in s
    ensures |r| == |s| + 1
    ensures forall y :: y in r <==> y == x || y in s
    ensures SortedBy(key, r)
    decreases |s|
  {
    if |s| == 0 then [x]
    else if Precedes(key, x, s[0]) then [x] + s
    else
      var rest := InsertBy(key, x, s[1..]);
      assert Precedes(key, s[0], x);
      assert forall y :: y in rest ==> Precedes(key, s[0], y);
      [s[0]] + rest
  }

  /** The stable sort of distinct positions by key. */
  function SortBy(key: seq<real>, idx: seq<nat>): (r: seq<nat>)
    requires NoDup(idx)
    ensures |r| == |idx|
    ensures forall y :: y in r <==> y in idx
    ensures SortedBy(key, r)
  {
    if |idx| == 0 then []
    else
      assert idx[0] !in idx[1..];
      InsertBy(key, idx[0], SortBy(key, idx[1..]))
  }

  /** A sorted list has no repeated position. */
  lemma SortedNoDup(key: seq<real>, s: seq<nat>)
    requires SortedBy(key, s)
    ensures NoDup(s)
  {
    forall a, b | 0 <= a < b < |s| ensures s[a] != s[b] {
      assert Precedes(key, s[a], s[b]);
    }
  }

  /** The head of a sorted list has the least key, and the earliest position among the
      elements with that key. */
  lemma SortedHead(key: seq<real>, s: seq<nat>)
    requires SortedBy(key, s) && |s| > 0
    ensures forall y :: y in s ==> KeyOf(key, s[0]) <= KeyOf(key, y)
    ensures forall y :: y in s && KeyOf(key, y) == KeyOf(key, s[0]) ==> s[0] <= y
  {
    forall y | y in s ensures KeyOf(key, s[0]) <= KeyOf(key, y) && (KeyOf(key, y) == KeyOf(key, s[0]) ==> s[0] <= y) {
      var b :| 0 <= b < |s| && s[b] == y;
      if b > 0 {
        assert Precedes(key, s[0], s[b]);
      }
    }
  }

  /** Two sorted lists with the same elements are equal: the sorted order is unique. */
  lemma {:induction false} SortedUnique(key: seq<real>, s: seq<nat>, t: seq<nat>)
    requires SortedBy(key, s) && SortedBy(key, t)
    requires forall y :: y in s <==> y in t
    ensures s == t
    decreases |s|
  {
    SortedNoDup(key, s);
    SortedNoDup(key, t);
    assert |s| > 0 ==> s[0] in t;
    assert |t| > 0 ==> t[0] in s;
    if |s| > 0 && |t| > 0 {
      SortedHead(key, s);
      SortedHead(key, t);
      assert s[0] == t[0] by {
        assert s[0] in t && t[0] in s;
      }
      var s', t' := s[1..], t[1..];
      assert forall y :: y in s' <==> y in t' by {
        forall y ensures y in s' <==> y in t' {
          if y in s' {
            var a :| 0 <= a < |s'| && s'[a] == y;
            assert s[a + 1] == y && y != s[0];
            assert y in t;
            var b :| 0 <= b < |t| && t[b] == y;
            assert b != 0;
            assert t'[b - 1] == y;
          }
          if y in t' {
            var b :| 0 <= b < |t'| && t'[b] == y;
            assert t[b + 1] == y && y != t[0];
            assert y in s;
            var a :| 0 <= a < |s| && s[a] == y;
            assert a != 0;
            assert s'[a - 1] == y;
          }
        }
      }
      assert SortedBy(key, s') by {
        forall a, b | 0 <= a < b < |s'| ensures Precedes(key, s'[a], s'[b]) {
          assert s'[a] == s[a + 1] && s'[b] == s[b + 1];
        }
      }
      assert SortedBy(key, t') by {
        forall a, b | 0 <= a < b < |t'| ensures Precedes(key, t'[a], t'[b]) {
          assert t'[a] == t[a + 1] && t'[b] == t[b + 1];
        }
      }
      SortedUnique(key, s', t');
      assert s == [s[0]] + s' && t == [t[0]] + t';
    }
  }
}
