/** Closed intervals along the route, as every generation compares route spans: two spans
    overlap when each starts no later than the other ends. */
module Intervals {

  /** `start1 <= end2 and start2 <= end1` */
  predicate Overlap(start1: real, end1: real, start2: real, end2: real)
  {
    start1 <= end2 && start2 <= end1
  }

  /** x lies on the closed span from start to end. */
  predicate Within(x: real, start: real, end: real)
  {
    start <= x <= end
  }

  /** For spans that start no later than they end, overlapping means sharing a point. */
  lemma OverlapIffCommonPoint(start1: real, end1: real, start2: real, end2: real)
    requires start1 <= end1 && start2 <= end2
    ensures Overlap(start1, end1, start2, end2) <==>
      exists x :: Within(x, start1, end1) && Within(x, start2, end2)
  {
    if Overlap(start1, end1, start2, end2) {
      var x := if start1 <= start2 then start2 else start1;
      assert Within(x, start1, end1) && Within(x, start2, end2);
    }
  }

  lemma OverlapSymmetric(start1: real, end1: real, start2: real, end2: real)
    ensures Overlap(start1, end1, start2, end2) == Overlap(start2, end2, start1, end1)
  {
  }
}
