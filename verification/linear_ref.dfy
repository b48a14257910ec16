/** Linear referencing along a polyline, as every generation does it: distances accumulated
    segment by segment, the closest segment chosen by a strict minimum, and a point projected
    onto a segment in a local plane. Lengths of segments are inputs (the geodesic and haversine
    formulas are not modelled). */
module LinearRef {
  import opened Base
  import opened Seqs

  /** Running totals of the segment lengths, starting at 0: entry i is the length of the
      polyline up to its i-th point. */
  function Cumulative(segs: seq<real>): (c: seq<real>)
    ensures |c| == |segs| + 1 && c[0] == 0.0
    ensures forall i :: 0 <= i < |segs| ==> c[i + 1] == c[i] + segs[i]
  {
    if |segs| == 0 then [0.0]
    else
      var front := Cumulative(segs[..|segs| - 1]);
      front + [front[|segs| - 1] + segs[|segs| - 1]]
  }

  /** With segment lengths that are never negative the totals never decrease. */
  lemma {:induction false} CumulativeMonotone(segs: seq<real>)
    requires forall i :: 0 <= i < |segs| ==> segs[i] >= 0.0
    ensures forall i, j :: 0 <= i <= j <= |segs| ==> Cumulative(segs)[i] <= Cumulative(segs)[j]
  {
    var c := Cumulative(segs);
    forall i, j | 0 <= i <= j <= |segs| ensures c[i] <= c[j] {
      var k := i;
      while k < j
        invariant i <= k <= j && c[i] <= c[k]
      {
        k := k + 1;
      }
    }
  }

  /** The last total is the length of the whole polyline. */
  lemma {:induction false} CumulativeLast(segs: seq<real>)
    ensures Cumulative(segs)[|segs|] == Sum(segs)
    decreases |segs|
  {
    if |segs| > 0 {
      var front := segs[..|segs| - 1];
      CumulativeLast(front);
      SumAppend(front, segs[|segs| - 1]);
      assert front + [segs[|segs| - 1]] == segs;
    }
  }

  /** The length of each route segment under the distance function `dist`. */
  function SegmentLengths(pts: seq<Position>, dist: (Position, Position) -> real): (segs: seq<real>)
    requires |pts| > 0
    ensures |segs| == |pts| - 1
    ensures forall k :: 0 <= k < |segs| ==> segs[k] == dist(pts[k], pts[k + 1])
  {
    seq(|pts| - 1, k requires 0 <= k < |pts| - 1 => dist(pts[k], pts[k + 1]))
  }

  /** The distance along the route to every route point, starting at 0 and growing by the
      length of each segment; nothing for an empty route. */
  function RouteDistances(pts: seq<Position>, dist: (Position, Position) -> real): (cum: seq<real>)
    ensures |cum| == |pts|
    ensures |pts| > 0 ==> cum[0] == 0.0
    ensures forall k :: 1 <= k < |pts| ==> cum[k] == cum[k - 1] + dist(pts[k - 1], pts[k])
  {
    if |pts| == 0 then [] else Cumulative(SegmentLengths(pts, dist))
  }

  /** With distances that are never negative the cumulative distances never decrease, and the
      last one is the length of the whole route. */
  lemma RouteDistancesGrow(pts: seq<Position>, dist: (Position, Position) -> real)
    requires |pts| > 0
    requires forall p, q :: dist(p, q) >= 0.0
    ensures forall i, j :: 0 <= i <= j < |pts| ==> RouteDistances(pts, dist)[i] <= RouteDistances(pts, dist)[j]
    ensures RouteDistances(pts, dist)[|pts| - 1] == Sum(SegmentLengths(pts, dist))
  {
    var segs := SegmentLengths(pts, dist);
    CumulativeMonotone(segs);
    CumulativeLast(segs);
  }

  /** The index a scan `if d < best: best = d` picks, starting from infinity: the first index
      of a least value. */
  function FirstMin(xs: seq<real>): (i: nat)
    requires |xs| > 0
    ensures i < |xs|
    ensures forall j :: 0 <= j < |xs| ==> xs[i] <= xs[j]
    ensures forall j :: 0 <= j < i ==> xs[j] > xs[i]
  {
    if |xs| == 1 then 0
    else
      var i := FirstMin(xs[..|xs| - 1]);
      if xs[|xs| - 1] < xs[i] then |xs| - 1 else i
  }

  /** The first index of a least value is the only index whose value is least and below every
      earlier value: ties go to the lowest index. */
  lemma FirstMinUnique(xs: seq<real>, k: nat)
    requires k < |xs|
    requires forall j :: 0 <= j < |xs| ==> xs[k] <= xs[j]
    requires forall j :: 0 <= j < k ==> xs[j] > xs[k]
    ensures FirstMin(xs) == k
  {
    var i := FirstMin(xs);
    assert xs[i] <= xs[k] && xs[k] <= xs[i];
  }

  /** `cum[i] + t * (cum[i + 1] - cum[i])`: the distance along the route of a point a fraction t
      of the way along segment i. */
  function Interpolate(cum: seq<real>, i: nat, t: real): (d: real)
    requires i + 1 < |cum|
    ensures 0.0 <= t <= 1.0 && cum[i] <= cum[i + 1] ==> cum[i] <= d <= cum[i + 1]
  {
    var len := cum[i + 1] - cum[i];
    assert 0.0 <= t <= 1.0 && len >= 0.0 ==> 0.0 <= t * len <= len by {
      if 0.0 <= t <= 1.0 && len >= 0.0 {
        assert t * len <= 1.0 * len;
      }
    }
    cum[i] + t * len
  }

  /** `max(0.0, min(1.0, t))` */
  function ClampUnit(t: real): (r: real)
    ensures 0.0 <= r <= 1.0
    ensures 0.0 <= t <= 1.0 ==> r == t
    ensures t < 0.0 ==> r == 0.0
    ensures t > 1.0 ==> r == 1.0
  {
    if t < 0.0 then 0.0 else if t > 1.0 then 1.0 else t
  }

  /** How far along a segment the closest point lies: `t` is the fraction of the way from the
      segment start to its end and `projected` says whether the point was projected at all. A
      segment whose end coincides with its start (both planar offsets zero) is not projected:
      the closest point is the start, at t = 0. Otherwise the raw parameter of the planar formula
      `((P - A) . (B - A)) / |B - A|^2` is clamped to the segment. */
  datatype Projection = Projection(t: real, projected: bool)

  /** `dx`, `dy` are the planar offsets of the segment end from its start; `raw` is the value of
      the planar formula, computed in floating point outside the model. */
  function Project(dx: real, dy: real, raw: real): (r: Projection)
    ensures 0.0 <= r.t <= 1.0
    ensures r.projected <==> !(dx == 0.0 && dy == 0.0)
    ensures !r.projected ==> r.t == 0.0
    ensures r.projected && 0.0 <= raw <= 1.0 ==> r.t == raw
    ensures r.projected && raw < 0.0 ==> r.t == 0.0
    ensures r.projected && raw > 1.0 ==> r.t == 1.0
  {
    if dx == 0.0 && dy == 0.0 then Projection(0.0, false)
    else Projection(ClampUnit(raw), true)
  }

  /** What projecting a point onto a segment reports: the distance in kilometres to the closest
      point of the segment, how far along the segment that point lies, and the point itself. */
  datatype SegmentHit<P> = SegmentHit(distanceKm: real, t: real, closest: P)

  /** `to_line_segment_distance_and_projection` / `point_to_line_segment_distance_and_projection`
      over the planar quantities, which are computed outside the model: `dx`, `dy` are the
      planar offsets of the segment end from its start, `raw` is the value of the projection
      formula, `distanceAt(u)` is the planar distance in metres from the point to the point a
      fraction u of the way along, and `pointAt(u)` is that point converted back to degrees. A
      degenerate segment reports its start itself at t = 0. */
  function ProjectOntoSegment<P>(segStart: P, dx: real, dy: real, raw: real,
                                 distanceAt: real -> real, pointAt: real -> P): (h: SegmentHit<P>)
    ensures 0.0 <= h.t <= 1.0
    ensures h.distanceKm * 1000.0 == distanceAt(h.t)
    ensures (forall u :: distanceAt(u) >= 0.0) ==> h.distanceKm >= 0.0
    ensures dx == 0.0 && dy == 0.0 ==> h.t == 0.0 && h.closest == segStart
    ensures !(dx == 0.0 && dy == 0.0) ==> h.closest == pointAt(h.t)
    ensures !(dx == 0.0 && dy == 0.0) && 0.0 <= raw <= 1.0 ==> h.t == raw
    ensures !(dx == 0.0 && dy == 0.0) && raw < 0.0 ==> h.t == 0.0
    ensures !(dx == 0.0 && dy == 0.0) && raw > 1.0 ==> h.t == 1.0
  {
    var p := Project(dx, dy, raw);
    if !p.projected then SegmentHit(distanceAt(0.0) / 1000.0, 0.0, segStart)
    else SegmentHit(distanceAt(p.t) / 1000.0, p.t, pointAt(p.t))
  }

  /** Squared distance from P to the point a fraction u of the way along the segment, less the
      squared distance from P to the segment start: `dd * u^2 - 2 * pd * u`, where `dd` is the
      squared segment length and `pd` the dot product of P with the segment. */
  function Excess(pd: real, dd: real, u: real): real
  {
    dd * u * u - 2.0 * pd * u
  }

  /** How much farther the point at s is than the point at t. */
  lemma ExcessGap(pd: real, dd: real, s: real, t: real)
    ensures Excess(pd, dd, s) - Excess(pd, dd, t) == (s - t) * (dd * (s + t) - 2.0 * pd)
  {
  }

  /** The clamped minimiser of the excess over [0, 1] is no worse than any point s of the
      segment. */
  lemma ClampedGapNonNegative(pd: real, dd: real, s: real)
    requires dd > 0.0 && 0.0 <= s <= 1.0
    ensures var t := ClampUnit(pd / dd); (s - t) * (dd * (s + t) - 2.0 * pd) >= 0.0
  {
    var star := pd / dd;
    var t := ClampUnit(star);
    assert pd == star * dd;
    if 0.0 <= star <= 1.0 {
      assert (s - t) * (dd * (s + t) - 2.0 * pd) == dd * ((s - t) * (s - t));
      SquareNonNegative(s - t);
      MulNonNegative(dd, (s - t) * (s - t));
    } else if star < 0.0 {
      assert (s - t) * (dd * (s + t) - 2.0 * pd) == dd * (s * (s - 2.0 * star));
      MulNonNegative(s, s - 2.0 * star);
      MulNonNegative(dd, s * (s - 2.0 * star));
    } else {
      assert (s - t) * (dd * (s + t) - 2.0 * pd) == dd * ((1.0 - s) * (2.0 * star - s - 1.0));
      MulNonNegative(1.0 - s, 2.0 * star - s - 1.0);
      MulNonNegative(dd, (1.0 - s) * (2.0 * star - s - 1.0));
    }
  }

  lemma SquareNonNegative(x: real)
    ensures x * x >= 0.0
  {
    if x < 0.0 {
      assert x * x == (-x) * (-x);
    }
  }

  lemma MulNonNegative(a: real, b: real)
    requires a >= 0.0 && b >= 0.0
    ensures a * b >= 0.0
  {
  }

  /** When the raw parameter is the exact ratio `pd / dd` of a segment of positive length, the
      clamped parameter picks a closest point of the segment: no point of it is nearer to P. */
  lemma {:induction false} ProjectIsClosest(dx: real, dy: real, pd: real, dd: real, s: real)
    requires !(dx == 0.0 && dy == 0.0) && dd > 0.0 && 0.0 <= s <= 1.0
    ensures Excess(pd, dd, Project(dx, dy, pd / dd).t) <= Excess(pd, dd, s)
  {
    var t := Project(dx, dy, pd / dd).t;
    assert t == ClampUnit(pd / dd);
    ExcessGap(pd, dd, s, t);
    ClampedGapNonNegative(pd, dd, s);
  }

  /** The walk of `linestring_distance_to_index`: the first segment i at whose end the running
      length reaches `distance`; past the last segment, the last segment index. */
  function WalkToIndex(segs: seq<real>, distance: real, i: nat, acc: real): (r: int)
    requires i <= |segs|
    decreases |segs| - i
  {
    if i == |segs| then |segs| - 1
    else if acc + segs[i] >= distance then i
    else WalkToIndex(segs, distance, i + 1, acc + segs[i])
  }

  /** The walk finds the first segment whose end lies at or beyond the distance. */
  lemma {:induction false} WalkFindsFirst(segs: seq<real>, distance: real, i: nat)
    requires i <= |segs|
    requires forall j :: 1 <= j <= i ==> Cumulative(segs)[j] < distance
    ensures var r := WalkToIndex(segs, distance, i, Cumulative(segs)[i]);
      && (r == |segs| - 1 || (0 <= r < |segs| && Cumulative(segs)[r + 1] >= distance))
      && (forall j :: 1 <= j <= r && j <= |segs| ==> Cumulative(segs)[j] < distance)
      && (Cumulative(segs)[|segs|] >= distance && |segs| > 0 ==> 0 <= r < |segs| && Cumulative(segs)[r + 1] >= distance)
    decreases |segs| - i
  {
    var c := Cumulative(segs);
    if i < |segs| && !(c[i] + segs[i] >= distance) {
      WalkFindsFirst(segs, distance, i + 1);
    }
  }
}
