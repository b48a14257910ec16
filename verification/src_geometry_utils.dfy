/** Position helpers of the current generation (src/brunnels/geometry_utils.py): whether two
    bearings are aligned and the special cases of the bearing between two positions. The
    spherical trigonometry itself is an input; the projection onto a segment is
    `LinearRef.ProjectOntoSegment`. */
module SrcGeometryUtils {
  import opened Base

  /** The angle between two bearings folded into a half turn:
      `min(|b1 - b2|, 360 - |b1 - b2|)`. */
  function Fold(b1: real, b2: real): real
  {
    var diff := Abs(b1 - b2);
    Min(diff, 360.0 - diff)
  }

  /** Two bearings whose difference lies within `tol` of a whole number of half turns (0, 180
      or 360 degrees) point the same way or opposite ways. */
  predicate NearHalfTurns(diff: real, tol: real)
  {
    Abs(diff) <= tol || Abs(diff - 180.0) <= tol || Abs(diff - 360.0) <= tol
  }

  /** `bearings_aligned`: same direction when the folded angle is within tolerance, opposite
      direction when it is within tolerance of 180 degrees. For bearings in [0, 360] that is
      the difference lying within tolerance of a multiple of a half turn. */
  function BearingsAligned(b1: real, b2: real, tol: real): (r: bool)
    ensures 0.0 <= b1 <= 360.0 && 0.0 <= b2 <= 360.0 ==> (r <==> NearHalfTurns(Abs(b1 - b2), tol))
  {
    var diff := Fold(b1, b2);
    diff <= tol || Abs(diff - 180.0) <= tol
  }

  lemma BearingsAlignedSymmetric(b1: real, b2: real, tol: real)
    ensures BearingsAligned(b1, b2, tol) == BearingsAligned(b2, b1, tol)
  {
    assert Abs(b1 - b2) == Abs(b2 - b1);
  }

  /** Every bearing is aligned with itself once the tolerance is not negative. */
  lemma SelfAligned(b: real, tol: real)
    requires tol >= 0.0
    ensures BearingsAligned(b, b, tol)
  {
  }

  /** A larger tolerance never turns an aligned pair into a misaligned one. */
  lemma AlignedMonotone(b1: real, b2: real, tol1: real, tol2: real)
    requires tol1 <= tol2 && BearingsAligned(b1, b2, tol1)
    ensures BearingsAligned(b1, b2, tol2)
  {
  }

  /** Opposite bearings are aligned even with no tolerance; a tenth of a degree off, they are
      not. */
  lemma OppositeBearings()
    ensures BearingsAligned(0.0, 180.0, 0.0) && BearingsAligned(90.0, 270.0, 0.0)
    ensures !BearingsAligned(0.0, 180.1, 0.0)
  {
    assert Fold(0.0, 180.1) == 179.9;
  }

  /** 10 and 350 degrees are 20 degrees apart across north. */
  lemma WraparoundExample()
    ensures BearingsAligned(10.0, 350.0, 20.0)
    ensures !BearingsAligned(10.0, 350.0, 19.9)
  {
    assert Fold(10.0, 350.0) == 20.0;
  }

  /** `math.isclose(a, b)` with its default relative tolerance and no absolute tolerance. */
  predicate IsClose(a: real, b: real)
  {
    a == b || Abs(b - a) <= Abs(RelTol * b) || Abs(b - a) <= Abs(RelTol * a)
  }

  const RelTol: real := 0.000000001

  /** `bearing_to`: `formula` is the value of the great-circle bearing formula, which the guards
      bypass: the same position (elevation included) gives 0, leaving a pole gives 180 (north)
      or 0 (south), and heading to a pole gives 0 (north) or 180 (south). */
  function BearingTo(p: Position, q: Position, formula: real): (r: real)
    ensures p == q ==> r == 0.0
    ensures p != q && IsClose(p.lat, 90.0) ==> r == 180.0
    ensures p != q && !IsClose(p.lat, 90.0) && IsClose(p.lat, -90.0) ==> r == 0.0
    ensures r == 0.0 || r == 180.0 || r == formula
    ensures p != q && !IsClose(p.lat, 90.0) && !IsClose(p.lat, -90.0) && !IsClose(q.lat, 90.0) && !IsClose(q.lat, -90.0) ==>
      r == formula
    ensures 0.0 <= formula < 360.0 ==> 0.0 <= r < 360.0
  {
    if p == q then 0.0
    else if IsClose(p.lat, 90.0) then 180.0
    else if IsClose(p.lat, -90.0) then 0.0
    else if IsClose(q.lat, 90.0) then 0.0
    else if IsClose(q.lat, -90.0) then 180.0
    else formula
  }

  /** Heading to the north pole from anywhere but a pole is due north, to the south pole due
      south. */
  lemma BearingToPoles(p: Position, q: Position, formula: real)
    requires p != q && !IsClose(p.lat, 90.0) && !IsClose(p.lat, -90.0)
    ensures q.lat == 90.0 ==> BearingTo(p, q, formula) == 0.0
    ensures q.lat == -90.0 ==> BearingTo(p, q, formula) == 180.0
  {
  }
}
