/** The Shapely helpers of the current generation (src/brunnels/shapely_utils.py) that do not
    depend on Shapely's geometry: the guard of `coords_to_polyline` and the walk of
    `linestring_distance_to_index`. A line string is modelled by the lengths of its segments;
    its length is their sum. */
module SrcShapelyUtils {
  import opened Base
  import opened Seqs
  import opened LinearRef

  /** A coordinate pair, (longitude, latitude) or projected (x, y). */
  type Coord = (real, real)

  const TooFewMessage: string := "At least two positions are required to create a LineString."
  const NegativeMessage: string := "Distance must be greater than or equal to 0"
  const TooLongMessage: string := "Distance exceeds the total length of the linestring"

  /** `coords_to_polyline`: fewer than two coordinate pairs are refused; otherwise every pair
      goes through the projection when one is given (`project`), and is kept as it is when
      not. */
  function CoordsToPolyline(coords: seq<Coord>, project: Option<Coord -> Coord>): (r: Result<seq<Coord>>)
    ensures r.Err? <==> |coords| < 2
    ensures r.Err? ==> r.error == ValueError(TooFewMessage)
    ensures r.Ok? ==> |r.value| == |coords|
    ensures r.Ok? && project.None? ==> r.value == coords
    ensures r.Ok? && project.Some? ==> forall k :: 0 <= k < |coords| ==> r.value[k] == project.value(coords[k])
  {
    if |coords| < 2 then Err(ValueError(TooFewMessage))
    else match project
      case None => Ok(coords)
      case Some(f) => Ok(seq(|coords|, k requires 0 <= k < |coords| => f(coords[k])))
  }

  /** `linestring_distance_to_index` over the segment lengths `segs`: a negative distance or
      one beyond the length of the line raises; otherwise the walk answers the first segment
      at whose end the running length reaches the distance. */
  function DistanceToIndex(segs: seq<real>, distance: real): (r: Result<int>)
    ensures r.Err? <==> distance < 0.0 || distance > Sum(segs)
    ensures distance < 0.0 ==> r == Err(ValueError(NegativeMessage))
    ensures 0.0 <= distance && distance > Sum(segs) ==> r == Err(ValueError(TooLongMessage))
  {
    if distance < 0.0 then Err(ValueError(NegativeMessage))
    else if distance > Sum(segs) then Err(ValueError(TooLongMessage))
    else Ok(WalkToIndex(segs, distance, 0, 0.0))
  }

  /** An index that is answered names a segment (so lies in [0, n - 2] for a line of n
      points), the running length at its end reaches the distance, and at no earlier segment's
      end does it. */
  lemma {:induction false} DistanceToIndexFirst(segs: seq<real>, distance: real)
    requires |segs| > 0 && DistanceToIndex(segs, distance).Ok?
    ensures var i := DistanceToIndex(segs, distance).value;
      && 0 <= i < |segs|
      && Cumulative(segs)[i + 1] >= distance
      && forall j :: 1 <= j <= i ==> Cumulative(segs)[j] < distance
  {
    CumulativeLast(segs);
    WalkFindsFirst(segs, distance, 0);
  }

  /** Distance 0 is on the first segment once lengths are not negative. */
  lemma ZeroDistanceIsFirstSegment(segs: seq<real>)
    requires |segs| > 0 && forall k :: 0 <= k < |segs| ==> segs[k] >= 0.0
    ensures DistanceToIndex(segs, 0.0) == Ok(0)
  {
    CumulativeLast(segs);
    CumulativeMonotone(segs);
    assert Cumulative(segs)[0] <= Cumulative(segs)[|segs|];
  }
}
