/** Line segments and the two length comparators used to sort them. The
    comparators measure lengths with the Euclidean distance; here the
    squared distance is compared instead, which orders segments the same
    way (`CompareLengthsMaxByLength`). */
module LineSegments {

  import opened Geometry

  datatype LineSegment = LineSegment(p0: Point, p1: Point)

  /** The square of the segment's length. */
  function SquaredLength(s: LineSegment): real {
    SquaredDistance(s.p0, s.p1)
  }

  /** Sort key for longest-first order: 1 when `s0` is the shorter segment,
      -1 when it is the longer one, 0 when both have the same length. */
  function CompareLengthsMax(s0: LineSegment, s1: LineSegment): (r: int)
    ensures r == -1 || r == 0 || r == 1
  {
    var l0 := SquaredLength(s0);
    var l1 := SquaredLength(s1);
    if l0 < l1 then 1 else if l0 > l1 then -1 else 0
  }

  /** Sort key for shortest-first order: the negation of `CompareLengthsMax`. */
  function CompareLengths(s0: LineSegment, s1: LineSegment): (r: int)
    ensures r == -1 || r == 0 || r == 1
  {
    -CompareLengthsMax(s0, s1)
  }

  /** Stated with the true lengths `d0` and `d1` of the two segments,
      `CompareLengthsMax` ranks the longer segment first and
      `CompareLengths` ranks the shorter segment first. */
  lemma CompareLengthsMaxByLength(s0: LineSegment, s1: LineSegment, d0: real, d1: real)
    requires IsDistance(s0.p0, s0.p1, d0) && IsDistance(s1.p0, s1.p1, d1)
    ensures CompareLengthsMax(s0, s1) == 1 <==> d0 < d1
    ensures CompareLengthsMax(s0, s1) == -1 <==> d0 > d1
    ensures CompareLengthsMax(s0, s1) == 0 <==> d0 == d1
    ensures CompareLengths(s0, s1) == 1 <==> d0 > d1
    ensures CompareLengths(s0, s1) == -1 <==> d0 < d1
    ensures CompareLengths(s0, s1) == 0 <==> d0 == d1
  {
    DistanceComparison(s0.p0, s0.p1, d0, s1.p0, s1.p1, d1);
    DistanceComparison(s1.p0, s1.p1, d1, s0.p0, s0.p1, d0);
  }

  /** Both comparators are antisymmetric. */
  lemma CompareLengthsAntisymmetric(s0: LineSegment, s1: LineSegment)
    ensures CompareLengthsMax(s0, s1) == -CompareLengthsMax(s1, s0)
    ensures CompareLengths(s0, s1) == -CompareLengths(s1, s0)
  {
  }

  /** Neither comparator depends on the direction of a segment. */
  lemma CompareLengthsIgnoreDirection(s0: LineSegment, s1: LineSegment)
    ensures CompareLengthsMax(LineSegment(s0.p1, s0.p0), s1) == CompareLengthsMax(s0, s1)
    ensures CompareLengthsMax(s0, LineSegment(s1.p1, s1.p0)) == CompareLengthsMax(s0, s1)
    ensures CompareLengths(LineSegment(s0.p1, s0.p0), s1) == CompareLengths(s0, s1)
    ensures CompareLengths(s0, LineSegment(s1.p1, s1.p0)) == CompareLengths(s0, s1)
  {
    DistanceSymmetric(s0.p0, s0.p1);
    DistanceSymmetric(s1.p0, s1.p1);
  }
}
