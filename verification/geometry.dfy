/** Plane geometry shared by the whole model: points, the clipping
    rectangle, left/right orientation and the Euclidean distance. */
module Geometry {

  datatype Point = Point(x: real, y: real)

  /** A rectangle given by its origin and extent. The y axis points down:
      `Top` is the smaller ordinate and `Bottom` the larger one. */
  datatype Rect = Rect(x: real, y: real, width: real, height: real) {
    function Left(): real { x }
    function Right(): real { x + width }
    function Top(): real { y }
    function Bottom(): real { y + height }
  }

  /** Which end of an edge, or which side of a half-edge. */
  datatype LR = LEFT | RIGHT

  function Other(lr: LR): (r: LR)
    ensures r != lr
  {
    if lr == LEFT then RIGHT else LEFT
  }

  function Sq(a: real): real { a * a }

  /** The square of the distance between two points (Utilities.Distance
      before its square root). Every use of the distance in the core
      compares it, with another distance or with a tolerance, and for
      non-negative values comparing squares is the same as comparing the
      values (`RootOrder`). */
  function SquaredDistance(p: Point, q: Point): (d: real)
    ensures d >= 0.0
    ensures d == 0.0 <==> p == q
  {
    SumOfSquares(q.x - p.x, q.y - p.y);
    Sq(q.x - p.x) + Sq(q.y - p.y)
  }

  /** The tolerance of the engine's vector equality (`Vector2.kEpsilon`). */
  const VECTOR_EPSILON: real := 0.00001

  /** The engine's `==` on vectors: two points are equal when their squared
      distance is below the square of `VECTOR_EPSILON`. Unlike equality it
      is not transitive. */
  predicate VectorEqual(p: Point, q: Point) {
    SquaredDistance(p, q) < Sq(VECTOR_EPSILON)
  }

  /** Identical points compare equal, and the comparison is symmetric. */
  lemma VectorEqualReflexiveSymmetric(p: Point, q: Point)
    ensures VectorEqual(p, p)
    ensures VectorEqual(p, q) <==> VectorEqual(q, p)
  {
  }

  /** Points that differ by less than the tolerance compare equal, so the
      comparison is coarser than equality. */
  lemma VectorEqualIsApproximate()
    ensures VectorEqual(Point(0.0, 0.0), Point(0.000001, 0.0))
    ensures Point(0.0, 0.0) != Point(0.000001, 0.0)
  {
  }

  /** `d` is the Euclidean distance from `p` to `q`: the non-negative
      square root of the squared distance. */
  ghost predicate IsDistance(p: Point, q: Point, d: real) {
    d >= 0.0 && Sq(d) == SquaredDistance(p, q)
  }

  lemma ProductPositive(a: real, b: real)
    requires a > 0.0 && b > 0.0
    ensures a * b > 0.0
  {
  }

  lemma MultiplyMonotone(c: real, a: real, b: real)
    requires c >= 0.0 && a <= b
    ensures c * a <= c * b
  {
  }

  lemma MultiplyStrict(c: real, a: real, b: real)
    requires c > 0.0 && a < b
    ensures a * c < b * c
  {
  }

  /** A non-zero square is positive. */
  lemma SquarePositive(a: real)
    requires a != 0.0
    ensures 0.0 < Sq(a)
  {
    var m := if a > 0.0 then a else -a;
    calc {
      0.0;
    < { ProductPositive(m, m); }
      m * m;
    ==
      Sq(a);
    }
  }

  lemma SquareNegate(a: real)
    ensures Sq(-a) == Sq(a)
  {
    calc {
      Sq(-a);
    ==
      (-a) * (-a);
    ==
      a * a;
    }
  }

  /** A sum of two squares is non-negative, and zero only when both are. */
  lemma SumOfSquares(a: real, b: real)
    ensures Sq(a) + Sq(b) >= 0.0
    ensures Sq(a) + Sq(b) == 0.0 <==> a == 0.0 && b == 0.0
  {
    if a != 0.0 { SquarePositive(a); } else { assert Sq(a) == 0.0; }
    if b != 0.0 { SquarePositive(b); } else { assert Sq(b) == 0.0; }
  }

  lemma SquareBelow(a: real, b: real)
    requires 0.0 <= a < b
    ensures Sq(a) < Sq(b)
  {
    calc {
      Sq(a);
    ==
      a * a;
    <= { MultiplyMonotone(a, a, b); }
      a * b;
    < { MultiplyStrict(b, a, b); }
      b * b;
    ==
      Sq(b);
    }
  }

  /** Squaring is strictly monotone on the non-negative reals, so a
      comparison of distances can be made on their squares. */
  lemma RootOrder(a: real, b: real)
    requires a >= 0.0 && b >= 0.0
    ensures a < b <==> Sq(a) < Sq(b)
  {
    if a < b {
      SquareBelow(a, b);
    } else if b < a {
      SquareBelow(b, a);
    }
  }

  /** The distance between two points is unique. */
  lemma DistanceUnique(p: Point, q: Point, d0: real, d1: real)
    requires IsDistance(p, q, d0) && IsDistance(p, q, d1)
    ensures d0 == d1
  {
    RootOrder(d0, d1);
    RootOrder(d1, d0);
  }

  /** Distance is symmetric in its arguments. */
  lemma DistanceSymmetric(p: Point, q: Point)
    ensures SquaredDistance(p, q) == SquaredDistance(q, p)
  {
    SquareNegate(q.x - p.x);
    SquareNegate(q.y - p.y);
  }

  /** Comparing two distances is comparing their squares. */
  lemma DistanceComparison(p0: Point, p1: Point, d0: real, q0: Point, q1: Point, d1: real)
    requires IsDistance(p0, p1, d0) && IsDistance(q0, q1, d1)
    ensures d0 < d1 <==> SquaredDistance(p0, p1) < SquaredDistance(q0, q1)
    ensures d0 == d1 <==> SquaredDistance(p0, p1) == SquaredDistance(q0, q1)
  {
    RootOrder(d0, d1);
    RootOrder(d1, d0);
  }

  /** A distance is zero exactly when the two points coincide. */
  lemma DistanceZero(p: Point, q: Point, d: real)
    requires IsDistance(p, q, d)
    ensures d == 0.0 <==> p == q
  {
    if d != 0.0 {
      SquarePositive(d);
    } else {
      assert Sq(d) == 0.0;
    }
  }
}
