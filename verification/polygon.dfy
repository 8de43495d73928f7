/** A polygon given by its vertex list: the signed double area of the
    closed ring, the winding it implies, and the absolute area. */
module Polygon {

  import opened Geometry

  datatype Winding = CLOCKWISE | COUNTERCLOCKWISE | NONE

  /** The cross product of two position vectors: the term contributed by
      the ring edge from `p` to `q`. */
  function Cross(p: Point, q: Point): real {
    p.x * q.y - q.x * p.y
  }

  lemma CrossAntisymmetric(p: Point, q: Point)
    ensures Cross(q, p) == -Cross(p, q)
  {
  }

  /** The sum of the cross terms along the open path `s[0] .. s[|s|-1]`. */
  function PathSum(s: seq<Point>): real {
    if |s| < 2 then 0.0 else Cross(s[0], s[1]) + PathSum(s[1..])
  }

  /** Reference definition of the signed double area: the open path plus
      the closing edge from the last vertex back to the first. */
  function SignedDoubleArea(vs: seq<Point>): real {
    if |vs| == 0 then 0.0 else PathSum(vs) + Cross(vs[|vs| - 1], vs[0])
  }

  /** The accumulation loop of `SignedDoubleArea`: for every index add the
      term of the edge to the next index modulo the vertex count. */
  method ComputeSignedDoubleArea(vs: seq<Point>) returns (a: real)
    ensures a == SignedDoubleArea(vs)
  {
    var n := |vs|;
    a := 0.0;
    var i := 0;
    while i < n
      invariant 0 <= i <= n
      invariant i < n ==> a == PathSum(vs[..i + 1])
      invariant i == n ==> a == SignedDoubleArea(vs)
    {
      var next := (i + 1) % n;
      NextIndex(i, n);
      a := a + Cross(vs[i], vs[next]);
      if i + 1 < n {
        PathSnoc(vs[..i + 1], vs[i + 1]);
        assert vs[..i + 2] == vs[..i + 1] + [vs[i + 1]];
      } else {
        assert vs[..i + 1] == vs;
      }
      i := i + 1;
    }
  }

  lemma NextIndex(i: nat, n: nat)
    requires i < n
    ensures (i + 1) % n == if i + 1 < n then i + 1 else 0
  {
  }

  /** Extending a path by one vertex adds the term of the new edge. */
  lemma {:induction false} PathSnoc(s: seq<Point>, p: Point)
    requires |s| > 0
    ensures PathSum(s + [p]) == PathSum(s) + Cross(s[|s| - 1], p)
    decreases |s|
  {
    if |s| == 1 {
      assert s + [p] == [s[0], p];
    } else {
      assert (s + [p])[1..] == s[1..] + [p];
      PathSnoc(s[1..], p);
    }
  }

  /** The path over a concatenation is the two paths joined by one edge. */
  lemma {:induction false} PathAppend(a: seq<Point>, b: seq<Point>)
    requires |a| > 0 && |b| > 0
    ensures PathSum(a + b) == PathSum(a) + Cross(a[|a| - 1], b[0]) + PathSum(b)
    decreases |a|
  {
    if |a| == 1 {
      assert (a + b)[1..] == b;
    } else {
      assert (a + b)[1..] == a[1..] + b;
      PathAppend(a[1..], b);
    }
  }

  /** The vertex list in reverse order. */
  function Reverse(s: seq<Point>): (r: seq<Point>)
    ensures |r| == |s|
    ensures forall i :: 0 <= i < |s| ==> r[i] == s[|s| - 1 - i]
  {
    if |s| == 0 then [] else Reverse(s[1..]) + [s[0]]
  }

  /** Reversing the path negates its sum: every edge is walked backwards. */
  lemma {:induction false} PathReverse(s: seq<Point>)
    ensures PathSum(Reverse(s)) == -PathSum(s)
    decreases |s|
  {
    if |s| < 2 {
      if |s| == 1 {
        assert Reverse(s) == [s[0]];
      } else {
        assert Reverse(s) == [];
      }
    } else {
      var t := Reverse(s[1..]);
      PathReverse(s[1..]);
      PathAppend(t, [s[0]]);
      assert PathSum([s[0]]) == 0.0;
      assert t[|t| - 1] == s[1];
      CrossAntisymmetric(s[0], s[1]);
    }
  }

  /** With fewer than three vertices the ring encloses nothing. */
  lemma SmallPolygonHasNoArea(vs: seq<Point>)
    requires |vs| < 3
    ensures SignedDoubleArea(vs) == 0.0
  {
    if |vs| == 2 {
      assert PathSum(vs[1..]) == 0.0;
      assert PathSum(vs) == Cross(vs[0], vs[1]);
      CrossAntisymmetric(vs[0], vs[1]);
    }
  }

  /** Reversing the vertex list negates the signed double area. */
  lemma {:induction false} ReverseNegatesArea(vs: seq<Point>)
    ensures SignedDoubleArea(Reverse(vs)) == -SignedDoubleArea(vs)
  {
    if |vs| > 0 {
      var r := Reverse(vs);
      PathReverse(vs);
      CrossAntisymmetric(vs[|vs| - 1], vs[0]);
      assert r[0] == vs[|vs| - 1] && r[|r| - 1] == vs[0];
    }
  }

  /** Starting the ring at another vertex leaves the signed area unchanged. */
  lemma {:induction false} RotationPreservesArea(vs: seq<Point>, k: nat)
    requires k <= |vs|
    ensures SignedDoubleArea(vs[k..] + vs[..k]) == SignedDoubleArea(vs)
  {
    if 0 < k < |vs| {
      var a, b := vs[..k], vs[k..];
      assert vs == a + b;
      PathAppend(a, b);
      PathAppend(b, a);
      assert (b + a)[0] == b[0] && (b + a)[|b + a| - 1] == a[|a| - 1];
      assert (a + b)[0] == a[0] && (a + b)[|a + b| - 1] == b[|b| - 1];
    } else if k == 0 {
      assert vs[k..] + vs[..k] == vs;
    } else {
      assert vs[k..] + vs[..k] == vs;
    }
  }

  /** The winding classification by the sign of the signed double area. */
  function GetWinding(vs: seq<Point>): (w: Winding)
    ensures w == CLOCKWISE <==> SignedDoubleArea(vs) < 0.0
    ensures w == COUNTERCLOCKWISE <==> SignedDoubleArea(vs) > 0.0
    ensures w == NONE <==> SignedDoubleArea(vs) == 0.0
  {
    var a := SignedDoubleArea(vs);
    if a < 0.0 then CLOCKWISE else if a > 0.0 then COUNTERCLOCKWISE else NONE
  }

  /** Reversing a ring swaps clockwise and counter-clockwise and keeps a
      degenerate ring degenerate. */
  lemma ReverseFlipsWinding(vs: seq<Point>)
    ensures GetWinding(vs) == CLOCKWISE <==> GetWinding(Reverse(vs)) == COUNTERCLOCKWISE
    ensures GetWinding(vs) == COUNTERCLOCKWISE <==> GetWinding(Reverse(vs)) == CLOCKWISE
    ensures GetWinding(vs) == NONE <==> GetWinding(Reverse(vs)) == NONE
  {
    ReverseNegatesArea(vs);
  }

  /** A ring of fewer than three vertices has no winding. */
  lemma SmallPolygonHasNoWinding(vs: seq<Point>)
    requires |vs| < 3
    ensures GetWinding(vs) == NONE
  {
    SmallPolygonHasNoArea(vs);
  }

  function Abs(a: real): real {
    if a < 0.0 then -a else a
  }

  /** The enclosed area: half the absolute signed double area. */
  function Area(vs: seq<Point>): (r: real)
    ensures r >= 0.0
    ensures r == 0.0 <==> GetWinding(vs) == NONE
    ensures r + r == Abs(SignedDoubleArea(vs))
  {
    Abs(SignedDoubleArea(vs) * 0.5)
  }

  /** The area does not depend on the direction of the vertex list. */
  lemma AreaReverseInvariant(vs: seq<Point>)
    ensures Area(Reverse(vs)) == Area(vs)
  {
    ReverseNegatesArea(vs);
    assert Abs(SignedDoubleArea(Reverse(vs))) == Abs(SignedDoubleArea(vs));
  }

  /** The area does not depend on the starting vertex. */
  lemma AreaRotationInvariant(vs: seq<Point>, k: nat)
    requires k <= |vs|
    ensures Area(vs[k..] + vs[..k]) == Area(vs)
  {
    RotationPreservesArea(vs, k);
  }
}
