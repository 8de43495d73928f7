/** Two list filters over edges: the visible edges as line segments, and
    the edges that border the site at a given coordinate. */
module EdgeFilters {

  import opened Wrappers
  import opened Geometry
  import opened Diagram
  import opened LineSegments

  /** The segment between an edge's two clipped ends, LEFT end first. */
  function ClippedSegment(e: Edge): LineSegment {
    LineSegment(e.leftClippedEnd, e.rightClippedEnd)
  }

  /** The number of visible edges. */
  function CountVisible(edges: seq<Edge>): nat {
    if |edges| == 0 then 0
    else (if edges[0].visible then 1 else 0) + CountVisible(edges[1..])
  }

  /** The clipped segment of every visible edge, in edge order. */
  function VisibleLineSegments(edges: seq<Edge>): (r: seq<LineSegment>)
    ensures |r| == CountVisible(edges) <= |edges|
    ensures forall s :: s in r <==> exists e :: e in edges && e.visible && s == ClippedSegment(e)
  {
    if |edges| == 0 then []
    else
      var rest := VisibleLineSegments(edges[1..]);
      assert forall e :: e in edges <==> e == edges[0] || e in edges[1..];
      if edges[0].visible then [ClippedSegment(edges[0])] + rest else rest
  }

  /** The segments of a concatenation are the concatenation of the segments:
      the output keeps the order of the input. */
  lemma {:induction false} VisibleLineSegmentsAppend(a: seq<Edge>, b: seq<Edge>)
    ensures VisibleLineSegments(a + b) == VisibleLineSegments(a) + VisibleLineSegments(b)
    decreases |a|
  {
    if |a| > 0 {
      assert (a + b)[1..] == a[1..] + b;
      VisibleLineSegmentsAppend(a[1..], b);
    } else {
      assert a + b == b;
    }
  }

  /** An invisible edge contributes nothing and a visible one contributes
      exactly its clipped segment. */
  lemma VisibleLineSegmentsOfOne(e: Edge)
    ensures VisibleLineSegments([e]) == if e.visible then [ClippedSegment(e)] else []
  {
    assert [e][1..] == [];
  }

  /** The edge has a site, on either side, at `coord` as the engine's
      vector equality sees it: within `VECTOR_EPSILON`. */
  predicate Touches(coord: Point, e: Edge) {
    (e.leftSite.Some? && VectorEqual(e.leftSite.value.coord, coord))
    || (e.rightSite.Some? && VectorEqual(e.rightSite.value.coord, coord))
  }

  /** The edges that border the site at `coord`, in input order. */
  function SelectEdgesForSitePoint(coord: Point, edges: seq<Edge>): (r: seq<Edge>)
    ensures |r| <= |edges|
    ensures forall e :: e in r <==> e in edges && Touches(coord, e)
  {
    if |edges| == 0 then []
    else
      var rest := SelectEdgesForSitePoint(coord, edges[1..]);
      assert forall e :: e in edges <==> e == edges[0] || e in edges[1..];
      if Touches(coord, edges[0]) then [edges[0]] + rest else rest
  }

  /** `sub` is obtained from `s` by deleting elements. */
  predicate IsSubsequence(sub: seq<Edge>, s: seq<Edge>)
    decreases |s|
  {
    if |sub| == 0 then true
    else if |s| == 0 then false
    else if sub[0] == s[0] then IsSubsequence(sub[1..], s[1..])
    else IsSubsequence(sub, s[1..])
  }

  /** The selection is an order-preserving subsequence of the input. */
  lemma {:induction false} SelectIsSubsequence(coord: Point, edges: seq<Edge>)
    ensures IsSubsequence(SelectEdgesForSitePoint(coord, edges), edges)
    decreases |edges|
  {
    if |edges| > 0 {
      SelectIsSubsequence(coord, edges[1..]);
      var r := SelectEdgesForSitePoint(coord, edges);
      if Touches(coord, edges[0]) {
        assert r[1..] == SelectEdgesForSitePoint(coord, edges[1..]);
      }
    }
  }

  /** An edge with no site on either side is never selected. */
  lemma SelectSkipsSiteless(coord: Point, edges: seq<Edge>, e: Edge)
    requires e.leftSite.None? && e.rightSite.None?
    ensures e !in SelectEdgesForSitePoint(coord, edges)
  {
  }

  /** Every edge with a site exactly at `coord` is selected. */
  lemma SelectKeepsExactSites(coord: Point, edges: seq<Edge>, e: Edge)
    requires e in edges
    requires (e.leftSite.Some? && e.leftSite.value.coord == coord)
             || (e.rightSite.Some? && e.rightSite.value.coord == coord)
    ensures e in SelectEdgesForSitePoint(coord, edges)
  {
  }

  /** Selecting again with the same coordinate changes nothing. */
  lemma {:induction false} SelectIdempotent(coord: Point, edges: seq<Edge>)
    ensures SelectEdgesForSitePoint(coord, SelectEdgesForSitePoint(coord, edges))
         == SelectEdgesForSitePoint(coord, edges)
    decreases |edges|
  {
    if |edges| > 0 {
      SelectIdempotent(coord, edges[1..]);
      var rest := SelectEdgesForSitePoint(coord, edges[1..]);
      if Touches(coord, edges[0]) {
        assert ([edges[0]] + rest)[1..] == rest;
      }
    }
  }
}
