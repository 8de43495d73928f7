/** A site's part in the diagram: the sort comparator that renumbers sites,
    the neighbour lookup, and the assembly of the site's region polygon
    from its edges (reorder, clip to the bounds, join along the border,
    make counter-clockwise), cached in the site. */
module Sites {

  import opened Wrappers
  import opened Geometry
  import opened Diagram
  import opened Bounds
  import opened Polygon
  import opened EdgeReorderer
  import Voronoi

  /** The result of `Compare` and the two sites afterwards: only their
      indices can have changed. */
  datatype Compared = Compared(result: int, s1: Site, s2: Site)

  /** `Compare`: the `(y, x)` comparison of the two sites; when they are
      out of index order the two indices are swapped, so that the smaller
      site carries the smaller index. */
  function Compare(s1: Site, s2: Site): (r: Compared)
    ensures r.result == Voronoi.CompareByYThenX(s1, s2)
    ensures r.s1 == s1.(index := r.s1.index) && r.s2 == s2.(index := r.s2.index)
    ensures multiset{r.s1.index, r.s2.index} == multiset{s1.index, s2.index}
    ensures r.result == -1 ==> r.s1.index <= r.s2.index
    ensures r.result == 1 ==> r.s2.index <= r.s1.index
    ensures r.result == 0 ==> r.s1 == s1 && r.s2 == s2
  {
    var c := Voronoi.CompareByYThenX(s1, s2);
    if c == -1 && s1.index > s2.index then Compared(c, s1.(index := s2.index), s2.(index := s1.index))
    else if c == 1 && s2.index > s1.index then Compared(c, s1.(index := s2.index), s2.(index := s1.index))
    else Compared(c, s1, s2)
  }

  /** Comparing in the other order gives the negated result and the same
      final indices. */
  lemma CompareSymmetric(s1: Site, s2: Site)
    ensures Compare(s2, s1) == Compared(-Compare(s1, s2).result, Compare(s1, s2).s2, Compare(s1, s2).s1)
  {
    Voronoi.CompareAntisymmetric(s1, s2);
  }

  /** Sites already in index order are left alone. */
  lemma CompareKeepsOrderedIndices(s1: Site, s2: Site)
    requires Voronoi.CompareByYThenX(s1, s2) == -1 ==> s1.index <= s2.index
    requires Voronoi.CompareByYThenX(s1, s2) == 1 ==> s2.index <= s1.index
    ensures Compare(s1, s2).s1 == s1 && Compare(s1, s2).s2 == s2
  {
  }

  /** The tolerance of `CloseEnough`. */
  const EPSILON: real := 0.005

  /** Two points closer than `EPSILON`, stated on squared distances. */
  predicate CloseEnough(p: Point, q: Point) {
    SquaredDistance(p, q) < Sq(EPSILON)
  }

  /** `CloseEnough` is exactly "the distance is below EPSILON". */
  lemma CloseEnoughIsDistanceBelowEpsilon(p: Point, q: Point, d: real)
    requires IsDistance(p, q, d)
    ensures CloseEnough(p, q) <==> d < EPSILON
  {
    RootOrder(d, EPSILON);
  }

  /** An edge together with its orientation in the reordered list. */
  datatype OrientedEdge = OrientedEdge(edge: Edge, lr: LR)

  /** The near end (where the chain enters) and the far end of an edge. */
  function NearEnd(oe: OrientedEdge): Point {
    ClippedEnd(oe.edge, oe.lr)
  }

  function FarEnd(oe: OrientedEdge): Point {
    ClippedEnd(oe.edge, Other(oe.lr))
  }

  /** The corners inserted between two points that are not close: none
      when they share an x or a y, else the corner table. */
  function Gap(right: Point, newPt: Point, b: Rect): (r: seq<Point>)
    ensures |r| <= 2 && forall k :: 0 <= k < |r| ==> IsCorner(r[k], b)
    ensures right.x == newPt.x || right.y == newPt.y ==> r == []
  {
    if right.x != newPt.x && right.y != newPt.y then CornerTable(right, newPt, b) else []
  }

  /** Between two points on single border lines that differ in both
      coordinates, the inserted corners lead from one to the other along the
      border. */
  lemma GapFollowsBorder(right: Point, newPt: Point, b: Rect)
    ensures SingleSide(BoundsCheck(right, b)).Some? && SingleSide(BoundsCheck(newPt, b)).Some?
            && right.x != newPt.x && right.y != newPt.y ==>
              AlongBorder([right] + Gap(right, newPt, b) + [newPt], b)
  {
  }

  /** The far end, unless it is close to the first point of the ring. */
  function FarPart(pts: seq<Point>, far: Point): (r: seq<Point>)
    requires |pts| > 0
    ensures |r| <= 1
    ensures r == [] <==> CloseEnough(pts[0], far)
  {
    if CloseEnough(pts[0], far) then [] else [far]
  }

  /** `Connect`: hook the edge `oe` onto the end of the point list. When its
      near end is apart from the last point, first the border corners
      between them are appended and then, unless closing up, the near end
      itself; when closing up and apart nothing else is appended. In every
      other case the far end is appended unless it is close to the first
      point. */
  function Connect(pts: seq<Point>, oe: OrientedEdge, b: Rect, closingUp: bool): (r: seq<Point>)
    requires |pts| > 0
    ensures |r| >= |pts| && r[..|pts|] == pts
    ensures forall k :: |pts| <= k < |r| ==> IsCorner(r[k], b) || r[k] == NearEnd(oe) || r[k] == FarEnd(oe)
    ensures CloseEnough(pts[Last(pts)], NearEnd(oe)) ==>
              (r == pts + [FarEnd(oe)] && !CloseEnough(pts[0], FarEnd(oe)))
              || (r == pts && CloseEnough(pts[0], FarEnd(oe)))
    ensures !CloseEnough(pts[Last(pts)], NearEnd(oe)) && closingUp ==>
              r == pts + Gap(pts[Last(pts)], NearEnd(oe), b)
    ensures !CloseEnough(pts[Last(pts)], NearEnd(oe)) && !closingUp ==>
              r == pts + Gap(pts[Last(pts)], NearEnd(oe), b) + [NearEnd(oe)] + FarPart(pts, FarEnd(oe))
  {
    var right := pts[|pts| - 1];
    var newPt := NearEnd(oe);
    if !CloseEnough(right, newPt) then
      var withCorners := pts + Gap(right, newPt, b);
      if closingUp then withCorners
      else withCorners + [newPt] + FarPart(pts, FarEnd(oe))
    else pts + FarPart(pts, FarEnd(oe))
  }

  /** Between two border points that differ in both coordinates, `Connect`
      leads from the last point through the corners it inserts to the
      edge's near end along the border. */
  lemma ConnectFollowsBorder(pts: seq<Point>, oe: OrientedEdge, b: Rect, closingUp: bool)
    requires |pts| > 0
    ensures var r, last, near := Connect(pts, oe, b, closingUp), pts[Last(pts)], NearEnd(oe);
            !CloseEnough(last, near) && last.x != near.x && last.y != near.y
            && SingleSide(BoundsCheck(last, b)).Some? && SingleSide(BoundsCheck(near, b)).Some? ==>
              |pts| + |Gap(last, near, b)| <= |r|
              && AlongBorder(r[Last(pts)..|pts| + |Gap(last, near, b)|] + [near], b)
  {
    var r, last, near := Connect(pts, oe, b, closingUp), pts[Last(pts)], NearEnd(oe);
    if !CloseEnough(last, near) {
      var gap := Gap(last, near, b);
      GapFollowsBorder(last, near, b);
      var along := [last] + gap + [near];
      if closingUp {
        assert r == pts + gap;
      } else {
        assert r == pts + gap + [near] + FarPart(pts, FarEnd(oe));
      }
      assert r[Last(pts)..|pts| + |gap|] + [near] == along;
    }
  }

  function Last(pts: seq<Point>): nat
    requires |pts| > 0
  {
    |pts| - 1
  }

  /** The edges of a reordered list paired with their orientations. */
  function Zip(edges: seq<Edge>, orientations: seq<LR>): (r: seq<OrientedEdge>)
    requires |edges| <= |orientations|
    ensures |r| == |edges|
    ensures forall k :: 0 <= k < |edges| ==> r[k] == OrientedEdge(edges[k], orientations[k])
  {
    seq(|edges|, k requires 0 <= k < |edges| => OrientedEdge(edges[k], orientations[k]))
  }

  /** The clipped ends of the visible edges. */
  function VisibleEnds(chain: seq<OrientedEdge>): (r: set<Point>)
    ensures forall k :: 0 <= k < |chain| && chain[k].edge.visible ==>
              chain[k].edge.leftClippedEnd in r && chain[k].edge.rightClippedEnd in r
  {
    if |chain| == 0 then {}
    else
      (if chain[0].edge.visible then {chain[0].edge.leftClippedEnd, chain[0].edge.rightClippedEnd} else {})
      + VisibleEnds(chain[1..])
  }

  /** The visible edges of the chain, in order. */
  function VisibleOnly(chain: seq<OrientedEdge>): (r: seq<OrientedEdge>)
    ensures |r| <= |chain|
    ensures forall k :: 0 <= k < |r| ==> r[k].edge.visible
  {
    if |chain| == 0 then []
    else if chain[0].edge.visible then [chain[0]] + VisibleOnly(chain[1..])
    else VisibleOnly(chain[1..])
  }

  /** Every point is a corner of the bounds or a clipped end of a visible
      edge. */
  predicate MadeOf(pts: seq<Point>, chain: seq<OrientedEdge>, b: Rect) {
    forall k :: 0 <= k < |pts| ==> IsCorner(pts[k], b) || pts[k] in VisibleEnds(chain)
  }

  /** The `for` loop of `ClipToBounds`: connect every visible edge of
      `rest` in turn, skipping the invisible ones. */
  function ConnectAll(pts: seq<Point>, rest: seq<OrientedEdge>, b: Rect): (r: seq<Point>)
    requires |pts| > 0
    ensures |r| >= |pts| && r[..|pts|] == pts
    ensures forall k :: |pts| <= k < |r| ==> IsCorner(r[k], b) || r[k] in VisibleEnds(rest)
    decreases |rest|
  {
    if |rest| == 0 then pts
    else
      var next := if rest[0].edge.visible then Connect(pts, rest[0], b, false) else pts;
      var r := ConnectAll(next, rest[1..], b);
      assert r[..|pts|] == next[..|pts|] == pts;
      assert forall k :: |pts| <= k < |next| ==> IsCorner(r[k], b) || r[k] in VisibleEnds(rest) by {
        forall k | |pts| <= k < |next|
          ensures IsCorner(r[k], b) || r[k] in VisibleEnds(rest)
        {
          assert r[k] == r[..|next|][k] == next[k];
          assert rest[0].edge.visible;
          assert NearEnd(rest[0]) in VisibleEnds(rest) && FarEnd(rest[0]) in VisibleEnds(rest);
        }
      }
      r
  }

  /** `ClipToBounds` on the paired list: find the first visible edge, seed
      the polygon with its near and far ends, connect the visible edges
      after it, then close up with that first edge again. */
  function ClipChain(chain: seq<OrientedEdge>, b: Rect): (r: seq<Point>)
    ensures r == [] <==> forall k :: 0 <= k < |chain| ==> !chain[k].edge.visible
    ensures r != [] ==> |r| >= 2 && r[0] == NearEnd(FirstVisible(chain)) && r[1] == FarEnd(FirstVisible(chain))
    ensures MadeOf(r, chain, b)
  {
    if |chain| == 0 then []
    else if !chain[0].edge.visible then
      var r := ClipChain(chain[1..], b);
      assert forall k :: 1 <= k < |chain| ==> chain[k] == chain[1..][k - 1];
      r
    else
      var first := chain[0];
      var seed := [NearEnd(first), FarEnd(first)];
      var body := ConnectAll(seed, chain[1..], b);
      var r := Connect(body, first, b, true);
      assert r[..2] == body[..2] == seed;
      assert NearEnd(first) in VisibleEnds(chain) && FarEnd(first) in VisibleEnds(chain);
      assert forall k :: 0 <= k < |r| ==> IsCorner(r[k], b) || r[k] in VisibleEnds(chain) by {
        forall k | 0 <= k < |r|
          ensures IsCorner(r[k], b) || r[k] in VisibleEnds(chain)
        {
          if k < |body| {
            assert r[k] == body[k];
          }
        }
      }
      r
  }

  /** The first visible edge of a chain that has one. */
  function FirstVisible(chain: seq<OrientedEdge>): (r: OrientedEdge)
    requires exists k :: 0 <= k < |chain| && chain[k].edge.visible
    ensures r.edge.visible
    ensures exists i :: 0 <= i < |chain| && chain[i] == r && forall k :: 0 <= k < i ==> !chain[k].edge.visible
  {
    if chain[0].edge.visible then chain[0]
    else
      assert exists k :: 0 <= k < |chain[1..]| && chain[1..][k].edge.visible by {
        var k :| 0 <= k < |chain| && chain[k].edge.visible;
        assert chain[1..][k - 1] == chain[k];
      }
      var r := FirstVisible(chain[1..]);
      assert exists i :: 0 <= i < |chain| && chain[i] == r && forall k :: 0 <= k < i ==> !chain[k].edge.visible by {
        var i :| 0 <= i < |chain[1..]| && chain[1..][i] == r && forall k :: 0 <= k < i ==> !chain[1..][k].edge.visible;
        assert chain[i + 1] == r;
        assert forall k :: 0 <= k < i + 1 ==> !chain[k].edge.visible by {
          forall k | 0 <= k < i + 1 ensures !chain[k].edge.visible {
            if k > 0 { assert chain[k] == chain[1..][k - 1]; }
          }
        }
      }
      r
  }

  /** Invisible edges contribute nothing: the connection loop gives the same
      points once they are dropped. */
  lemma {:induction false} ConnectAllIgnoresInvisible(pts: seq<Point>, rest: seq<OrientedEdge>, b: Rect)
    requires |pts| > 0
    ensures ConnectAll(pts, rest, b) == ConnectAll(pts, VisibleOnly(rest), b)
    decreases |rest|
  {
    if |rest| > 0 {
      if rest[0].edge.visible {
        var next := Connect(pts, rest[0], b, false);
        ConnectAllIgnoresInvisible(next, rest[1..], b);
        assert VisibleOnly(rest)[1..] == VisibleOnly(rest[1..]);
      } else {
        ConnectAllIgnoresInvisible(pts, rest[1..], b);
      }
    }
  }

  /** `ClipToBounds` gives the same polygon once the invisible edges are
      dropped from the list. */
  lemma {:induction false} ClipChainIgnoresInvisible(chain: seq<OrientedEdge>, b: Rect)
    ensures ClipChain(chain, b) == ClipChain(VisibleOnly(chain), b)
    decreases |chain|
  {
    if |chain| > 0 {
      if !chain[0].edge.visible {
        ClipChainIgnoresInvisible(chain[1..], b);
      } else {
        var v := VisibleOnly(chain);
        assert v[0] == chain[0] && v[1..] == VisibleOnly(chain[1..]);
        var seed := [NearEnd(chain[0]), FarEnd(chain[0])];
        ConnectAllIgnoresInvisible(seed, chain[1..], b);
        VisibleOnlyIdempotent(chain[1..]);
      }
    }
  }

  lemma {:induction false} VisibleOnlyIdempotent(chain: seq<OrientedEdge>)
    ensures VisibleOnly(VisibleOnly(chain)) == VisibleOnly(chain)
    decreases |chain|
  {
    if |chain| > 0 {
      VisibleOnlyIdempotent(chain[1..]);
      if chain[0].edge.visible {
        assert ([chain[0]] + VisibleOnly(chain[1..]))[1..] == VisibleOnly(chain[1..]);
      }
    }
  }

  /** `ClipToBounds` over the site's reordered edges and their orientations. */
  function ClipToBounds(edges: seq<Edge>, orientations: seq<LR>, b: Rect): (r: seq<Point>)
    requires |edges| <= |orientations|
    ensures r == [] <==> forall k :: 0 <= k < |edges| ==> !edges[k].visible
    ensures MadeOf(r, Zip(edges, orientations), b)
  {
    ClipChain(Zip(edges, orientations), b)
  }

  /** The state a site keeps for its region: its edges, the orientations
      once reordered (null before), and the cached region (null before). */
  datatype SiteCell = SiteCell(site: Site, edges: seq<Edge>, orientations: Option<seq<LR>>, region: Option<seq<Point>>)

  /** A call on a site: it returns a value and the site's state afterwards,
      or it never returns because the reorderer stalls. */
  datatype Call<+T> = Returns(value: T, after: SiteCell) | Hangs

  /** The site's `ReorderEdges`: replace the edges by the reordered list and
      record the orientations; None when the reorderer never returns. */
  function Reorder(cell: SiteCell): (r: Option<SiteCell>)
    requires |cell.edges| > 0
    ensures r.Some? ==> r.value.site == cell.site && r.value.region == cell.region && r.value.orientations.Some?
                        && |r.value.edges| <= |r.value.orientations.value|
    ensures r.Some? && |r.value.edges| > 0 ==> multiset(r.value.edges) == multiset(cell.edges)
    ensures r.None? <==> ReorderEdges(cell.edges, ByVertex).NoProgress?
  {
    match ReorderEdges(cell.edges, ByVertex)
    case NoProgress(_) => None
    case Reordered(ro) => Some(cell.(edges := ro.edges, orientations := Some(ro.orientations)))
  }

  /** The clipped polygon made counter-clockwise (or left degenerate). */
  function Assemble(edges: seq<Edge>, orientations: seq<LR>, b: Rect): (r: seq<Point>)
    requires |edges| <= |orientations|
    ensures GetWinding(r) != CLOCKWISE
    ensures Area(r) == Area(ClipToBounds(edges, orientations, b))
    ensures r == ClipToBounds(edges, orientations, b) || r == Reverse(ClipToBounds(edges, orientations, b))
    ensures GetWinding(ClipToBounds(edges, orientations, b)) != CLOCKWISE ==> r == ClipToBounds(edges, orientations, b)
    ensures MadeOf(r, Zip(edges, orientations), b)
  {
    var clipped := ClipToBounds(edges, orientations, b);
    if GetWinding(clipped) == CLOCKWISE then
      ReverseFlipsWinding(clipped);
      AreaReverseInvariant(clipped);
      ReverseMadeOf(clipped, Zip(edges, orientations), b);
      Reverse(clipped)
    else clipped
  }

  /** Reversing a polygon keeps it made of the same corners and ends. */
  lemma ReverseMadeOf(pts: seq<Point>, chain: seq<OrientedEdge>, b: Rect)
    requires MadeOf(pts, chain, b)
    ensures MadeOf(Reverse(pts), chain, b)
  {
  }

  /** `Region`: an empty list for a site without edges; otherwise computed
      on the first call (while no orientations are recorded) and cached,
      and from then on the cached list is returned whatever the bounds. */
  function Region(cell: SiteCell, b: Rect): (r: Call<Option<seq<Point>>>)
    ensures |cell.edges| == 0 ==> r == Returns(Some([]), cell)
    ensures |cell.edges| > 0 && cell.orientations.Some? ==> r == Returns(cell.region, cell)
    ensures r.Hangs? <==> |cell.edges| > 0 && cell.orientations.None? && ReorderEdges(cell.edges, ByVertex).NoProgress?
    ensures r.Returns? && |cell.edges| > 0 && cell.orientations.None? ==>
              r.value.Some? && GetWinding(r.value.value) != CLOCKWISE
              && r.after.region == r.value && r.after.orientations.Some? && r.after.site == cell.site
    ensures r.Returns? && |cell.edges| > 0 && cell.orientations.None? ==>
              r.after == Reorder(cell).value.(region := r.value)
              && r.value.value == Assemble(r.after.edges, r.after.orientations.value, b)
              && MadeOf(r.value.value, Zip(r.after.edges, r.after.orientations.value), b)
  {
    if |cell.edges| == 0 then Returns(Some([]), cell)
    else if cell.orientations.None? then
      match Reorder(cell)
      case None => Hangs
      case Some(c1) =>
        var reg := Assemble(c1.edges, c1.orientations.value, b);
        Returns(Some(reg), c1.(region := Some(reg)))
    else Returns(cell.region, cell)
  }

  /** The first result is cached: calling `Region` again, with any bounds,
      returns the same list and changes nothing. */
  lemma RegionIsCached(cell: SiteCell, b1: Rect, b2: Rect)
    requires Region(cell, b1).Returns?
    ensures var r := Region(cell, b1);
            Region(r.after, b2) == Returns(r.value, r.after)
  {
    var r := Region(cell, b1);
    if |cell.edges| > 0 && cell.orientations.None? {
      var c1 := Reorder(cell).value;
      if |c1.edges| == 0 {
        assert ClipToBounds(c1.edges, c1.orientations.value, b1) == [];
        assert GetWinding([]) == NONE;
      }
    }
  }

  /** `NeighborSite`: the site across the edge from `self`, or null when
      `self` is on neither side. */
  function NeighborSite(self: Site, e: Edge): (r: Option<Site>)
    ensures e.leftSite == Some(self) ==> r == e.rightSite
    ensures e.leftSite != Some(self) && e.rightSite == Some(self) ==> r == e.leftSite
    ensures e.leftSite != Some(self) && e.rightSite != Some(self) ==> r.None?
  {
    if e.leftSite == Some(self) then e.rightSite
    else if e.rightSite == Some(self) then e.leftSite
    else None
  }

  /** Across an edge between two different sites each is the other's
      neighbour. */
  lemma NeighborSiteSymmetric(a: Site, b: Site, e: Edge)
    requires a != b
    requires {e.leftSite, e.rightSite} == {Some(a), Some(b)}
    ensures NeighborSite(a, e) == Some(b) && NeighborSite(b, e) == Some(a)
  {
    assert Some(a) in {e.leftSite, e.rightSite};
    assert Some(b) in {e.leftSite, e.rightSite};
  }

  function Neighbors(self: Site, edges: seq<Edge>): (r: seq<Option<Site>>)
    ensures |r| == |edges|
    ensures forall k :: 0 <= k < |edges| ==> r[k] == NeighborSite(self, edges[k])
  {
    seq(|edges|, k requires 0 <= k < |edges| => NeighborSite(self, edges[k]))
  }

  /** `NeighborSites`: an empty list for a site without edges; otherwise
      reorder the edges if that has not happened yet (without computing the
      region) and give one neighbour per edge. */
  function NeighborSites(cell: SiteCell): (r: Call<seq<Option<Site>>>)
    ensures |cell.edges| == 0 ==> r == Returns([], cell)
    ensures r.Returns? ==> |r.value| == |r.after.edges|
                           && (forall k :: 0 <= k < |r.value| ==> r.value[k] == NeighborSite(cell.site, r.after.edges[k]))
                           && r.after.region == cell.region && r.after.site == cell.site
                           && (|cell.edges| > 0 ==> r.after.orientations.Some?)
    ensures r.Returns? && |r.after.edges| > 0 ==> multiset(r.after.edges) == multiset(cell.edges)
    ensures r.Hangs? <==> |cell.edges| > 0 && cell.orientations.None? && ReorderEdges(cell.edges, ByVertex).NoProgress?
  {
    if |cell.edges| == 0 then Returns([], cell)
    else if cell.orientations.None? then
      match Reorder(cell)
      case None => Hangs
      case Some(c1) => Returns(Neighbors(c1.site, c1.edges), c1)
    else Returns(Neighbors(cell.site, cell.edges), cell)
  }

  /** A site as created: edges attached by the sweep, nothing reordered and
      no region cached. */
  predicate Fresh(cell: SiteCell) {
    |cell.edges| > 0 && cell.orientations.None? && cell.region.None?
  }

  /** Calling `NeighborSites` on a fresh site records the orientations but
      leaves the region uncomputed, so a later `Region` call returns null
      instead of the polygon. */
  lemma NeighborSitesBeforeRegionLosesRegion(cell: SiteCell, b: Rect)
    requires Fresh(cell) && NeighborSites(cell).Returns? && |NeighborSites(cell).after.edges| > 0
    ensures Region(NeighborSites(cell).after, b) == Returns(None, NeighborSites(cell).after)
    ensures Region(cell, b).Returns? && Region(cell, b).value.Some?
  {
  }

  /** `Region` as evidently intended: compute whenever no region is cached,
      reusing orientations recorded by an earlier `NeighborSites`. */
  function RegionCorrected(cell: SiteCell, b: Rect): (r: Call<Option<seq<Point>>>)
    ensures |cell.edges| == 0 ==> r == Returns(Some([]), cell)
    ensures r.Returns? && |cell.edges| > 0 ==> r.value.Some? && r.after.region == r.value
    ensures |cell.edges| > 0 && cell.region.Some? && cell.orientations.Some? ==> r == Returns(cell.region, cell)
  {
    if |cell.edges| == 0 then Returns(Some([]), cell)
    else if cell.region.Some? && cell.orientations.Some? then Returns(cell.region, cell)
    else
      var c1 := if cell.orientations.Some? then Some(cell) else Reorder(cell);
      match c1
      case None => Hangs
      case Some(c) =>
        if |c.edges| <= |c.orientations.value| then
          var reg := Assemble(c.edges, c.orientations.value, b);
          Returns(Some(reg), c.(region := Some(reg)))
        else
          Returns(Some([]), c.(region := Some([])))
  }

  /** With the correction the order of the calls no longer matters: after
      `NeighborSites` the region is the one a fresh site computes, and on a
      fresh site the corrected `Region` agrees with `Region`. */
  lemma RegionCorrectedAfterNeighborSites(cell: SiteCell, b: Rect)
    requires Fresh(cell) && NeighborSites(cell).Returns?
    ensures RegionCorrected(cell, b) == Region(cell, b)
    ensures RegionCorrected(NeighborSites(cell).after, b).value == Region(cell, b).value
  {
  }
}
