/** The pieces of the Voronoi diagram object that can be stated without the
    sweep's data structures: the `(y, x)` site order, the choice between a
    site event and a circle event, the region selectors, the bottom/top
    swap at a circle event, the ordered hull points and the site table. */
module Voronoi {

  import opened Wrappers
  import opened Geometry
  import opened Diagram
  import opened EdgeReorderer

  /** Reference order of the sweep: `p` comes strictly before `q` when it
      is lower, or level with `q` and further left. */
  predicate SweepBefore(p: Point, q: Point) {
    p.y < q.y || (p.y == q.y && p.x < q.x)
  }

  /** `CompareByYThenX` on the coordinates of two sites. */
  function CompareByYThenX(s1: Site, s2: Site): (r: int)
    ensures r == -1 || r == 0 || r == 1
    ensures r == -1 <==> SweepBefore(s1.coord, s2.coord)
    ensures r == 1 <==> SweepBefore(s2.coord, s1.coord)
    ensures r == 0 <==> s1.coord == s2.coord
  {
    if s1.coord.y < s2.coord.y then -1
    else if s1.coord.y > s2.coord.y then 1
    else if s1.coord.x < s2.coord.x then -1
    else if s1.coord.x > s2.coord.x then 1
    else 0
  }

  /** The overload comparing a site with a bare point. */
  function CompareSiteToPoint(s1: Site, p: Point): (r: int)
    ensures r == -1 || r == 0 || r == 1
    ensures r == -1 <==> SweepBefore(s1.coord, p)
    ensures r == 1 <==> SweepBefore(p, s1.coord)
    ensures r == 0 <==> s1.coord == p
  {
    if s1.coord.y < p.y then -1
    else if s1.coord.y > p.y then 1
    else if s1.coord.x < p.x then -1
    else if s1.coord.x > p.x then 1
    else 0
  }

  /** The two overloads agree: comparing with a point is comparing with any
      site at that point. */
  lemma OverloadsAgree(s1: Site, s2: Site)
    ensures CompareSiteToPoint(s1, s2.coord) == CompareByYThenX(s1, s2)
  {
  }

  /** The comparator is antisymmetric. */
  lemma CompareAntisymmetric(s1: Site, s2: Site)
    ensures CompareByYThenX(s1, s2) == -CompareByYThenX(s2, s1)
  {
  }

  /** The comparator is transitive, so it is a total preorder on sites. */
  lemma CompareTransitive(s1: Site, s2: Site, s3: Site)
    requires CompareByYThenX(s1, s2) <= 0 && CompareByYThenX(s2, s3) <= 0
    ensures CompareByYThenX(s1, s3) <= 0
    ensures CompareByYThenX(s1, s2) < 0 || CompareByYThenX(s2, s3) < 0 ==> CompareByYThenX(s1, s3) < 0
  {
  }

  /** What one iteration of the sweep loop does next. */
  datatype Event = SiteEvent | CircleEvent | Stop

  /** The event rule: `newSite` is the next unswept site (None when all are
      swept) and `heapMin` is the least circle-event point of the priority
      queue (None when the queue is empty). */
  function NextEvent(newSite: Option<Site>, heapMin: Option<Point>): (ev: Event)
    ensures ev == SiteEvent <==> newSite.Some? && (heapMin.None? || SweepBefore(newSite.value.coord, heapMin.value))
    ensures ev == CircleEvent ==> heapMin.Some?
    ensures ev == Stop <==> newSite.None? && heapMin.None?
  {
    if newSite.Some? && (heapMin.None? || CompareSiteToPoint(newSite.value, heapMin.value) < 0) then SiteEvent
    else if heapMin.Some? then CircleEvent
    else Stop
  }

  /** A site level with the queue's least point, or behind it, waits: the
      circle event is handled first. */
  lemma CircleEventFirstOnTie(s: Site, p: Point)
    requires !SweepBefore(s.coord, p)
    ensures NextEvent(Some(s), Some(p)) == CircleEvent
  {
  }

  /** The site on the half-edge's own side of its edge, or the bottom-most
      site when the half-edge has no edge. */
  function LeftRegion(he: Halfedge, bottomMostSite: Option<Site>): (r: Option<Site>)
    ensures he.edge.None? ==> r == bottomMostSite
    ensures he.edge.Some? ==> r == SiteOn(he.edge.value, he.leftRight)
  {
    match he.edge
    case None => bottomMostSite
    case Some(e) => SiteOn(e, he.leftRight)
  }

  /** The site on the other side of the half-edge's edge, or the bottom-most
      site when the half-edge has no edge. */
  function RightRegion(he: Halfedge, bottomMostSite: Option<Site>): (r: Option<Site>)
    ensures he.edge.None? ==> r == bottomMostSite
    ensures he.edge.Some? ==> r == SiteOn(he.edge.value, Other(he.leftRight))
  {
    match he.edge
    case None => bottomMostSite
    case Some(e) => SiteOn(e, Other(he.leftRight))
  }

  /** The two selectors swap when the half-edge faces the other way, and on
      an edge they give its two sites. */
  lemma RegionsFlip(e: Option<Edge>, lr: LR, bottomMostSite: Option<Site>)
    ensures LeftRegion(Halfedge(e, Other(lr)), bottomMostSite) == RightRegion(Halfedge(e, lr), bottomMostSite)
    ensures RightRegion(Halfedge(e, Other(lr)), bottomMostSite) == LeftRegion(Halfedge(e, lr), bottomMostSite)
    ensures e.Some? ==>
      {LeftRegion(Halfedge(e, lr), bottomMostSite), RightRegion(Halfedge(e, lr), bottomMostSite)}
      == {e.value.leftSite, e.value.rightSite}
  {
  }

  /** The ordering step of a circle event: the bisector is created from the
      lower site to the upper one, and its new half-edge faces RIGHT
      exactly when the two had to be swapped. */
  function OrderBisectorSites(bottomSite: Site, topSite: Site): (r: (Site, Site, LR))
    ensures r.0.coord.y <= r.1.coord.y
    ensures r.2 == RIGHT <==> bottomSite.coord.y > topSite.coord.y
    ensures r.2 == LEFT ==> r.0 == bottomSite && r.1 == topSite
    ensures r.2 == RIGHT ==> r.0 == topSite && r.1 == bottomSite
  {
    if bottomSite.coord.y > topSite.coord.y then (topSite, bottomSite, RIGHT)
    else (bottomSite, topSite, LEFT)
  }

  /** Ordering is idempotent: sites already in order stay in order and keep
      the LEFT orientation. */
  lemma OrderBisectorSitesIdempotent(bottomSite: Site, topSite: Site)
    ensures var (b, t, _) := OrderBisectorSites(bottomSite, topSite);
            OrderBisectorSites(b, t) == (b, t, LEFT)
  {
  }

  /** Why no ordered hull could be produced. */
  datatype HullError =
    | NullSite        // a reordered edge has no site on its orientation side
    | NeverReturns    // the reorderer stalls and the C# loop never ends

  /** The site coordinate on each edge's orientation side, in order. */
  function OrientedSiteCoords(edges: seq<Edge>, orientations: seq<LR>): (r: Result<seq<Point>, HullError>)
    requires |edges| <= |orientations|
    ensures r.Success? ==> |r.value| == |edges|
    ensures r.Success? ==> forall i :: 0 <= i < |edges| ==>
              SiteOn(edges[i], orientations[i]).Some? && r.value[i] == SiteOn(edges[i], orientations[i]).value.coord
    ensures r.Failure? <==> exists i :: 0 <= i < |edges| && SiteOn(edges[i], orientations[i]).None?
    ensures r.Failure? ==> r.error == NullSite
  {
    if |edges| == 0 then Success([])
    else match SiteOn(edges[0], orientations[0])
      case None => Failure(NullSite)
      case Some(s) =>
        match OrientedSiteCoords(edges[1..], orientations[1..])
        case Failure(err) => Failure(err)
        case Success(rest) =>
          assert forall i :: 1 <= i < |edges| ==> edges[i] == edges[1..][i - 1] && orientations[i] == orientations[1..][i - 1];
          Success([s.coord] + rest)
  }

  /** Edge `e` has, on side `lr`, a site at `p`. */
  predicate HasSiteAt(e: Edge, lr: LR, p: Point) {
    SiteOn(e, lr).Some? && SiteOn(e, lr).value.coord == p
  }

  /** Some edge of `edges` has a site at `p`. */
  predicate SiteOfSomeEdge(edges: seq<Edge>, p: Point) {
    exists e :: e in edges && (HasSiteAt(e, LEFT, p) || HasSiteAt(e, RIGHT, p))
  }

  /** The points walk along the reordered edges: edge `k` has point `k` on
      its orientation side and point `k + 1` on the other side. */
  predicate WalksEdges(ro: Reordering, pts: seq<Point>) {
    |ro.edges| == |ro.orientations| == |pts|
    && forall k :: 0 <= k < |pts| - 1 ==>
         HasSiteAt(ro.edges[k], ro.orientations[k], pts[k])
         && HasSiteAt(ro.edges[k], Other(ro.orientations[k]), pts[k + 1])
  }

  /** The hull points in order: reorder the hull edges by site and take each
      edge's site on its orientation side. Consecutive points are the two
      sites of one hull edge. */
  function HullVector2sInOrder(hullEdges: seq<Edge>): (r: Result<seq<Point>, HullError>)
    ensures |hullEdges| == 0 ==> r == Success([])
    ensures r.Success? ==> |r.value| == |hullEdges|
    ensures r.Success? ==> forall i :: 0 <= i < |r.value| ==>
              SiteOfSomeEdge(hullEdges, r.value[i])
    ensures r.Success? && |hullEdges| > 0 ==>
              ReorderEdges(hullEdges, BySite).Reordered?
              && WalksEdges(ReorderEdges(hullEdges, BySite).result, r.value)
    ensures r.Success? && |hullEdges| > 0 ==>
              forall i :: 0 <= i < |r.value| ==>
                HasSiteAt(ReorderEdges(hullEdges, BySite).result.edges[i],
                          ReorderEdges(hullEdges, BySite).result.orientations[i], r.value[i])
    ensures r == Failure(NeverReturns) <==> |hullEdges| > 0 && ReorderEdges(hullEdges, BySite).NoProgress?
    ensures r == Failure(NullSite) <==>
              |hullEdges| > 0 && ReorderEdges(hullEdges, BySite).Reordered?
              && exists i :: 0 <= i < |ReorderEdges(hullEdges, BySite).result.edges|
                   && SiteOn(ReorderEdges(hullEdges, BySite).result.edges[i],
                             ReorderEdges(hullEdges, BySite).result.orientations[i]).None?
  {
    if |hullEdges| == 0 then Success([])
    else match ReorderEdges(hullEdges, BySite)
      case NoProgress(_) => Failure(NeverReturns)
      case Reordered(ro) =>
        HullReorderIsComplete(hullEdges);
        var r := OrientedSiteCoords(ro.edges, ro.orientations);
        if r.Success? then
          HullPointsFromEdges(hullEdges, ro, r.value);
          r
        else r
  }

  /** When every hull edge has a site on both sides, the hull points are
      always produced unless the reorderer stalls. */
  lemma HullPointsWhenSitesPresent(hullEdges: seq<Edge>)
    requires forall e :: e in hullEdges ==> e.leftSite.Some? && e.rightSite.Some?
    ensures HullVector2sInOrder(hullEdges).Success? || HullVector2sInOrder(hullEdges) == Failure(NeverReturns)
  {
    if |hullEdges| > 0 && ReorderEdges(hullEdges, BySite).Reordered? {
      HullReorderIsComplete(hullEdges);
      var ro := ReorderEdges(hullEdges, BySite).result;
      forall i | 0 <= i < |ro.edges|
        ensures SiteOn(ro.edges[i], ro.orientations[i]).Some?
      {
        assert ro.edges[i] in multiset(ro.edges);
        assert ro.edges[i] in hullEdges;
      }
    }
  }

  /** Under the site criterion every hull edge is placed. */
  lemma HullReorderIsComplete(hullEdges: seq<Edge>)
    requires |hullEdges| > 0 && ReorderEdges(hullEdges, BySite).Reordered?
    ensures var ro := ReorderEdges(hullEdges, BySite).result;
            |ro.edges| == |hullEdges| && |ro.orientations| == |ro.edges|
            && multiset(ro.edges) == multiset(hullEdges) && Meets(ro.edges, ro.orientations, BySite)
  {
    var ro := ReorderEdges(hullEdges, BySite).result;
    if |ro.edges| == 0 {
      assert false;
    }
    assert |multiset(ro.edges)| == |multiset(hullEdges)|;
  }

  lemma HullPointsFromEdges(hullEdges: seq<Edge>, ro: Reordering, pts: seq<Point>)
    requires multiset(ro.edges) == multiset(hullEdges)
    requires |ro.orientations| == |ro.edges| && Meets(ro.edges, ro.orientations, BySite)
    requires |pts| == |ro.edges|
    requires forall i :: 0 <= i < |ro.edges| ==>
               SiteOn(ro.edges[i], ro.orientations[i]).Some? && pts[i] == SiteOn(ro.edges[i], ro.orientations[i]).value.coord
    ensures forall i :: 0 <= i < |pts| ==>
              SiteOfSomeEdge(hullEdges, pts[i])
    ensures WalksEdges(ro, pts)
  {
    forall i | 0 <= i < |pts|
      ensures SiteOfSomeEdge(hullEdges, pts[i])
    {
      var edge := ro.edges[i];
      assert edge in multiset(ro.edges);
      assert edge in hullEdges;
      if ro.orientations[i] == LEFT {
        assert HasSiteAt(edge, LEFT, pts[i]);
      } else {
        assert HasSiteAt(edge, RIGHT, pts[i]);
      }
    }
    forall k | 0 <= k < |pts| - 1
      ensures HasSiteAt(ro.edges[k], Other(ro.orientations[k]), pts[k + 1])
    {
      assert EndKey(ro.edges[k], BySite, ro.orientations[k]) == StartKey(ro.edges[k + 1], BySite, ro.orientations[k + 1]);
      assert HasSiteAt(ro.edges[k + 1], ro.orientations[k + 1], pts[k + 1]);
    }
  }

  /** The sites created from the input points and the map from location to
      site. */
  datatype SiteTable = SiteTable(sites: seq<Site>, byLocation: map<Point, Site>)

  /** Indexing a colour list shorter than the point list throws. */
  datatype AddSitesError = ColorIndexOutOfRange

  /** The colour of site `i`: `colors[i]`, or 0 when no colour list is given. */
  function ColorOf(colors: Option<seq<nat>>, i: nat): nat
    requires colors.Some? ==> i < |colors.value|
  {
    if colors.Some? then colors.value[i] else 0
  }

  /** Site `i` is the last one in `sites` at its location. */
  predicate LastAtLocation(sites: seq<Site>, i: nat)
    requires i < |sites|
  {
    forall j :: i < j < |sites| ==> sites[j].coord != sites[i].coord
  }

  /** The location map after adding `sites` in order, each overwriting any
      earlier entry at the same location. */
  function IndexByLocation(sites: seq<Site>): (m: map<Point, Site>)
    ensures forall p :: p in m ==> m[p] in sites && m[p].coord == p
  {
    if |sites| == 0 then map[]
    else
      var n := |sites| - 1;
      var prev := IndexByLocation(sites[..n]);
      assert forall s :: s in sites[..n] ==> s in sites;
      prev[sites[n].coord := sites[n]]
  }

  /** Every location added is a key, and it maps to the last site added
      there. */
  lemma {:induction false} IndexByLocationLastWins(sites: seq<Site>, i: nat)
    requires i < |sites| && LastAtLocation(sites, i)
    ensures sites[i].coord in IndexByLocation(sites)
    ensures IndexByLocation(sites)[sites[i].coord] == sites[i]
    decreases |sites|
  {
    var n := |sites| - 1;
    if i < n {
      assert LastAtLocation(sites[..n], i);
      IndexByLocationLastWins(sites[..n], i);
    }
  }

  /** Every location added is a key. */
  lemma IndexByLocationCovers(sites: seq<Site>, i: nat)
    requires i < |sites|
    ensures sites[i].coord in IndexByLocation(sites)
  {
    var j := LastOccurrence(sites, i);
    IndexByLocationLastWins(sites, j);
  }

  /** The last site at the same location as site `i`. */
  function LastOccurrence(sites: seq<Site>, i: nat): (j: nat)
    requires i < |sites|
    ensures i <= j < |sites| && sites[j].coord == sites[i].coord && LastAtLocation(sites, j)
    decreases |sites| - i
  {
    if forall k :: i < k < |sites| ==> sites[k].coord != sites[i].coord then i
    else
      var k :| i < k < |sites| && sites[k].coord == sites[i].coord;
      LastOccurrence(sites, k)
  }

  /** `AddSites`: site `i` is created at `points[i]` with index `i` and
      colour `colors[i]` (0 without a colour list), pushed in order, and
      entered in the location map. */
  function AddSites(points: seq<Point>, colors: Option<seq<nat>>): (r: Result<SiteTable, AddSitesError>)
    ensures r.Failure? <==> colors.Some? && |colors.value| < |points|
    ensures r.Success? ==> |r.value.sites| == |points|
    ensures r.Success? ==> forall i :: 0 <= i < |points| ==>
              r.value.sites[i] == Site(i, points[i], i, if colors.Some? then colors.value[i] else 0)
    ensures r.Success? ==> forall p :: p in r.value.byLocation ==> p in points && r.value.byLocation[p].coord == p
  {
    if colors.Some? && |colors.value| < |points| then Failure(ColorIndexOutOfRange)
    else
      var sites := MakeSites(points, colors);
      var m := IndexByLocation(sites);
      assert forall p :: p in m ==> p in points by {
        forall p | p in m ensures p in points {
          var i :| 0 <= i < |sites| && m[p] == sites[i];
          assert points[i] == p;
        }
      }
      Success(SiteTable(sites, m))
  }

  function MakeSites(points: seq<Point>, colors: Option<seq<nat>>): (sites: seq<Site>)
    requires colors.Some? ==> |points| <= |colors.value|
    ensures |sites| == |points|
    ensures forall i :: 0 <= i < |points| ==> sites[i] == Site(i, points[i], i, ColorOf(colors, i))
  {
    seq(|points|, i requires 0 <= i < |points| => Site(i, points[i], i, ColorOf(colors, i)))
  }

  /** The location map has a key for every input point, and a location
      that occurs several times maps to the site made from its last
      occurrence. */
  lemma AddSitesLastWins(points: seq<Point>, colors: Option<seq<nat>>, i: nat)
    requires AddSites(points, colors).Success? && i < |points|
    ensures points[i] in AddSites(points, colors).value.byLocation
    ensures (forall j :: i < j < |points| ==> points[j] != points[i]) ==>
              AddSites(points, colors).value.byLocation[points[i]].index == i
  {
    var t := AddSites(points, colors).value;
    IndexByLocationCovers(t.sites, i);
    if forall j :: i < j < |points| ==> points[j] != points[i] {
      assert LastAtLocation(t.sites, i);
      IndexByLocationLastWins(t.sites, i);
    }
  }
}
