/** The records the sweep produces and the core consumes: sites, edges and
    half-edges. Object references become values; `Site.id` is the identity
    of a site object, and a null reference is `None` or `NoVertex`. */
module Diagram {

  import opened Wrappers
  import opened Geometry

  /** An input point with its identity, sweep index and colour. */
  datatype Site = Site(id: nat, coord: Point, index: nat, color: nat)

  /** The vertex reference at one end of an edge: unset (null), the
      sentinel vertex at infinity, or a finite vertex. */
  datatype VertexRef = NoVertex | VertexAtInfinity | VertexId(id: nat)

  /** A bisector edge: the sites on its two sides, the vertices at its two
      ends, its two ends clipped to the plot bounds, and whether any part
      of it lies inside the bounds. */
  datatype Edge = Edge(leftSite: Option<Site>, rightSite: Option<Site>,
                       leftVertex: VertexRef, rightVertex: VertexRef,
                       leftClippedEnd: Point, rightClippedEnd: Point,
                       visible: bool)

  /** The site on side `lr` of an edge. */
  function SiteOn(e: Edge, lr: LR): Option<Site> {
    if lr == LEFT then e.leftSite else e.rightSite
  }

  /** The clipped end `lr` of an edge. */
  function ClippedEnd(e: Edge, lr: LR): Point {
    if lr == LEFT then e.leftClippedEnd else e.rightClippedEnd
  }

  /** A half-edge of the sweep's active list: its edge (null once removed
      or for the list's sentinels) and the side it faces. */
  datatype Halfedge = Halfedge(edge: Option<Edge>, leftRight: LR)
}
