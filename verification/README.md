# Voronoi diagram helpers (C# port of Fortune's algorithm), modelled in Dafny

This project models the self-contained parts of a C# (Unity) port of
Fortune's sweep-line Voronoi code, together with the properties they
promise. The modelled parts are:

- the `(y, x)` site order and the sweep's event choice;
- the region selectors and the bottom/top swap at a circle event;
- hull-point extraction and the location-indexed site table;
- the site comparator that renumbers sites;
- the `BoundsCheck` side mask;
- neighbour lookup and the lazily cached site region, built by `ClipToBounds`/`Connect` from the site's edges;
- the edge reorderer that chains edges end to end, and its completeness on the closed ring of edges around a bounded cell;
- polygon signed area, winding and area;
- the line-segment length comparators;
- the two edge filters.

Coordinates are `real`. Distances are handled through their squares:
`Geometry.IsDistance(p, q, d)` says that `d` is the Euclidean distance, and
`Geometry.RootOrder` lets any comparison of distances be stated exactly.
A rectangle is `x, y, width, height`, where left = x, right = x + width,
top = y and bottom = y + height.

Modules:

| module | file | contents |
|---|---|---|
| `Wrappers` | wrappers.dfy | `Option`, `Result` |
| `Geometry` | geometry.dfy | points, rectangles, `LR`, squared distance, the engine's vector equality |
| `Diagram` | diagram.dfy | sites, vertex references, edges, half-edges |
| `Polygon` | polygon.dfy | signed double area, winding, area |
| `LineSegments` | line_segment.dfy | length comparators |
| `EdgeFilters` | edge_filters.dfy | visible segments, edges of a site point |
| `EdgeReorderer` | edge_reorderer.dfy | the chain builder |
| `CycleReordering` | cycle_reordering.dfy | the chain builder on a ring of edges given in any order |
| `Voronoi` | voronoi.dfy | site order, sweep decisions, hull points, site table |
| `Bounds` | bounds.dfy | `BoundsCheck` and the corner table of `Connect` |
| `Sites` | site.dfy | `Compare`, `CloseEnough`, `Connect`, `ClipToBounds`, `Region`, neighbours |

The repository holds two copies of each core file. One set is under
`Assets/Delaunay/`. The other is an older, lower-case set at the top level
with the same logic. Each row below cites one copy; the lines it cites are
mirrored in the other.

## Model

| member | source | states |
|---|---|---|
| Geometry.SquaredDistance | Assets/Delaunay/Utilities.cs:8-13 | the squared distance is non-negative and zero exactly when the two points coincide |
| Geometry.DistanceSymmetric | Assets/Delaunay/Utilities.cs:10-11 | the distance does not depend on the order of its arguments |
| Geometry.DistanceZero | Assets/Delaunay/Utilities.cs:8-13 | a true distance `d` is 0 iff the points are equal |
| Geometry.DistanceUnique | Assets/Delaunay/Utilities.cs:12 | the non-negative root of `dx² + dy²` is unique, so `Distance` is well defined |
| Geometry.DistanceComparison | Assets/Delaunay/Utilities.cs:8-13 | comparing two distances (`<` and `==`) is the same as comparing their squares |
| Geometry.RootOrder | Assets/Delaunay/Utilities.cs:12 | for non-negative values, `a < b` iff `a² < b²` |
| Geometry.VectorEqualReflexiveSymmetric | Assets/Delaunay/SelectEdgesForSitePoint.cs:17-18 | the `Vector2` comparison used by the site filter holds between a point and itself and does not depend on argument order |
| Geometry.VectorEqualIsApproximate | Assets/Delaunay/SelectEdgesForSitePoint.cs:17-18 | the `Vector2` comparison holds between two different points 10⁻⁶ apart, so it is coarser than equality |
| Voronoi.CompareByYThenX | Assets/Delaunay/Voronoi.cs:435-442 | result is -1, 0 or 1; -1 iff s1 is strictly before s2 in (y, x) order, 1 iff after, 0 iff equal coordinates |
| Voronoi.CompareSiteToPoint | Assets/Delaunay/Voronoi.cs:444-451 | the site-versus-point overload has the same -1/0/1 characterisation against the point |
| Voronoi.OverloadsAgree | Voronoi.cs:446-453 | the point overload on a site's coordinate equals the site overload |
| Voronoi.CompareAntisymmetric | Voronoi.cs:437-444 | swapping the arguments negates the result |
| Voronoi.CompareTransitive | Assets/Delaunay/Voronoi.cs:435-442 | the order is transitive, and strictly so when either step is strict |
| Voronoi.NextEvent | Assets/Delaunay/Voronoi.cs:280-289 | a site event iff a site remains and the queue is empty or the site is strictly before its minimum; a circle event only with a non-empty queue; stop iff no site and an empty queue |
| Voronoi.CircleEventFirstOnTie | Voronoi.cs:341-344 | a site that is not strictly before the queue minimum yields a circle event, ties included |
| Voronoi.LeftRegion | Assets/Delaunay/Voronoi.cs:415-423 | the bottom-most site for a half-edge without an edge, else the edge's site on the half-edge's side |
| Voronoi.RightRegion | Assets/Delaunay/Voronoi.cs:425-433 | the bottom-most site for a half-edge without an edge, else the edge's site on the other side |
| Voronoi.RegionsFlip | Voronoi.cs:417-435 | flipping the half-edge's side exchanges the left and right region |
| Voronoi.OrderBisectorSites | Assets/Delaunay/Voronoi.cs:359-363 | after the swap the bottom site's y is at most the top site's; the side is RIGHT iff a swap happened, and then the sites are exchanged |
| Voronoi.OrderBisectorSitesIdempotent | Voronoi.cs:361-365 | swapping an already ordered pair changes nothing and gives LEFT |
| Voronoi.OrientedSiteCoords | Assets/Delaunay/Voronoi.cs:195-201 | one coordinate per edge, the site on that edge's orientation side; fails iff one such site is null |
| Voronoi.HullVector2sInOrder | Assets/Delaunay/Voronoi.cs:178-203 | empty for no hull edges; otherwise one point per hull edge: point `i` is the site on the orientation side of reordered edge `i`, and consecutive points walk the reordered chain; fails with `NeverReturns` iff the reorderer stalls, and with `NullSite` iff the reorder finishes and some reordered edge has no site on its orientation side |
| Voronoi.HullPointsWhenSitesPresent | Assets/Delaunay/Voronoi.cs:178-203 | when every hull edge has a site on both sides, the points are always produced unless the reorderer stalls |
| Voronoi.HullReorderIsComplete | Voronoi.cs:180-205 | the reorderer's hull chain holds every hull edge once with one orientation each |
| Voronoi.HullPointsFromEdges | Voronoi.cs:180-205 | the points taken along a linked chain are sites of the input edges and consecutive points share an edge |
| Voronoi.IndexByLocation | Assets/Delaunay/Voronoi.cs:92-100 | every entry of the location map is one of the sites and lies at its key |
| Voronoi.IndexByLocationLastWins | Assets/Delaunay/Voronoi.cs:97-99 | a site that is the last at its location is what the map holds there |
| Voronoi.IndexByLocationCovers | Voronoi.cs:85-102 | every site's location is a key of the map |
| Voronoi.LastOccurrence | Voronoi.cs:85-102 | every site has a last site at its location at or after it |
| Voronoi.MakeSites | Assets/Delaunay/Voronoi.cs:83-97 | site i has id i, coordinate `points[i]`, index i and colour `colors[i]`, or 0 without colours |
| Voronoi.AddSites | Assets/Delaunay/Voronoi.cs:83-100 | fails iff colours are given and shorter than the points; otherwise sites as in `MakeSites` and a map whose keys are exactly input points, each sent to a site at that point |
| Voronoi.AddSitesLastWins | Voronoi.cs:85-102 | every input point is a key, and a point not repeated later maps to the site created from it |
| Sites.Compare | Assets/Delaunay/Site.cs:35-62 | returns the (y, x) comparison; only indices change; the two indices are kept as a multiset; afterwards the smaller site holds the smaller index; on 0 nothing changes |
| Sites.CompareSymmetric | Site.cs:39-66 | comparing in the other order negates the result and ends with the same indices |
| Sites.CompareKeepsOrderedIndices | Assets/Delaunay/Site.cs:37-58 | sites already in index order are not renumbered |
| Sites.CloseEnoughIsDistanceBelowEpsilon | Assets/Delaunay/Site.cs:65-69 | `CloseEnough` holds iff the distance is below 0.005 |
| Bounds.BoundsCheck | Assets/Delaunay/Site.cs:451-471 | the mask is in 0..15; each of LEFT, RIGHT, TOP, BOTTOM is set iff the point is on that border line |
| Bounds.InteriorHasNoBits | Site.cs:453-473 | a point on no border line gets mask 0 |
| Bounds.SingleSide | Assets/Delaunay/Site.cs:437-442 | a side is named only by one of the four single-bit masks |
| Bounds.SingleSideIsExact | Site.cs:453-473 | a point with a single-side mask lies on that side's line and on no other |
| Bounds.CornerTable | Assets/Delaunay/Site.cs:286-397 | every inserted point is a corner; none unless both masks are single sides; then 0 for the same side, 1 for adjacent sides, 2 for opposite sides |
| Bounds.CornerTableFollowsBorder | Assets/Delaunay/Site.cs:286-397 | from the last point through the corners to the new point, each step runs along one border line |
| Bounds.CornerTableTakesShorterWay | Assets/Delaunay/Site.cs:306-313 | between opposite sides the corners lie on the border line with the smaller summed offset |
| Sites.Gap | Assets/Delaunay/Site.cs:279-286 | at most two points, all corners, and none when the two points share an x or a y |
| Sites.FarPart | Assets/Delaunay/Site.cs:407-411 | the far end is appended iff it is not close enough to the first point |
| Sites.Connect | Assets/Delaunay/Site.cs:268-411 | keeps the existing points as a prefix; appends only corners and the edge's two ends; close ends append at most the far end; when closing up and apart, only corners; otherwise corners, the near end and the far end unless it is close to the first point |
| Sites.ConnectFollowsBorder | Assets/Delaunay/Site.cs:276-397 | between two border points that differ in both coordinates, the path in `Connect`'s output from the last point through the inserted corners to the near end runs along the border |
| Sites.GapFollowsBorder | Assets/Delaunay/Site.cs:279-397 | the corners between two single-side border points that differ in both coordinates lead from one to the other along the border, also when both lie on one side |
| Sites.ConnectAll | Assets/Delaunay/Site.cs:248-256 | keeps the seed as a prefix and appends only corners and ends of visible edges |
| Sites.ClipChain | Assets/Delaunay/Site.cs:227-261 | empty iff no edge is visible; otherwise starts with the first visible edge's near and far ends; every point is a corner or an end of a visible edge |
| Sites.FirstVisible | Assets/Delaunay/Site.cs:231-244 | the edge found is visible and no earlier edge is |
| Sites.ConnectAllIgnoresInvisible | Assets/Delaunay/Site.cs:248-256 | invisible edges contribute nothing to the connection loop |
| Sites.ClipChainIgnoresInvisible | Site.cs:228-262 | dropping the invisible edges gives the same polygon |
| Sites.VisibleOnly | Assets/Delaunay/Site.cs:251-254 | keeps only visible edges and never grows the list |
| Sites.ClipToBounds | Assets/Delaunay/Site.cs:227-261 | empty iff no edge is visible; every point is a bounds corner or a clipped end of a visible edge |
| Sites.Reorder | Assets/Delaunay/Site.cs:217-225 | records orientations; the edges are a permutation of the old ones unless empty; none iff the reorderer stalls |
| Sites.Assemble | Assets/Delaunay/Site.cs:208-212 | the region is the clipped polygon or its reversal, and the clipped polygon itself when that is not clockwise; it is never clockwise, has the clipped polygon's area, and every point is a corner or a visible clipped end |
| Sites.ReverseMadeOf | Site.cs:209-212 | reversing a polygon keeps every point a corner or a visible clipped end |
| Sites.Region | Assets/Delaunay/Site.cs:199-215 | empty for no edges; the cache when orientations exist, whatever the bounds; otherwise the site after reordering with the region assembled from its reordered edges stored, not clockwise and made of corners and visible clipped ends; hangs iff the reorderer stalls |
| Sites.RegionIsCached | Site.cs:200-216 | a second call, with any bounds, returns the same list and changes nothing |
| Sites.NeighborSite | Assets/Delaunay/Site.cs:186-197 | the right site when this is the left site, the left site when this is the right site, else null |
| Sites.NeighborSiteSymmetric | Site.cs:187-198 | across an edge between two different sites each is the other's neighbour |
| Sites.Neighbors | Assets/Delaunay/Site.cs:178-182 | one neighbour per edge, in edge order |
| Sites.NeighborSites | Assets/Delaunay/Site.cs:168-184 | empty for no edges; one neighbour per (reordered) edge; orientations recorded; region untouched; hangs iff the reorderer stalls |
| Sites.NeighborSitesBeforeRegionLosesRegion | Assets/Delaunay/Site.cs:174-177 | on a fresh site, `Region` after `NeighborSites` returns null, while `Region` first returns a polygon |
| Sites.RegionCorrected | Assets/Delaunay/Site.cs:199-215 | the corrected region is computed and stored whenever none is cached |
| Sites.RegionCorrectedAfterNeighborSites | Site.cs:206-215 | the corrected region agrees with `Region` on a fresh site and is the same after `NeighborSites` |
| EdgeReorderer.Attach | Assets/Delaunay/EdgeReorderer.cs:111-138 | attaches by the first matching rule (left = last: back LEFT; right = first: front LEFT; left = first: front RIGHT; right = last: back RIGHT); none iff no rule matches; one more edge otherwise |
| EdgeReorderer.AttachKeepsLinked | EdgeReorderer.cs:114-137 | attaching keeps the chain linked at both ends and keeps input edge 0 with LEFT |
| EdgeReorderer.AttachLinkedCase | EdgeReorderer.cs:114-137 | each of the four rules keeps the chain linked |
| EdgeReorderer.AppendLinked | EdgeReorderer.cs:111-117 | back insertion of an edge whose start is the last end keeps the chain linked |
| EdgeReorderer.PrependLinked | EdgeReorderer.cs:118-124 | front insertion of an edge whose end is the first end keeps the chain linked |
| EdgeReorderer.CountDone | Assets/Delaunay/EdgeReorderer.cs:53-58 | the done count never exceeds the number of edges |
| EdgeReorderer.MarkDone | Assets/Delaunay/EdgeReorderer.cs:139-142 | marking an edge done raises the count by one and adds it to the placed multiset |
| EdgeReorderer.AllDone | Assets/Delaunay/EdgeReorderer.cs:86 | when every edge is done the placed edges are the input |
| EdgeReorderer.NoneDone | Assets/Delaunay/EdgeReorderer.cs:53-58 | with nothing done the count is 0 and nothing is placed |
| EdgeReorderer.ScanFrom | Assets/Delaunay/EdgeReorderer.cs:88-143 | a pass never lowers the count; a pass that places nothing leaves the state unchanged, and then every edge it visited that is still not done is finite and matches none of the four rules; it keeps the chain consistent; it gives up exactly when some edge it visits is not done and has an end at infinity |
| EdgeReorderer.Unplaced | EdgeReorderer.cs:88-92 | an input edge outside the placed multiset sits at some position whose flag is not done |
| EdgeReorderer.PlacedWithin | EdgeReorderer.cs:139-142 | the placed edges are always part of the input multiset |
| EdgeReorderer.StallIsStalled | Assets/Delaunay/EdgeReorderer.cs:86-144 | after a full pass that places nothing with edges left, the chain is stalled: shorter than the input, part of it, and every edge not in it is finite and attaches by none of the four rules |
| EdgeReorderer.RunPasses | Assets/Delaunay/EdgeReorderer.cs:86-144 | the finished chain is a permutation of the input, linked, with one orientation per edge and edge 0 LEFT; empty only after an end at infinity, and empty whenever an edge not yet done has an end at infinity; a non-terminating loop leaves a stalled chain (no remaining edge attaches at either end) |
| EdgeReorderer.ScannedIsFinite | Assets/Delaunay/EdgeReorderer.cs:88-110 | a full pass that finishes without meeting infinity leaves no not-done edge with an end at infinity |
| EdgeReorderer.SeedIsConsistent | Assets/Delaunay/EdgeReorderer.cs:60-84 | the state before the first pass (edge 0 done and taken LEFT, chain ends at its two keys) is consistent and counts one |
| EdgeReorderer.FullCountAllDone | Assets/Delaunay/EdgeReorderer.cs:86 | a done count equal to the number of edges means every flag is set |
| EdgeReorderer.ReorderEdges | Assets/Delaunay/EdgeReorderer.cs:46-146 | output edges are a permutation of the input with one orientation each; consecutive edges meet; input edge 0 appears with LEFT; the edge list is empty if and only if some input edge has an end at infinity, with orientations kept; the loop runs forever only with a stalled chain |
| EdgeReorderer.NewEdgeReorderer | Assets/Delaunay/EdgeReorderer.cs:26-38 | fails iff the criterion is neither Vertex nor Site; empty input gives empty lists |
| EdgeReorderer.SiteCriterionIsFinite | EdgeReorderer.cs:78-81 | under the site criterion a finished reordering holds every edge |
| EdgeReorderer.ScanChained | EdgeReorderer.cs:111-117 | on an already chained list one pass appends the remaining edges in order |
| EdgeReorderer.ChainedStep | EdgeReorderer.cs:111-117 | on an already chained list the next edge fits at the back with LEFT |
| EdgeReorderer.ChainedPasses | EdgeReorderer.cs:86-144 | on an already chained list the passes end with the input itself, all LEFT |
| EdgeReorderer.CountAllTrue | EdgeReorderer.cs:86 | all flags set gives the full count |
| EdgeReorderer.ChainedInputUnchanged | EdgeReorderer.cs:46-146 | an already chained list comes back unchanged, all LEFT |
| EdgeReorderer.DisconnectedPairStalls | Assets/Delaunay/EdgeReorderer.cs:86-144 | two unconnected edges: a pass returns its own input state, so the loop never ends |
| CycleReordering.StepForward | Assets/Delaunay/EdgeReorderer.cs:111-137 | on a ring of distinct keys, the only other ring edge that starts where edge `j` ends is edge `j + 1`, taken in the ring's direction |
| CycleReordering.StepBackward | Assets/Delaunay/EdgeReorderer.cs:111-137 | walking the ring against its direction, the only other edge that continues edge `j` is edge `j - 1`, also against the direction |
| CycleReordering.ArcForward | EdgeReorderer.cs:111-137 | a linked chain of distinct ring edges entered in the ring's direction is the run of consecutive ring edges from its first edge |
| CycleReordering.ArcBackward | EdgeReorderer.cs:111-137 | entered against the ring's direction, the chain is the run of ring edges going backwards |
| CycleReordering.PartIsDistinct | EdgeReorderer.cs:139-142 | a chain drawn from the ring's edges repeats none and holds only ring edges |
| CycleReordering.CycleIsFinite | Assets/Delaunay/EdgeReorderer.cs:107-110 | no edge of a ring through finite keys has an end at infinity, so the reorderer never gives up on it |
| CycleReordering.NotStalledAt | Assets/Delaunay/EdgeReorderer.cs:111-137 | a ring edge outside the chain with an end at the chain's last key would attach, so the chain is not stalled |
| CycleReordering.PastForwardArc | EdgeReorderer.cs:111-117 | the ring edge just past a forward arc is outside it and starts at the arc's last key |
| CycleReordering.PastBackwardArc | EdgeReorderer.cs:132-137 | the ring edge just past a backward arc is outside it and ends at the arc's last key |
| CycleReordering.EdgePastTheArc | EdgeReorderer.cs:111-137 | a linked chain of ring edges shorter than the ring leaves out an edge that would attach at its last end |
| CycleReordering.CycleNeverStalls | Assets/Delaunay/EdgeReorderer.cs:86-144 | on the edges of a ring no chain is ever stalled |
| CycleReordering.CycleIsReordered | Assets/Delaunay/EdgeReorderer.cs:46-146 | the edges of a ring through distinct finite keys, in any order and each stored in either direction, come back reordered: every edge once, each with an orientation, consecutive edges meeting |
| CycleReordering.TriangleIsReordered | EdgeReorderer.cs:46-146 | the three edges of a triangular cell, handed over last edge first, come back as a three-edge chain |
| Polygon.ComputeSignedDoubleArea | Assets/Delaunay/Polygon.cs:35-49 | the index loop with `(i + 1) % n` computes the cyclic cross-product sum |
| Polygon.CrossAntisymmetric | Polygon.cs:43-49 | swapping the two points negates a cross term |
| Polygon.NextIndex | Assets/Delaunay/Polygon.cs:43 | the next index wraps to 0 only after the last vertex |
| Polygon.PathSnoc | Assets/Delaunay/Polygon.cs:41-47 | one more vertex adds one cross term |
| Polygon.PathAppend | Assets/Delaunay/Polygon.cs:41-47 | the open path sum splits at any point |
| Polygon.PathReverse | Assets/Delaunay/Polygon.cs:41-47 | reversing an open path negates its sum |
| Polygon.Reverse | Assets/Delaunay/Site.cs:211 | the reversed list has the same length and element i is element n-1-i |
| Polygon.SmallPolygonHasNoArea | Assets/Delaunay/Polygon.cs:35-49 | fewer than three vertices give signed area 0 |
| Polygon.ReverseNegatesArea | Polygon.cs:37-51 | reversing the vertices negates the signed area |
| Polygon.RotationPreservesArea | Assets/Delaunay/Polygon.cs:41-47 | a cyclic rotation keeps the signed area |
| Polygon.GetWinding | Assets/Delaunay/Polygon.cs:21-33 | CLOCKWISE iff the signed area is negative, COUNTERCLOCKWISE iff positive, NONE iff zero |
| Polygon.ReverseFlipsWinding | Assets/Delaunay/Site.cs:209-212 | reversing exchanges CLOCKWISE and COUNTERCLOCKWISE and keeps NONE |
| Polygon.SmallPolygonHasNoWinding | Polygon.cs:23-35 | fewer than three vertices have no winding |
| Polygon.Area | Assets/Delaunay/Polygon.cs:16-19 | non-negative, twice it is the absolute signed area, zero iff no winding |
| Polygon.AreaReverseInvariant | Assets/Delaunay/Site.cs:209-212 | reversing the vertex list keeps the area, so the region's reversal does not change it |
| Polygon.AreaRotationInvariant | Polygon.cs:18-21 | a cyclic rotation of the vertex list keeps the area |
| LineSegments.CompareLengthsMax | Assets/Delaunay/LineSegment.cs:16-29 | result is -1, 0 or 1 |
| LineSegments.CompareLengths | Assets/Delaunay/LineSegment.cs:31-34 | result is -1, 0 or 1 |
| LineSegments.CompareLengthsMaxByLength | Assets/Delaunay/LineSegment.cs:16-34 | `CompareLengthsMax` is 1 iff the first is shorter, -1 iff longer, 0 iff equal; `CompareLengths` is the reverse, so it sorts ascending |
| LineSegments.CompareLengthsAntisymmetric | Assets/Delaunay/LineSegment.cs:16-34 | both comparators negate when their arguments swap |
| LineSegments.CompareLengthsIgnoreDirection | Assets/Delaunay/LineSegment.cs:18-19 | reversing a segment's endpoints changes no comparison |
| EdgeFilters.VisibleLineSegments | Assets/Delaunay/VisibleLineSegments.cs:8-21 | one segment per visible edge, as many as there are visible edges; a segment is in the output iff it is the LEFT-to-RIGHT clipped segment of a visible edge |
| EdgeFilters.VisibleLineSegmentsAppend | VisibleLineSegments.cs:13-21 | the output follows input order |
| EdgeFilters.VisibleLineSegmentsOfOne | VisibleLineSegments.cs:15-20 | an invisible edge gives nothing; a visible one gives its clipped segment |
| EdgeFilters.SelectEdgesForSitePoint | Assets/Delaunay/SelectEdgesForSitePoint.cs:9-19 | an edge is kept iff it is in the input and a non-null site of it equals the query point under the engine's `Vector2` equality (squared distance below (10⁻⁵)²); never longer than the input |
| EdgeFilters.SelectKeepsExactSites | Assets/Delaunay/SelectEdgesForSitePoint.cs:17-18 | an input edge with a site exactly at the query point is always kept |
| EdgeFilters.SelectIsSubsequence | SelectEdgesForSitePoint.cs:10-14 | the output is an order-preserving subsequence of the input |
| EdgeFilters.SelectSkipsSiteless | Assets/Delaunay/SelectEdgesForSitePoint.cs:17-18 | an edge with two null sites is never kept |
| EdgeFilters.SelectIdempotent | SelectEdgesForSitePoint.cs:10-20 | selecting again with the same point changes nothing |

## Left out

- The body of the Fortune sweep (Assets/Delaunay/Voronoi.cs:258-413). It runs through `EdgeList`, `HalfedgePriorityQueue`, `Halfedge`, `Vertex.Intersect`, `Edge.CreateBisectingEdge`, `Edge.ClipVertices` and `SiteList`, none of which are part of this model. Only its event choice (`Voronoi.NextEvent`), region selectors and bottom/top swap are modelled.
- Floating point. Coordinates are real numbers. `BoundsCheck`'s `==` is exact real equality. Unity's `Vector2 ==` is modelled by `Geometry.VectorEqual` with the tolerance 10⁻⁵ taken as an exact real, where the engine uses the nearest `float`. The square root in `Distance` is never computed: distances appear only through `Geometry.IsDistance`.
- The random site weight, `SiteColors`, `Circles` and `NearestSiteVector2`. They are random or bitmap-backed, or their code is not part of this model. A site carries id, coordinate, index and colour only.
- Object pooling and `Dispose` in `Site`, `Voronoi` and `EdgeReorderer`. These only recycle resources.
- `SelectNonIntersectingEdges`, Kruskal, `DelaunayLinesForEdges`, `Triangle` and the `Filter`/`SortFunc`/`Pop` extensions. They wrap code that is not part of this model.
- `Assets/Example.cs`, which only draws.
- `Voronoi.Region(p)` and the hull-edge filter: they rely on dictionary lookup and on `Edge.IsPartOfConvexHull`, which is not part of this model. `HullVector2sInOrder` takes the hull edges as input.
- `Site.NearestEdge`, which sorts with `Edge.CompareSitesDistances` (not part of this model).
- Object identity is modelled by value: sites carry an `id`, and edges are compared as values. So two distinct but field-identical edges are treated as one in the multisets.
- Sites.NeighborSite and the reorderer's site keys compare whole `Site` values, not `id`s. The model assumes the cell and its edges hold one snapshot of each site. In C# a site renumbered by `Compare` stays the same reference, whereas here an edge holding the site's value from before the renumbering would stop matching.
- Voronoi.HullVector2sInOrder: a null site on an oriented hull edge is reported as the `NullSite` failure, where the C# code would throw on `.Coord`.
- EdgeReorderer.ReorderEdges: where the C# `while` loop never returns, the model returns `NoProgress` with the stalled partial chain, so the contract describes a terminating function.
- CycleReordering.CycleIsReordered: completeness is proved for a ring through distinct keys. A cell whose ring passes a vertex twice, or an open chain of hull edges, is not covered.
- Sites.Region: a call that would never return (the reorderer stalls) is the `Hangs` outcome.
- Sites.RegionCorrected: when recorded orientations are fewer than the edges, which the reorderer never produces, the corrected region is empty.
- Sites.Compare: the C# code casts the comparison to `float`; the result is kept as an integer.
- EdgeFilters.SelectSkipsSiteless follows from the selection's contract alone and needs no proof of its own.

## Findings

| source | as written | input that shows it | evidently intended | confidence | as-written member | corrected member |
|---|---|---|---|---|---|---|
| Assets/Delaunay/EdgeReorderer.cs:86-144 | the `while (nDone < n)` loop repeats full passes with no check that a pass placed an edge | two edges with four distinct finite vertices (`DisconnectedPair`): the second never attaches, so every pass returns the same state | stop, or report failure, when a pass places nothing | high (proved on the model; not executed) | EdgeReorderer.DisconnectedPairStalls | EdgeReorderer.ReorderEdges |
| Assets/Delaunay/Site.cs:174-177, 205-214 | `NeighborSites` records the edge orientations without computing the region, and `Region` recomputes only while the orientations are null | a fresh site with edges: call `NeighborSites`, then `Region`; the second call returns the never-computed null region (the TODO at Assets/Delaunay/Voronoi.cs:117) | compute the region whenever none is cached | high (proved on the model; not executed) | Sites.NeighborSitesBeforeRegionLosesRegion | Sites.RegionCorrected |
