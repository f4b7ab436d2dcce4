# A verified model of the GEOS planar algorithms

This project models the combinatorial and exact-arithmetic core of GEOS in Dafny and proves what
that core is relied on for. It covers five groups of components.

**Exact predicates.** `RobustDeterminant` is the Euclid-like loop behind every orientation test;
`Orientation` the test itself; `RayCrossing` point-in-ring by counting crossings; `Segments` and
`LineIntersectors` the classification and computation of the intersection of two segments;
`AreaSums` the signed area of a ring and the triangle fan of the centroid; `RingOrientation` the
orientation test of a ring; `Paths` the sums over the
segments of a path on which several of these proofs rest.

**Convex hull.** `HullGeometry` (the radial order, half-planes and the notion that one point set
spans another), `HullChains` (chains in radial order, and the ring cleaner on them), `HullRings`
(what the closed ring of a chain is) and `ConvexHulls` (octagon reduction, sort, scan, clean-up). `HullLocations` brings the hull and the exact predicates
together: what point location, the orientation test and the area sums say of a hull ring.

**Topology graph.** `EdgeEnds` (the angular order around a node), `SideLabels`, `Depths`,
`ResultLinks` and `Coverings` (label propagation, depth propagation, the linking machine and the
covering of line edges as functions of the labels, depths and flags around a node), `GeomGraph`
(edges, directed edges, stars and edge rings as classes whose methods update links, labels and depths
in place), `PlanarGraphs` (the graph and its links as a whole) and `PolygonBuilders` (making all rings,
and when that fails).

**Noding and edge identity.** `NodedPaths` (splitting a path at nodes and gluing the pieces),
`SegmentNodes` and `EdgeIntersections` (the two splitters), `OrientedArrays` and `EdgeLists`
(direction-independent comparison, and the index of equal edges built on it).

**Well-known binary.** `ByteOrderValues`, `WkbFormat` (geometries, their binary form, and what
reading bytes means), `WkbRoundTrip`, `WkbBytes` (the bytes themselves), `WkbPrefixes` (cut-off input), `WkbHex`,
`WkbWriters` and `WkbReaders`. The base format is
clause 8 of OGC 06-103r4 (Simple Feature Access, Part 1); the 0x80000000 and 0x20000000 flags are
the EWKB extension.

`OrderedSets` and `Numbers` hold what several of them share.

## Conventions

Coordinates are integers. Every finite double is an integer multiple of one fixed power of two, so a
finite set of finite doubles scales to integers without changing any comparison, orientation or
order; doubles are thereby taken as exact numbers and rounding is not modelled. Where two segments
cross the point is a pair of reals. In the binary format a double is its 64-bit pattern, with NaN
and the two zeros told apart from other values as the code does.

An exception is a failing result: a `bool`, an outcome datatype or an error value. A C++ `std::set` or
`std::map` is a sequence kept in the order of its comparator. `std::sort` is an insertion sort;
`SortIsUnique` shows that any other sort gives the same sequence. Where the original code asserts a
condition of its caller, the method requires it. A C++ `char` is signed, as the end-of-input test of
`readHEX` needs it to be.

Each method is proved against functions and predicates that do not depend on how it computes; what
the components promise is then proved of those.

## Results that differ from what one might expect

- `linkAllDirectedEdges` makes the links a permutation exactly when no two directed edges leave one
  node in the same direction; otherwise a star drops one of them and its twin is left without a link
  (`PlanarGraphs.LinkingPermutes`, and `PlanarGraphs.SameDirection` for an input).
- `computeIntersect` reports a collinear intersection, with one point stored twice, when a segment
  without length lies on the other; in every other case its result counts the shared points
  (`LineIntersectors.ResultCountsIff`, `LineIntersectors.NoLengthOnSegment`).
- `findCoveredLineEdges` trusts the first bounding edge it meets: what it finds depends on the edge at
  which the star begins, except exactly when the bounding edges agree all the way round
  (`Coverings.StartIsNeutralIff`, `Coverings.StartMatters`).
- A point whose written ordinates are all NaN is read back as an empty point, a polygon with an empty
  shell loses its (necessarily empty) holes, and a ring of its own comes back as a line string;
  `WkbRoundTrip.ReadBackIff` says exactly which geometries come back unchanged
  (`WkbRoundTrip.NaNPointReadEmpty` shows one that does not).
- `isCCW` judges a ring by its first highest vertex alone, so a ring with a spike there counts as
  clockwise in both directions, and adds its area to a centroid with either sign
  (`RingOrientation.ReversalFlipsIff`, `AreaSums.SpikeContributesEitherSign`).
- Links that permute the edges are not enough for `buildMaximalEdgeRings`: a single segment and its
  twin that lead to each other give a ring of three points, which is refused
  (`PolygonBuilders.LoneSegment`; `PolygonBuilders.LinkedRings` shows that nothing else does).
- `readHEX` takes the character 0xFF in a high place for the end of the input (`WkbHex.EndCutsOff`).
- `findEqualEdge` returns the last equal edge that was added, `findEdgeIndex` the first
  (`EdgeLists.EdgeList.FindEqualEdge`, `EdgeLists.EdgeList.FindEdgeIndex`).

## Model

| member | source | states |
|---|---|---|
| RobustDeterminant.SignOfDet2x2 | src/algorithm/RobustDeterminant.cpp:53-285 | on all integers and through every exit, the result is the sign of x1*y2 - x2*y1, and the number of rounds is logarithmic in an x entry |
| RobustDeterminant.ReduceRows | src/algorithm/RobustDeterminant.cpp:199-284 | the loop alone: entered with positive ordered rows it ends, keeps every entry positive at its head, and each round shrinks x1 at least four-fold |
| RobustDeterminant.Log4Shrinks | src/algorithm/RobustDeterminant.cpp:199-284 | a four-fold shrink lowers the round bound by one |
| RobustDeterminant.Log4IsLogarithm | src/algorithm/RobustDeterminant.cpp:199-284 | the round bound is the whole part of a logarithm to the base four |
| RobustDeterminant.FirstHalf | src/algorithm/RobustDeterminant.cpp:199-240 | every early exit in the first half of a round gives the sign of the determinant it was entered with |
| RobustDeterminant.SecondHalf | src/algorithm/RobustDeterminant.cpp:241-284 | the second half is the first with the rows exchanged and the sign turned |
| Orientation.OrientationIndex | src/algorithm/RayCrossingCounter.cpp:80-91 | the determinant of the two displacements is the turn of the three points |
| Orientation.TurnSymmetry | src/algorithm/CGAlgorithms.cpp:43-46 | rotating the three points keeps the turn, exchanging two negates it |
| Orientation.TurnOfAxes | src/algorithm/CGAlgorithms.cpp:43-46 | from the origin along the x axis and then up is counter-clockwise, down is clockwise |
| RayCrossing.RayCrossingCounter.CountSegment | src/algorithm/RayCrossingCounter.cpp:94-157 | one segment raises the count exactly if it crosses the rightward ray, and raises the flag exactly if it holds the point, except where the neighbouring segment does so |
| RayCrossing.LocatePointInRing | src/algorithm/RayCrossingCounter.cpp:41-76 | BOUNDARY iff the point lies on some ring segment; otherwise INTERIOR iff an odd number of segments span its height and are to its right there, and EXTERIOR iff an even number |
| RayCrossing.IsPointInRing | src/algorithm/CGAlgorithms.cpp:50-61 | true iff the point lies on a ring segment or its rightward ray meets an odd number of them |
| RayCrossing.SegmentCases | src/algorithm/RayCrossingCounter.cpp:94-157 | which segments the shortcuts flag and count, against segment membership and crossing |
| RayCrossing.CrossingsAreCounted | src/algorithm/RayCrossingCounter.cpp:129-172 | the count kept is the number of ring segments that the ray meets |
| RayCrossing.OnSegmentIff | src/algorithm/RayCrossingCounter.cpp:94-141 | the integer test of lying on a segment is that of being one of its points |
| RayCrossing.CrossesIff | src/algorithm/RayCrossingCounter.cpp:129-156 | the sign test counts a segment iff it spans the height of the point and its point at that height lies strictly to the right |
| RayCrossing.LocationReversed | src/algorithm/RayCrossingCounter.cpp:41-57 | reversing the ring changes no location |
| RayCrossing.LocationStartingAt | src/algorithm/RayCrossingCounter.cpp:41-57 | starting the ring at another vertex changes no location |
| RayCrossing.LocationByLeftRay | src/algorithm/RayCrossingCounter.cpp:94-172 | counting the crossings of the leftward ray gives the same location |
| RayCrossing.SpanningParity | src/algorithm/RayCrossingCounter.cpp:94-172 | a path spans a height an even number of times iff it ends on the side it began |
| RayCrossing.InteriorHasBothSides | src/algorithm/RayCrossingCounter.cpp:94-157 | a point found inside has ring segments crossing on its right and on its left |
| HullLocations.InsideHullIff | src/algorithm/RayCrossingCounter.cpp:41-76 | a point is found inside a hull ring iff it is strictly on the inner side of every edge |
| HullLocations.InsideHullAnywayIff | src/algorithm/RayCrossingCounter.cpp:41-76 | the same for the ring started at any vertex and run in either direction |
| HullLocations.BeyondHalfPlane | src/algorithm/RayCrossingCounter.cpp:41-76 | a point beyond a half-plane that holds a ring is found outside, whatever the ring |
| AreaSums.SignedArea | src/algorithm/CGAlgorithms.cpp:296-319 | the one-pass loop with shifted x gives minus half the shoelace sum on every closed ring |
| AreaSums.ReversedSums | src/algorithm/CGAlgorithms.cpp:296-319 | reversing the ring negates the area and the moments |
| AreaSums.FanIsShoelace | src/algorithm/Centroid.cpp:109-160 | whatever the base point, the triangle fan sums to the shoelace sum (minus twice the signed area), and its weighted centroids to the ring's own moments |
| AreaSums.Centroid.AddTriangle | src/algorithm/Centroid.cpp:134-160 | one triangle adds its signed doubled area and its area-weighted corner sums |
| AreaSums.Centroid.AddShell | src/algorithm/Centroid.cpp:109-119 | a shell adds its area and moments with the sign that `isCCW` gives it, independently of the base point; fails below four points |
| AreaSums.Centroid.AddHole | src/algorithm/Centroid.cpp:123-130 | a hole adds them with the opposite sign |
| AreaSums.ContributionReversedIff | src/algorithm/Centroid.cpp:109-130 | what a ring contributes does not depend on its direction iff its first and last highest vertices are judged alike, or it has no area |
| AreaSums.ContributionStartingIff | src/algorithm/Centroid.cpp:109-130 | it does not depend on the starting vertex iff the highest vertex met first from there is judged alike, or it has no area |
| AreaSums.SpikeContributesEitherSign | src/algorithm/Centroid.cpp:109-130 | a ring with a spike at its highest vertex that has an area and contributes it with either sign |
| HullLocations.TriangleSums | src/algorithm/Centroid.cpp:134-160 | a triangle sums to its turn, and its moments to that times the sum of the corners |
| HullLocations.HullArea | src/algorithm/CGAlgorithms.cpp:296-319 | the shoelace sum of a hull ring is negative, so that its signed area is positive |
| HullLocations.HullContribution | src/algorithm/Centroid.cpp:109-119 | a shell that is a hull ring lowers the area sum, by the same amount in either direction |
| RingOrientation.IsCCW | src/algorithm/CGAlgorithms.cpp:98-179 | the orientation is the judgement at the first highest vertex, between the next different vertices before and after it; refused below four points (which judgement is counter-clockwise: the two rows that follow) |
| HullLocations.TriangleOrientation | src/algorithm/CGAlgorithms.cpp:98-179 | a triangle is counter-clockwise iff its corners turn left |
| HullLocations.HullOrientation | src/algorithm/CGAlgorithms.cpp:98-179 | a hull ring is never counter-clockwise, its reverse always |
| RingOrientation.ReversalFlipsIff | src/algorithm/CGAlgorithms.cpp:98-179 | reversing a ring turns the answer round iff its first and last highest vertices are judged alike, a spike at the last counting as counter-clockwise |
| RingOrientation.OnePeakAgreesIff | src/algorithm/CGAlgorithms.cpp:98-179 | with one highest vertex, iff the ring does not turn straight back there |
| RingOrientation.OrientationStartingAt | src/algorithm/CGAlgorithms.cpp:98-179 | a ring that starts elsewhere is judged at the highest vertex met first from there |
| Segments.OnSegmentIff | src/geom/Envelope.cpp:44-54 | a point is on a segment iff it is in line with its ends and in their envelope |
| Segments.SharedIsCrossing | src/algorithm/LineIntersector.cpp:383-455 | segments that no orientation test separates and that are not parallel share exactly the crossing of their lines |
| Segments.ParallelInLine | src/algorithm/LineIntersector.cpp:425-447 | parallel segments that no test separates lie in one line |
| Segments.CrossingEnds | src/algorithm/LineIntersector.cpp:456-550 | the crossing is each end with a zero test, and lies inside both segments iff no test is zero |
| LineIntersectors.LineIntersector.ComputeIntersection | src/algorithm/LineIntersector.cpp:139-147 | the stored result and points describe exactly the points the segments share: none, one, or the segment between the two stored points; proper iff the one point is inside both |
| LineIntersectors.LineIntersector.ComputeIntersect | src/algorithm/LineIntersector.cpp:383-550 | the same for the classification itself |
| LineIntersectors.LineIntersector.ComputeCollinearIntersection | src/algorithm/LineIntersector.cpp:554-740 | for segments in one line the two stored points are the ends of the overlap |
| LineIntersectors.ResultCountsIff | src/algorithm/LineIntersector.cpp:383-740 | the result tells none, one and several shared points apart iff both segments have a length or nothing is shared |
| LineIntersectors.NoLengthOnSegment | src/algorithm/LineIntersector.cpp:554-740 | a segment without length on another one: one shared point, reported as collinear |
| LineIntersectors.OverlapInLine | src/algorithm/LineIntersector.cpp:554-740 | which segment the shared points form, by which ends lie in the other's envelope |
| LineIntersectors.EnvelopesApart | src/geom/Envelope.cpp:58-80 | segments with disjoint envelopes share no point |
| LineIntersectors.LineIntersector.Intersection | src/algorithm/LineIntersector.cpp:744-810 | stores the crossing of the lines; neither fallback to the nearest end point is ever reached |
| LineIntersectors.HIntersectionIsCrossing | src/algorithm/HCoordinate.cpp:44-80 | the homogeneous computation finds the crossing, and fails exactly for parallel lines |
| LineIntersectors.NormalizationIsNeutral | src/algorithm/LineIntersector.cpp:795-871 | shifting to the envelope centre and back changes nothing |
| LineIntersectors.LineIntersector.ComputePointIntersection | src/algorithm/LineIntersector.cpp:334-379 | a point intersects a segment iff it lies on it, properly iff it is no end |
| LineIntersectors.EdgeDistanceIsAlong | src/algorithm/LineIntersector.cpp:108-135 | on the segment the edge distance is proportional to the parameter, so it orders points along it |
| HullGeometry.PolarTotalOrder | src/algorithm/ConvexHull.cpp:56-81 | polarCompare around the lowest point is a total order on the points above it, with ties only for equal points |
| HullGeometry.PoppedIsSpanned | src/algorithm/ConvexHull.cpp:294-314 | a point popped from the stack is a convex combination of its neighbours and the first point |
| HullChains.NoLeftTurnAnywhere | src/algorithm/ConvexHull.cpp:294-314 | in a chain in radial order without a left turn at consecutive points no three points turn left |
| HullChains.CleanChainPrefix | src/algorithm/ConvexHull.cpp:489-520 | what the cleaner keeps of a chain: a sublist that spans every dropped point and turns right at every kept one |
| HullChains.BetweenIsSpanned | src/algorithm/ConvexHull.cpp:419-441 | a point that isBetween accepts is a convex combination of the two others |
| HullRings.CleanedChain | src/algorithm/ConvexHull.cpp:470-520 | cleaning a closed chain gives a hull ring of its points, or a segment there and back |
| HullRings.HullRingOfSpanned | src/algorithm/ConvexHull.cpp:181-214 | the hull ring of kept points that span all points is the hull ring of all points |
| ConvexHulls.SortIsUnique | src/algorithm/ConvexHull.cpp:289-290 | any two radially sorted arrangements of the same points are equal |
| ConvexHulls.ComputeOctPts | src/algorithm/ConvexHull.cpp:121-155 | the eight points are the first extreme points in the eight directions: no input point is further left, up, right, down or along a diagonal |
| ConvexHulls.ComputeOctRing | src/algorithm/ConvexHull.cpp:160-177 | the octagon holds exactly those points, closed; refused iff fewer than three corners remain |
| ConvexHulls.InRingIsSpanned | src/algorithm/ConvexHull.cpp:181-214 | a point in or on a ring is a convex combination of ring points |
| ConvexHulls.ConvexHull.constructor | include/geos/algorithm/ConvexHull.inl:43-48 | the input is reduced to its distinct points |
| ConvexHulls.ConvexHull.Reduce | src/algorithm/ConvexHull.cpp:181-214 | keeps the octagon and the points outside it; the kept points span all the input points |
| ConvexHulls.ConvexHull.ReducedSet | src/algorithm/ConvexHull.cpp:191-208 | the kept set in coordinate order: exactly the ring points and the points outside the ring |
| ConvexHulls.ConvexHull.PadArray3 | src/algorithm/ConvexHull.cpp:218-223 | pads to three by the first point and changes nothing else |
| ConvexHulls.ConvexHull.PreSort | src/algorithm/ConvexHull.cpp:271-290 | the same points, the lowest then leftmost first, the rest in radial order around it |
| ConvexHulls.GrahamScan | src/algorithm/ConvexHull.cpp:294-314 | the stack is a chain of input points in radial order without left turns that spans all of them |
| ConvexHulls.CleanRing | src/algorithm/ConvexHull.cpp:489-520 | the loop computes the cleaned ring |
| ConvexHulls.LineOrPolygon | src/algorithm/ConvexHull.cpp:470-485 | given the closed ring that a scan left, the result is the hull of its points: a line or a polygon |
| ConvexHulls.ConvexHull.GetConvexHull | src/algorithm/ConvexHull.cpp:226-267 | the hull uses only input points, its ring always turns right, and every input point is on or to the right of every edge; two or fewer points and collinear points give the degenerate forms |
| ConvexHulls.PolygonIffNotCollinear | src/algorithm/ConvexHull.cpp:226-267 | the hull is a polygon iff the points are not all on one line |
| EdgeEnds.CompareIsAngleOrder | src/geomgraph/EdgeEnd.cpp:166-182 | the comparison is the counter-clockwise order of angles from the positive x axis, and zero iff the ends point along one ray |
| EdgeEnds.AnglesOfCompass | src/geomgraph/EdgeEnd.cpp:166-182 | the angles ascend from east over north, west and south, through the diagonals |
| EdgeEnds.CompareTransitive | src/geomgraph/EdgeEnd.cpp:166-182 | it is transitive, with its ties: a strict weak order at every node |
| EdgeEnds.CompareAntisymmetric | src/geomgraph/EdgeEnd.cpp:166-182 | exchanging the ends negates the comparison |
| SideLabels.PropagationCompletes | src/geomgraph/EdgeEndStar.cpp:259-343 | without a conflict the propagated labels leave nothing unknown, change nothing known, agree around the node, and an unknown ON location becomes the one left of the area edge before it |
| SideLabels.ConflictIsReal | src/geomgraph/EdgeEndStar.cpp:259-343 | with a conflict no completion of the labels agrees around the node |
| GeomGraph.DirectedEdgeStar.PropagateSideLabels | src/geomgraph/EdgeEndStar.cpp:259-343 | fails iff the side labels conflict; otherwise fills every label with the location reached there; the other geometry's labels are untouched |
| GeomGraph.DirectedEdgeStar.FillLabel | src/geomgraph/EdgeEndStar.cpp:291-341 | what happens to one label, and when it is a conflict |
| GeomGraph.DirectedEdgeStar.CheckAreaLabelsConsistent | src/geomgraph/EdgeEndStar.cpp:211-255 | true iff every edge separates two locations and right sides agree with the left sides before them, cyclically |
| GeomGraph.DirectedEdge.SetEdgeDepths | src/geomgraph/DirectedEdge.cpp:104-184 | from a depth on either side sets both, left being right plus the delta; fails iff one clashes with a depth already there |
| GeomGraph.DirectedEdge.constructor | src/geomgraph/DirectedEdge.cpp:160-165 | a backward directed edge has its edge's locations with left and right exchanged |
| GeomGraph.TwinsExchangeSides | src/geomgraph/DirectedEdge.cpp:115-121 | of the two directed edges of an edge the backward one has the negated delta, so that the same depths fit with the sides exchanged |
| Depths.AdmissibleJoin | src/geomgraph/DirectedEdgeStar.cpp:411-448 | depths can be carried over two stretches iff over each, entering the second with the depth reached |
| Depths.ClosesUpIffDeltasCancel | src/geomgraph/DirectedEdgeStar.cpp:411-430 | with no preset depths the way round closes iff the deltas around the node sum to zero |
| Depths.ClosesUpIffAssignable | src/geomgraph/DirectedEdgeStar.cpp:411-448 | the way round closes iff depths exist for all edges that add the deltas, meet their neighbours, and keep those assigned before |
| GeomGraph.DirectedEdgeStar.ComputeDepths | src/geomgraph/DirectedEdgeStar.cpp:411-430 | succeeds iff no preset depth clashes on the way round and it returns to the start; then every edge meets its neighbour's depth and adds its delta, the starting edge iff the depths it came with do |
| GeomGraph.ComputeDepthsOver | src/geomgraph/DirectedEdgeStar.cpp:434-448 | the same for one stretch of the star |
| ResultLinks.StuckIff | src/geomgraph/DirectedEdgeStar.cpp:252-262 | linking fails iff there is an incoming but no outgoing result edge |
| ResultLinks.LinksGoToNext | src/geomgraph/DirectedEdgeStar.cpp:213-263 | every link goes from an incoming result edge to the next outgoing one, going round |
| ResultLinks.AlternatingLinks | src/geomgraph/DirectedEdgeStar.cpp:213-263 | when they alternate, every incoming edge is linked, to the very next edge |
| ResultLinks.AlternatingBijection | src/geomgraph/DirectedEdgeStar.cpp:213-263 | when they alternate, the links are a bijection from incoming to outgoing result edges |
| GeomGraph.NextLinksTurn | src/geomgraph/DirectedEdgeStar.cpp:213-263 | turning counter-clockwise from an incoming result edge to the one linked to it, no other outgoing result edge is met |
| GeomGraph.MinLinksTurn | src/geomgraph/DirectedEdgeStar.cpp:267-309 | turning clockwise, none of the ring's outgoing edges is met before the one linked to |
| GeomGraph.NoneBetween | src/geomgraph/DirectedEdgeStar.cpp:313-340 | between an edge of a star and the one after it, counter-clockwise and going round, there is no other |
| GeomGraph.DirectedEdgeStar.GetResultAreaEdges | src/geomgraph/DirectedEdgeStar.cpp:193-209 | the edges in the result in either direction, in order; computed once |
| GeomGraph.DirectedEdgeStar.LinkResultDirectedEdges | src/geomgraph/DirectedEdgeStar.cpp:213-263 | sets `next` as the linking machine says over the area edges of the result, listed now or before, each incoming edge to the next outgoing one counter-clockwise; changes no link on failure, and none of other edges |
| GeomGraph.DirectedEdgeStar.LinkMinimalDirectedEdges | src/geomgraph/DirectedEdgeStar.cpp:267-309 | the same clockwise over the edges of one ring, through `nextMin` |
| GeomGraph.DirectedEdgeStar.LinkAllDirectedEdges | src/geomgraph/DirectedEdgeStar.cpp:313-340 | every incoming edge is linked to the outgoing edge after its twin, cyclically, with none between them counter-clockwise |
| GeomGraph.DirectedEdgeStar.FindCoveredLineEdges | src/geomgraph/DirectedEdgeStar.cpp:344-407 | marks the line edges here, each as covered iff the pass reaches it inside the result area, and no other edge; marks nothing if no edge here bounds the result |
| GeomGraph.LineOrAreaEdge | src/geomgraph/DirectedEdge.cpp:133-141 | an edge that is an area edge for one geometry is a line edge iff it is a line for the other and outside the first altogether |
| GeomGraph.LineIsMarked | src/geomgraph/DirectedEdgeStar.cpp:386-406 | every line edge gets a mark, and where an edge both starts and ends at the node its last place decides |
| GeomGraph.MarkedIsLine | src/geomgraph/DirectedEdgeStar.cpp:386-406 | no other edge gets a mark |
| Coverings.LocBetweenBounds | src/geomgraph/DirectedEdgeStar.cpp:344-407 | a line edge is found where the last bounding edge before it has its left side, or, if none came before, where the next one has its right side |
| Coverings.LocOfConsistent | src/geomgraph/DirectedEdgeStar.cpp:344-407 | if the bounding edges are consistent, both neighbours of a line edge have the location found on the side that faces it |
| Coverings.StartIsNeutralIff | src/geomgraph/DirectedEdgeStar.cpp:344-407 | the pass finds the same locations from whatever edge it starts iff the bounding edges on the two sides of each other edge agree |
| Coverings.StartMatters | src/geomgraph/DirectedEdgeStar.cpp:344-407 | a line edge between two bounding edges that disagree, found inside from one start and outside from another |
| Coverings.ResultIsOnRight | src/geomgraph/DirectedEdgeStar.cpp:344-407 | past a bounding edge a line edge is inside iff the incoming edge is in the result, before it iff the outgoing one is |
| GeomGraph.DirectedEdgeStar.Insert | src/geomgraph/DirectedEdgeStar.cpp:48-54 | a star whose angles ascend counter-clockwise from the positive x axis stays so: it gains the edge, or stays as it was iff an edge in that direction is present |
| GeomGraph.EdgeRing.ComputePoints | src/geomgraph/EdgeRing.cpp:224-254 | ends on any links; the edges form a trail with their points collected and only its own edges marked; returns to the start if the links are a permutation |
| GeomGraph.EdgeRing.AddPoints | src/geomgraph/EdgeRing.cpp:333-367 | appends the edge's points in the direction of travel, without the first unless it starts the ring |
| GeomGraph.EdgeRing.ComputeRing | src/geomgraph/EdgeRing.cpp:200-211 | makes the linear ring iff the points are closed and four or more, and marks as a hole the one that the orientation test finds counter-clockwise (`HullLocations.HullOrientation`: of a hull ring, the reverse alone) |
| GeomGraph.TrailOnlyCloses | src/geomgraph/EdgeRing.cpp:231-240 | on a permutation a trail never runs into its own middle or a missing link |
| PlanarGraphs.PlanarGraph.Add | src/geomgraph/PlanarGraph.cpp:134-144 | records the directed edge and inserts it in the star of its own node only |
| PlanarGraphs.PlanarGraph.AddNode | src/geomgraph/NodeMap.cpp:59-83 | finds or creates the one node at a coordinate |
| PlanarGraphs.PlanarGraph.AddEdges | src/geomgraph/PlanarGraph.cpp:202-224 | adds each edge and its pair of twin directed edges, in order; fails iff an edge has no direction at an end |
| PlanarGraphs.LeavingSorted | src/geomgraph/EdgeEnd.cpp:159-182 | a star is in strict angular order: the angles of its edges ascend counter-clockwise from the positive x axis |
| PlanarGraphs.LeavingHoldsAll | src/geomgraph/DirectedEdgeStar.cpp:48-54 | with distinct directions the stars hold every directed edge |
| PlanarGraphs.PlanarGraph.LinkAllDirectedEdges | src/geomgraph/PlanarGraph.cpp:254-274 | every star is linked round: the twin of each edge held leads on to an edge at its own end, with no other edge there between its twin and that one counter-clockwise; twins of dropped edges stay as they were |
| PlanarGraphs.HeldLeadsOn | src/geomgraph/DirectedEdgeStar.cpp:313-340 | the same of any graph whose stars are linked round |
| PlanarGraphs.LinkingPermutes | src/geomgraph/PlanarGraph.cpp:254-274 | the links are a permutation of all directed edges iff no two leave one node in the same direction; each leads on from where its edge ends |
| PlanarGraphs.SameDirection | src/geomgraph/PlanarGraph.cpp:254-274 | two segments that leave the origin along the x axis: the twin of the second is left without a link |
| PlanarGraphs.PlanarGraph.LinkResultDirectedEdges | src/geomgraph/PlanarGraph.cpp:228-246 | fails iff the linking around some node is stuck; otherwise every node is linked |
| PlanarGraphs.RotationPermutes | src/geomgraph/PlanarGraph.cpp:228-274 | going from twin to next around every node permutes the edges |
| PlanarGraphs.ResultLinkingPermutes | src/geomgraph/PlanarGraph.cpp:228-246 | if the result's area edges alternate around every node, the links permute exactly those edges |
| PolygonBuilders.NewMaximalEdgeRing | src/operation/overlay/MaximalEdgeRing.cpp:48-60 | traces the edges from one and makes a linear ring of the points: done iff they form a cycle whose points are a valid ring; on a permutation they do form a cycle |
| PolygonBuilders.CyclesMeet | src/geomgraph/EdgeRing.cpp:224-254 | on a permutation a ring that meets another one lies in it from its start |
| PolygonBuilders.BuildMaximalEdgeRings | src/operation/overlay/PolygonBuilder.cpp:134-179 | if the links permute the area edges of the result, or all edges, the rings are disjoint cycles that hold all of those area edges, and building fails only at a cycle whose points make no ring; if the links also join at the nodes, it fails iff such an edge lies on a short ring |
| PolygonBuilders.CycleIsValidIff | src/geom/LinearRing.cpp:60-80 | the points of a joined cycle make a linear ring iff none of its edges leads back over fewer than four points |
| PolygonBuilders.OnShortRingIff | src/geomgraph/EdgeRing.cpp:200-211 | with distinct directions an edge is on a short ring iff it is a single segment that leads to its twin and back |
| PolygonBuilders.LinkedRings | src/geomgraph/PlanarGraph.cpp:254-274 | after `linkAllDirectedEdges` with distinct directions all edges form joined cycles, short exactly at such segments |
| PolygonBuilders.LoneSegment | src/geomgraph/PlanarGraph.cpp:254-274 | a lone segment is linked into a ring of three points, which cannot be made |
| PolygonBuilders.RingIsClosed | src/geomgraph/EdgeRing.cpp:224-254 | a ring's points are closed and run over every segment of its edges exactly once |
| NodedPaths.PiecesJoin | src/noding/SegmentNodeList.cpp:243-286 | every piece has at least two points, starts at its node and ends at the next |
| NodedPaths.SplitLosesNothing | src/noding/SegmentNodeList.cpp:174-212 | the pieces glued together are the vertices with each node inserted once, at its place |
| SegmentNodes.ComparePointsOrder | include/geos/noding/SegmentPointComparator.h:51-74 | in every octant the comparison is a strict total order of points |
| SegmentNodes.StartComesFirst | include/geos/noding/SegmentPointComparator.h:51-74 | within a segment's envelope its first point precedes all others |
| SegmentNodes.NodesAreOrdered | src/noding/SegmentNode.cpp:72-96 | on the nodes of one string the comparison is a strict weak order and ties are equal nodes |
| SegmentNodes.NodesRunAlong | include/geos/noding/SegmentPointComparator.h:51-74 | nodes that lie on one segment are in the order in which they lie along it, whatever its octant |
| SegmentNodes.SegmentNodeList.Add | src/noding/SegmentNodeList.cpp:61-77 | adds the node at that place and no other, once |
| SegmentNodes.SegmentNodeList.AddEndpoints | src/noding/SegmentNodeList.cpp:79-84 | adds the two ends and nothing else |
| SegmentNodes.SegmentNodeList.FindCollapsesFromExistingVertices | src/noding/SegmentNodeList.cpp:109-123 | exactly the vertices between two equal vertices |
| SegmentNodes.SegmentNodeList.FindCollapsesFromInsertedNodes | src/noding/SegmentNodeList.cpp:127-169 | exactly the vertices that alone lie between consecutive nodes at one place |
| SegmentNodes.SegmentNodeList.AddCollapsedNodes | src/noding/SegmentNodeList.cpp:88-104 | keeps all nodes, and adds exactly the nodes at vertices between two equal vertices and at vertices alone between consecutive nodes at one place |
| SegmentNodes.CollapseIsSpike | src/noding/SegmentNodeList.cpp:144-169 | the collapses found between nodes are exactly the pieces that go to a vertex and straight back |
| SegmentNodes.CollapsesAreNoded | src/noding/SegmentNodeList.cpp:88-123 | with those nodes no vertex between two equal vertices is passed between consecutive nodes |
| SegmentNodes.SegmentNodeList.CreateSplitEdge | src/noding/SegmentNodeList.cpp:243-286 | fills an array of exactly the right length with both nodes and the vertices between |
| SegmentNodes.SegmentNodeList.AddSplitEdges | src/noding/SegmentNodeList.cpp:174-212 | appends the pieces between consecutive nodes, which span the string in order; the nodes are exactly those given, the two ends and the collapses, and no vertex between two equal vertices is left inside a piece |
| SegmentNodes.NodedSegmentString.AddIntersection | src/noding/NodedSegmentString.cpp:86-118 | records the node on its segment, or on the next if it is the segment's last point; fails iff the index is out of range |
| SegmentNodes.GetNodedSubstrings | src/noding/NodedSegmentString.cpp:122-135 | the pieces of all strings, one string after the other, each split at all its nodes: the recorded ones and added vertices; no vertex between two equal ones is left inside a piece |
| EdgeIntersections.IntersectionsAreOrdered | include/geos/geomgraph/EdgeIntersection.h:79-92 | segment index, then distance, is a strict weak order |
| EdgeIntersections.EdgeIntersectionList.Add | src/geomgraph/EdgeIntersectionList.cpp:65-77 | keeps all intersections; afterwards that segment has one at that distance, and it is this one if all lie on the edge |
| EdgeIntersections.EdgeIntersectionList.AddIntersection | src/geomgraph/Edge.cpp:165-198 | records the intersection on its segment at its edge distance, or at the next vertex if it falls on it; one that lies on the segment is never lost |
| EdgeIntersections.EqualDistanceIsEqual | include/geos/geomgraph/EdgeIntersection.h:79-92 | intersections on the edge that compare as equal are equal |
| EdgeIntersections.ListIsAlong | include/geos/geomgraph/EdgeIntersection.h:79-92 | the list runs along the edge, on one segment as its points lie along it |
| EdgeIntersections.EdgeIntersectionList.AddEndpoints | src/geomgraph/EdgeIntersectionList.cpp:101-106 | the ends are held and only they were added |
| EdgeIntersections.EdgeIntersectionList.CreateSplitEdge | src/geomgraph/EdgeIntersectionList.cpp:131-178 | the stretch between two intersections, of exactly the reserved length |
| EdgeIntersections.EdgeIntersectionList.AddSplitEdges | src/geomgraph/EdgeIntersectionList.cpp:109-128 | appends the pieces between consecutive intersections, which span the edge in order |
| OrientedArrays.IncreasingDirection | src/geom/CoordinateSequence.cpp:145-157 | -1 iff in the outermost pair of different points the first is further left, or straight below; otherwise 1, for a palindrome too |
| OrientedArrays.CanonicalIff | src/noding/OrientedCoordinateArray.cpp:39-44 | two arrays have one canonical form iff they are equal or each other's reverse |
| OrientedArrays.CompareOriented | src/noding/OrientedCoordinateArray.cpp:69-94 | the walk in given directions is the lexicographic order of the arrays so read |
| OrientedArrays.LexIsFirstDifference | src/noding/OrientedCoordinateArray.cpp:69-94 | that order is decided at the first different place, by x and then by y, and a proper prefix comes first |
| OrientedArrays.CompareTo | src/noding/OrientedCoordinateArray.cpp:47-65 | compareTo is the lexicographic order of canonical forms |
| OrientedArrays.CompareArraysIsPreorder | src/noding/OrientedCoordinateArray.cpp:47-94 | it is a total preorder and 0 iff the arrays are equal or reversed |
| GeomGraph.Edge.Equals | src/geomgraph/Edge.cpp:202-225 | true iff the points are equal or each other's reverse |
| EdgeLists.LookupAssigned | src/geomgraph/EdgeList.cpp:44-49 | assigning to a key changes what is found under equivalent keys and no others |
| EdgeLists.EdgeList.Add | src/geomgraph/EdgeList.cpp:44-49 | appends the edge and keeps the index in agreement with the list |
| EdgeLists.EdgeList.FindEqualEdge | src/geomgraph/EdgeList.cpp:67-84 | the last edge with the same points in either direction, or null iff there is none |
| EdgeLists.EdgeList.FindEdgeIndex | src/geomgraph/EdgeList.cpp:98-105 | the first such edge's index, or -1 iff the index lookup finds none either |
| ByteOrderValues.PutInt | src/io/ByteOrderValues.cpp:51-69 | lays out the four bytes in the order asked for and touches no others |
| ByteOrderValues.PutLong | src/io/ByteOrderValues.cpp:103-129 | the same for eight bytes |
| ByteOrderValues.IntRoundTrip | src/io/ByteOrderValues.cpp:30-69 | an int written is the int read, in either order, whatever follows |
| ByteOrderValues.LongRoundTrip | src/io/ByteOrderValues.cpp:72-129 | the same for a double's pattern |
| WkbBytes.IntDigits | src/io/ByteOrderValues.cpp:30-69 | big-endian bytes are the digits of an int to the base 256 with the highest first, little-endian bytes the same backwards, written and read |
| WkbBytes.LongDigits | src/io/ByteOrderValues.cpp:72-129 | the same for eight bytes |
| WkbBytes.WrittenPrefix | src/io/WKBWriter.cpp:217-259 | a geometry written begins with 1 (little-endian) or 0, and its type is its code from 1 to 7 with 0x80 and 0x20 in the highest byte for three dimensions and an SRID |
| WkbBytes.WrittenCount | src/io/WKBWriter.cpp:140-214 | then comes the number of points, rings or members |
| WkbBytes.WrittenShell | src/io/WKBWriter.cpp:160-192 | and in a polygon that of the points of the shell |
| WkbBytes.WrittenPoint | src/io/WKBWriter.cpp:290-308 | the 21 bytes of a big-endian point in the plane: 0, 0, 0, 0, 1, and the digits of x and y |
| WkbBytes.CoordinatesJoin | src/io/WKBWriter.cpp:277-287 | coordinates are written in their order |
| WkbBytes.ReadPrefix | src/io/WKBReader.cpp:234-314 | after a 0 or a 1 and the bytes of a type in that order, its lowest byte alone says what kind of geometry is read, and unknown codes are refused |
| WkbBytes.NaNPatterns | include/geos/geom/Coordinate.inl:35-39 | the NaNs are the patterns with all exponent bits and a fraction that is not zero |
| ByteOrderValues.CountRoundTrip | src/io/WKBWriter.cpp:277-286 | a count that an int can hold survives narrowing |
| WkbRoundTrip.TypeWordRead | src/io/WKBWriter.cpp:250-259 | type, Z flag and SRID flag come apart again |
| WkbRoundTrip.HeaderRead | src/io/WKBReader.cpp:234-268 | after a written header the body is read in its order, dimension and SRID |
| WkbRoundTrip.CoordinatesRead | src/io/WKBReader.cpp:480-507 | coordinates written are read back, without Z unless it was written |
| WkbRoundTrip.RoundTrip | src/io/WKBReader.cpp:227-493 | reading what was written, whatever follows, consumes exactly the bytes written and gives the geometry back as far as the form holds it |
| WkbPrefixes.GeometryExtends | src/io/WKBReader.cpp:234-493 | what is read from any bytes does not depend on what comes after it |
| WkbPrefixes.TruncatedIsRefused | src/io/WKBReader.cpp:234-493 | a geometry written and then cut short anywhere is refused |
| WkbRoundTrip.ReadBackIff | src/io/WKBWriter.cpp:82-308 | nothing is lost iff the form holds everything: SRIDs, dimensions, no ring of its own, no point of NaNs |
| WkbRoundTrip.NaNPointReadEmpty | src/io/WKBReader.cpp:316-325 | a point of NaNs is written, and read back as an empty one |
| WkbRoundTrip.DimensionRange | src/geom/Polygon.cpp:150-164 | the coordinate dimension of a geometry is two or three |
| WkbRoundTrip.DimensionIff | src/geom/Polygon.cpp:150-164 | it is three iff some sequence in the geometry is three-dimensional |
| WkbRoundTrip.ShortestRing | src/geom/LinearRing.cpp:60-80 | a ring of four points is read iff it is closed; one to three points are refused |
| WkbWriters.WKBWriter.WriteGeometryType | src/io/WKBWriter.cpp:250-259 | writes the type with the flags of the output dimension and the SRID |
| WkbWriters.WKBWriter.WriteCoordinateSequence | src/io/WKBWriter.cpp:277-308 | writes the count if asked for, and every coordinate in the output dimension |
| WkbWriters.WKBWriter.WritePolygon | src/io/WKBWriter.cpp:160-192 | writes header, ring count and rings; an empty polygon as no rings |
| WkbWriters.WKBWriter.WriteGeometryCollection | src/io/WKBWriter.cpp:195-214 | writes header, count and members, each with its own output dimension |
| WkbWriters.WKBWriter.Write | src/io/WKBWriter.cpp:82-128 | writes exactly the binary form after what was there; fails iff there is an empty point |
| WkbWriters.WKBWriter.WriteHEX | src/io/WKBWriter.cpp:70-80 | the hexadecimal digits of the binary form |
| WkbReaders.ByteOrderDataInStream.ReadInt | include/geos/io/ByteOrderDataInStream.inl:60-67 | takes four bytes in the current order, or fails on fewer |
| WkbReaders.WKBReader.ReadCoordinateSequence | src/io/WKBReader.cpp:480-507 | reads so many coordinates, or fails as the first failing one does |
| WkbReaders.WKBReader.ReadLinearRing | src/io/WKBReader.cpp:339-347 | reads a ring, refused iff it is neither empty nor closed with four points or more |
| WkbReaders.WKBReader.ReadPolygon | src/io/WKBReader.cpp:350-378 | reads shell and holes; no positive ring count gives an empty polygon |
| WkbReaders.WKBReader.ReadMembers | src/io/WKBReader.cpp:381-477 | reads so many geometries of the types the collection admits |
| WkbReaders.WKBReader.ReadGeometry | src/io/WKBReader.cpp:234-314 | on any bytes, the result, the bytes left and the byte order are those that the format defines, error cases included |
| WkbReaders.WKBReader.ReadHEX | src/io/WKBReader.cpp:78-224 | reads the decoded bytes; fails on a wrong or missing digit |
| WkbReaders.HexFormRoundTrip | src/io/WKBReader.cpp:52-224 | the hexadecimal form gives back the bytes and so the geometry |
| WkbHex.HexRoundTrip | src/io/WKBReader.cpp:52-224 | decoding the digits printed gives the bytes |
| WkbHex.PrintHEX | src/io/WKBReader.cpp:52-75 | prints two digits a byte, the high one first |
| WkbHex.DigitsInOrder | src/io/WKBReader.cpp:52-220 | the digits printed are 0-9 and A-F in order, and those and a-f alone are read, each as its place in that order |
| WkbHex.PairIsSixteensFirst | src/io/WKBReader.cpp:63-70 | of a byte the digit of the sixteens comes first |
| WkbHex.DecodeHEX | src/io/WKBReader.cpp:78-220 | decodes digits in either case up to the end of the input, or fails |
| WkbHex.EndCutsOff | src/io/WKBReader.cpp:85-91 | the character 0xFF in a high place is taken for the end of the input |

## Left out

- Floating-point rounding, precision models, Z values (except in the binary format) and NaN coordinates outside it.
- `EdgeRing::mergeLabel`, `setInResult` and node degrees: they only read the links proved here.
- Building minimal edge rings out of a maximal one: the minimal linking around a node is modelled, its tracing is not.
- The linear and point parts of the centroid, which need square roots.
- `nearestEndpoint`: it is proved never to be reached in exact arithmetic.
- `computeIntLineIndex`, `interpolateZ` and the other accessors of the line intersector.
- That after `addCollapsedNodes` no collapse remains: the original does not promise it for arbitrary nodes.
- The order in which a failing `linkResultDirectedEdges` has already linked other nodes.
- Label merging at nodes, isolated nodes, `computeLabelling`, overlay and relate operations.
- Allocation failure for huge but positive counts, and counts beyond 2147483647, which an int cannot hold.
- Segment strings and edges of fewer than two points, which have no segment to split.
- A positive depth delta changed after its directed edges exist: the delta of an edge is constant here.
- SegmentNodes.SegmentNodeList.Add: takes normalized places, as its header asks (include/geos/noding/SegmentNodeList.h:133-136), within the envelope of their segment; farther points would sort before its first vertex.
- SegmentNodes.NodedSegmentString.AddIntersection: takes points within the envelope of the segment that contains them, for the same reason.
- EdgeIntersections.EdgeIntersectionList.Add: takes normalized intersections, as its header asks (include/geos/geomgraph/EdgeIntersectionList.h:74-78): at distance zero exactly at the first vertex of their segment.
- PlanarGraphs.PlanarGraph.LinkResultDirectedEdges: takes stars whose list of result area edges is not yet computed, or is up to date; a stale list, which the original would use, is covered for one star only.
- The assertion in `computePoints` that every edge it meets is an area edge, and rings made of no edges.
