/** Segment strings that collect nodes and are split at them. */
module SegmentNodes {
  import opened Coordinates
  import opened NodedPaths
  import opened Numbers
  import opened OrderedSets
  import LineIntersectors
  import Segments

  // ---------- octants, and the order of points along a segment ----------

  /** The octant of a non-zero direction. */
  function Octant(dx: int, dy: int): int {
    var adx, ady := Abs(dx), Abs(dy);
    if dx >= 0 then
      if dy >= 0 then (if adx >= ady then 0 else 1) else (if adx >= ady then 7 else 6)
    else
      if dy >= 0 then (if adx >= ady then 3 else 2) else (if adx >= ady then 4 else 5)
  }

  function SafeOctant(p0: Coordinate, p1: Coordinate): int {
    if p0 == p1 then 0 else Octant(p1.x - p0.x, p1.y - p0.y)
  }

  function RelativeSign(x0: int, x1: int): int {
    if x0 < x1 then -1 else if x0 > x1 then 1 else 0
  }

  function CompareValue(compareSign0: int, compareSign1: int): int {
    if compareSign0 < 0 then -1
    else if compareSign0 > 0 then 1
    else if compareSign1 < 0 then -1
    else if compareSign1 > 0 then 1
    else 0
  }

  /** SegmentPointComparator::compare; any other octant is an error there. */
  function ComparePoints(octant: int, p0: Coordinate, p1: Coordinate): int {
    if p0 == p1 then 0
    else
      var xSign, ySign := RelativeSign(p0.x, p1.x), RelativeSign(p0.y, p1.y);
      match octant
      case 0 => CompareValue(xSign, ySign)
      case 1 => CompareValue(ySign, xSign)
      case 2 => CompareValue(ySign, -xSign)
      case 3 => CompareValue(-xSign, ySign)
      case 4 => CompareValue(-xSign, -ySign)
      case 5 => CompareValue(-ySign, -xSign)
      case 6 => CompareValue(-ySign, xSign)
      case 7 => CompareValue(xSign, -ySign)
      case _ => 0
  }

  lemma ComparePointsOrder(octant: int, p: Coordinate, q: Coordinate, r: Coordinate)
    requires 0 <= octant < 8
    ensures ComparePoints(octant, p, q) == 0 <==> p == q
    ensures ComparePoints(octant, p, q) == -ComparePoints(octant, q, p)
    ensures ComparePoints(octant, p, q) < 0 && ComparePoints(octant, q, r) < 0 ==> ComparePoints(octant, p, r) < 0
  {
  }

  /** Within the segment's envelope its first point comes before all others. */
  lemma StartComesFirst(p0: Coordinate, p1: Coordinate, p: Coordinate)
    requires LineIntersectors.EnvelopeHolds(p0, p1, p) && p != p0
    ensures 0 <= SafeOctant(p0, p1) < 8 && ComparePoints(SafeOctant(p0, p1), p0, p) < 0
  {
  }

  // ---------- nodes ----------

  datatype SegmentNode = SegmentNode(coord: Coordinate, segmentIndex: int, segmentOctant: int, isInterior: bool)

  function CompareNodes(a: SegmentNode, b: SegmentNode): int {
    if a.segmentIndex < b.segmentIndex then -1
    else if a.segmentIndex > b.segmentIndex then 1
    else if a.coord == b.coord then 0
    else ComparePoints(a.segmentOctant, a.coord, b.coord)
  }

  const NodeLess := (a: SegmentNode, b: SegmentNode) => CompareNodes(a, b) < 0

  function SegmentOctant(pts: seq<Coordinate>, index: int): int
    requires 0 <= index < |pts|
  {
    if index >= |pts| - 1 then -1 else SafeOctant(pts[index], pts[index + 1])
  }

  /** The place is on the string: within the envelope of its segment, and not at the segment's last point, which
      belongs to the next one. */
  predicate OnString(pts: seq<Coordinate>, coord: Coordinate, index: int) {
    && 0 <= index < |pts|
    && if index == |pts| - 1 then coord == pts[index]
       else LineIntersectors.EnvelopeHolds(pts[index], pts[index + 1], coord) && (coord == pts[index + 1] ==> coord == pts[index])
  }

  /** A node as the list constructs it. */
  ghost predicate IsNode(pts: seq<Coordinate>, n: SegmentNode) {
    && OnString(pts, n.coord, n.segmentIndex)
    && n.segmentOctant == SegmentOctant(pts, n.segmentIndex)
    && n.isInterior == (n.coord != pts[n.segmentIndex])
  }

  /** On the nodes of one string the comparison is a strict weak order, and only equal places are equivalent. */
  lemma NodesAreOrdered(pts: seq<Coordinate>, S: set<SegmentNode>)
    requires forall n :: n in S ==> IsNode(pts, n)
    ensures StrictWeakOrder(NodeLess, S)
    ensures forall a, b :: a in S && b in S && Equivalent(NodeLess, a, b) ==> a == b
  {
    hide CompareNodes, IsNode;
    forall a, b, c | a in S && b in S && c in S
      ensures NodeLess(a, b) && NodeLess(b, c) ==> NodeLess(a, c)
      ensures !NodeLess(a, b) && !NodeLess(b, c) ==> !NodeLess(a, c)
    {
      NodeOrder(pts, a, b, c);
    }
    forall a, b | a in S && b in S
      ensures !NodeLess(a, a) && (Equivalent(NodeLess, a, b) ==> a == b)
    {
      NodeOrder(pts, a, b, b);
      SelfEqual(a);
    }
  }

  lemma SelfEqual(a: SegmentNode)
    ensures CompareNodes(a, a) == 0
  {
  }

  lemma NodeOrder(pts: seq<Coordinate>, a: SegmentNode, b: SegmentNode, c: SegmentNode)
    requires IsNode(pts, a) && IsNode(pts, b) && IsNode(pts, c)
    ensures CompareNodes(a, b) < 0 && CompareNodes(b, c) < 0 ==> CompareNodes(a, c) < 0
    ensures CompareNodes(a, b) >= 0 && CompareNodes(b, c) >= 0 ==> CompareNodes(a, c) >= 0
    ensures CompareNodes(a, b) >= 0 && CompareNodes(b, a) >= 0 ==> a == b
  {
    hide ComparePoints;
    if a.segmentIndex == b.segmentIndex == c.segmentIndex && a.segmentIndex < |pts| - 1 {
      var octant := a.segmentOctant;
      ComparePointsOrder(octant, a.coord, b.coord, c.coord);
      ComparePointsOrder(octant, b.coord, c.coord, a.coord);
      ComparePointsOrder(octant, c.coord, a.coord, b.coord);
      ComparePointsOrder(octant, b.coord, a.coord, c.coord);
    } else if a.segmentIndex == b.segmentIndex && a.segmentIndex < |pts| - 1 {
      ComparePointsOrder(a.segmentOctant, a.coord, b.coord, c.coord);
    }
  }

  // ---------- nodes as stops on the string ----------

  ghost function Stops(nodes: seq<SegmentNode>): (stops: seq<Stop>)
    ensures |stops| == |nodes|
    ensures forall k :: 0 <= k < |nodes| ==> stops[k] == ToStop(nodes[k])
  {
    seq(|nodes|, k requires 0 <= k < |nodes| => ToStop(nodes[k]))
  }

  ghost function ToStop(n: SegmentNode): Stop {
    Stop(n.coord, n.segmentIndex)
  }

  ghost predicate IsNodeList(pts: seq<Coordinate>, nodes: seq<SegmentNode>) {
    && Sorted(NodeLess, nodes)
    && forall k :: 0 <= k < |nodes| ==> IsNode(pts, nodes[k])
  }

  /** A node at a vertex comes before all others on the segment. */
  lemma VertexFirst(pts: seq<Coordinate>, a: SegmentNode, b: SegmentNode)
    requires IsNode(pts, a) && IsNode(pts, b) && a.segmentIndex == b.segmentIndex && AtVertex(pts, ToStop(b))
    ensures !NodeLess(a, b)
  {
    if a.coord != b.coord {
      StartComesFirst(pts[a.segmentIndex], pts[a.segmentIndex + 1], a.coord);
      ComparePointsOrder(a.segmentOctant, b.coord, a.coord, b.coord);
    }
  }

  lemma SegmentsAscend(pts: seq<Coordinate>, a: SegmentNode, b: SegmentNode)
    requires IsNode(pts, a) && IsNode(pts, b) && NodeLess(a, b)
    ensures a.segmentIndex <= b.segmentIndex && (AtVertex(pts, ToStop(b)) ==> a.segmentIndex < b.segmentIndex)
  {
    if a.segmentIndex == b.segmentIndex && AtVertex(pts, ToStop(b)) {
      VertexFirst(pts, a, b);
    }
  }

  lemma NodesInOrder(pts: seq<Coordinate>, nodes: seq<SegmentNode>)
    requires IsNodeList(pts, nodes)
    ensures InOrder(pts, Stops(nodes))
  {
    hide IsNode, CompareNodes;
    forall j, k | 0 <= j < k < |nodes|
      ensures nodes[j].segmentIndex <= nodes[k].segmentIndex
      ensures 0 <= nodes[k].segmentIndex < |pts|
      ensures AtVertex(pts, ToStop(nodes[k])) ==> nodes[j].segmentIndex < nodes[k].segmentIndex
    {
      NodeInRange(pts, nodes[k]);
      SegmentsAscend(pts, nodes[j], nodes[k]);
    }
    forall k | 0 <= k < |nodes|
      ensures 0 <= nodes[k].segmentIndex < |pts|
    {
      NodeInRange(pts, nodes[k]);
    }
  }

  lemma NodeInRange(pts: seq<Coordinate>, n: SegmentNode)
    requires IsNode(pts, n)
    ensures 0 <= n.segmentIndex < |pts| && (n.isInterior <==> !AtVertex(pts, ToStop(n)))
    ensures n.segmentIndex == |pts| - 1 ==> AtVertex(pts, ToStop(n))
  {
  }

  /** With the end points among them, the nodes span the string. */
  lemma NodesSpan(pts: seq<Coordinate>, nodes: seq<SegmentNode>, i: nat, j: nat)
    requires IsNodeList(pts, nodes) && pts != [] && i < |nodes| && j < |nodes|
    requires ToStop(nodes[i]) == Stop(pts[0], 0) && ToStop(nodes[j]) == Stop(pts[|pts| - 1], |pts| - 1)
    ensures SpansPath(pts, Stops(nodes))
  {
    NodesInOrder(pts, nodes);
    hide IsNode, CompareNodes, IsNodeList;
    var stops, last := Stops(nodes), |nodes| - 1;
    assert AtVertex(pts, stops[i]) && AtVertex(pts, stops[j]);
    ListedNode(pts, nodes, last);
    NodeInRange(pts, nodes[last]);
    VertexNotBefore(pts, stops, 0, i);
    VertexNotBefore(pts, stops, j, last);
  }

  lemma VertexNotBefore(pts: seq<Coordinate>, stops: seq<Stop>, j: nat, k: nat)
    requires InOrder(pts, stops) && j < |stops| && k < |stops| && AtVertex(pts, stops[k])
    requires stops[k].segment <= stops[j].segment
    ensures k <= j
  {
  }

  lemma ListedNode(pts: seq<Coordinate>, nodes: seq<SegmentNode>, k: nat)
    requires IsNodeList(pts, nodes) && k < |nodes|
    ensures IsNode(pts, nodes[k])
  {
  }

  // ---------- the order along a segment ----------

  /** In the direction of the octant one axis decides. */
  lemma OctantAxis(a: Coordinate, b: Coordinate)
    requires a != b
    ensures var o := SafeOctant(a, b);
            && 0 <= o < 8
            && (o == 0 || o == 7 ==> b.x > a.x) && (o == 3 || o == 4 ==> b.x < a.x)
            && (o == 1 || o == 2 ==> b.y > a.y) && (o == 5 || o == 6 ==> b.y < a.y)
  {
  }

  lemma ComparedOnAxis(o: int, p: Coordinate, q: Coordinate)
    requires 0 <= o < 8 && ComparePoints(o, p, q) < 0
    ensures o == 0 || o == 7 ==> p.x <= q.x
    ensures o == 3 || o == 4 ==> p.x >= q.x
    ensures o == 1 || o == 2 ==> p.y <= q.y
    ensures o == 5 || o == 6 ==> p.y >= q.y
    ensures p != q
  {
  }

  /** Nodes that lie on one segment are in the order in which they lie along it. */
  lemma NodesRunAlong(pts: seq<Coordinate>, x: SegmentNode, y: SegmentNode)
    requires IsNode(pts, x) && IsNode(pts, y) && x.segmentIndex == y.segmentIndex < |pts| - 1 && NodeLess(x, y)
    requires var i := x.segmentIndex; var a, b := Segments.Exact(pts[i]), Segments.Exact(pts[i + 1]);
             Segments.OnSegment(Segments.Exact(x.coord), a, b) && Segments.OnSegment(Segments.Exact(y.coord), a, b)
    ensures Segments.Along(Segments.Exact(x.coord), Segments.Exact(y.coord), Segments.Exact(pts[x.segmentIndex]),
                           Segments.Exact(pts[x.segmentIndex + 1]))
  {
    hide SafeOctant, ComparePoints, Segments.At, LineIntersectors.EnvelopeHolds;
    var i := x.segmentIndex;
    OctantComparesAlong(pts[i], pts[i + 1], x.coord, y.coord);
  }

  /** The comparison in a segment's own octant is the order along the segment. */
  lemma OctantComparesAlong(a: Coordinate, b: Coordinate, p: Coordinate, q: Coordinate)
    requires ComparePoints(SafeOctant(a, b), p, q) < 0
    requires Segments.OnSegment(Segments.Exact(p), Segments.Exact(a), Segments.Exact(b))
    requires Segments.OnSegment(Segments.Exact(q), Segments.Exact(a), Segments.Exact(b))
    ensures Segments.Along(Segments.Exact(p), Segments.Exact(q), Segments.Exact(a), Segments.Exact(b))
  {
    hide SafeOctant, ComparePoints, Segments.At, Segments.Exact;
    var t :| 0.0 <= t <= 1.0 && Segments.Exact(p) == Segments.At(Segments.Exact(a), Segments.Exact(b), t);
    var u :| 0.0 <= u <= 1.0 && Segments.Exact(q) == Segments.At(Segments.Exact(a), Segments.Exact(b), u);
    ParametersAscend(a, b, p, q, t, u);
  }

  lemma ParametersAscend(a: Coordinate, b: Coordinate, p: Coordinate, q: Coordinate, t: real, u: real)
    requires ComparePoints(SafeOctant(a, b), p, q) < 0
    requires Segments.Exact(p) == Segments.At(Segments.Exact(a), Segments.Exact(b), t)
    requires Segments.Exact(q) == Segments.At(Segments.Exact(a), Segments.Exact(b), u)
    ensures t < u
  {
    hide SafeOctant, ComparePoints;
    if a == b {
      OneOnNoLength(p, a, t);
      OneOnNoLength(q, a, u);
      ComparedSame(SafeOctant(a, b), p);
      assert false;
    } else {
      OctantAxis(a, b);
      ComparedOnAxis(SafeOctant(a, b), p, q);
      OnAxis(a, b, p, t);
      OnAxis(a, b, q, u);
      ApartOnAxis(a, b, p, q, t, u);
    }
  }

  lemma OnAxis(a: Coordinate, b: Coordinate, p: Coordinate, t: real)
    requires Segments.Exact(p) == Segments.At(Segments.Exact(a), Segments.Exact(b), t)
    ensures p.x as real == a.x as real + t * (b.x as real - a.x as real)
    ensures p.y as real == a.y as real + t * (b.y as real - a.y as real)
  {
  }

  lemma ApartOnAxis(a: Coordinate, b: Coordinate, p: Coordinate, q: Coordinate, t: real, u: real)
    requires p != q
    requires p.x as real == a.x as real + t * (b.x as real - a.x as real) && q.x as real == a.x as real + u * (b.x as real - a.x as real)
    requires p.y as real == a.y as real + t * (b.y as real - a.y as real) && q.y as real == a.y as real + u * (b.y as real - a.y as real)
    requires (p.x <= q.x && b.x > a.x) || (p.x >= q.x && b.x < a.x) || (p.y <= q.y && b.y > a.y) || (p.y >= q.y && b.y < a.y)
    ensures t < u
  {
    LaterOnAxis(a.x, b.x, p.x, q.x, t, u);
    LaterOnAxis(a.y, b.y, p.y, q.y, t, u);
    assert t <= u;
    if t == u {
      assert false;
    }
  }

  lemma ComparedSame(octant: int, p: Coordinate)
    ensures ComparePoints(octant, p, p) == 0
  {
  }

  lemma OneOnNoLength(p: Coordinate, a: Coordinate, t: real)
    requires Segments.Exact(p) == Segments.At(Segments.Exact(a), Segments.Exact(a), t)
    ensures p == a
  {
  }

  lemma LaterOnAxis(a: int, b: int, p: int, q: int, t: real, u: real)
    requires p as real == a as real + t * (b as real - a as real) && q as real == a as real + u * (b as real - a as real)
    ensures p <= q && b > a ==> t <= u
    ensures p >= q && b < a ==> t <= u
  {
    var d := b as real - a as real;
    assert q as real - p as real == (u - t) * d;
    Segments.ProductSign(u - t, d);
  }

  // ---------- the node list of a string ----------

  ghost function NodeAt(pts: seq<Coordinate>, coord: Coordinate, index: int): SegmentNode
    requires 0 <= index < |pts|
  {
    SegmentNode(coord, index, SegmentOctant(pts, index), coord != pts[index])
  }

  class SegmentNodeList {
    const pts: seq<Coordinate>
    var nodes: seq<SegmentNode>

    ghost predicate Valid()
      reads this
    {
      |pts| >= 2 && IsNodeList(pts, nodes)
    }

    constructor (edge: seq<Coordinate>)
      requires |edge| >= 2
      ensures Valid() && pts == edge && nodes == []
    {
      pts, nodes := edge, [];
    }

    /** Adds a node, unless the same place already has one. */
    method Add(intPt: Coordinate, segmentIndex: int) returns (node: SegmentNode)
      requires Valid() && OnString(pts, intPt, segmentIndex)
      modifies this
      ensures Valid() && node == NodeAt(pts, intPt, segmentIndex)
      ensures forall n :: n in nodes <==> n in old(nodes) || n == node
      ensures nodes == Insert(NodeLess, old(nodes), node)
    {
      node := SegmentNode(intPt, segmentIndex, SegmentOctant(pts, segmentIndex), intPt != pts[segmentIndex]);
      InsertNode(pts, nodes, node);
      nodes := Insert(NodeLess, nodes, node);
    }

    method AddEndpoints()
      requires Valid()
      modifies this
      ensures Valid()
      ensures forall n :: n in nodes <==> n in old(nodes) || n == NodeAt(pts, pts[0], 0) || n == NodeAt(pts, pts[|pts| - 1], |pts| - 1)
      ensures nodes == WithEnds(pts, old(nodes))
    {
      var maxSegIndex := |pts| - 1;
      var first := Add(pts[0], 0);
      var last := Add(pts[maxSegIndex], maxSegIndex);
    }

    /** Vertices that lie between two equal vertices. */
    method FindCollapsesFromExistingVertices() returns (collapsedVertexIndexes: seq<int>)
      ensures forall i :: i in collapsedVertexIndexes <==> BetweenEquals(pts, i)
    {
      collapsedVertexIndexes := [];
      if |pts| < 2 {
        return;
      }
      var i := 0;
      while i < |pts| - 2
        invariant 0 <= i <= |pts| - 2
        invariant forall k :: k in collapsedVertexIndexes <==> 1 <= k < i + 1 && pts[k - 1] == pts[k + 1]
      {
        if pts[i] == pts[i + 2] {
          collapsedVertexIndexes := collapsedVertexIndexes + [i + 1];
        }
        i := i + 1;
      }
    }

    /** Vertices that alone lie between two consecutive nodes at one place. */
    method FindCollapsesFromInsertedNodes() returns (collapsedVertexIndexes: seq<int>)
      requires Valid() && nodes != []
      ensures forall i :: i in collapsedVertexIndexes <==> exists k :: 0 < k < |nodes| && CollapseBetween(nodes[k - 1], nodes[k], i)
      ensures forall i :: i in collapsedVertexIndexes ==> 0 <= i < |pts| - 1
    {
      collapsedVertexIndexes := [];
      var k := 1;
      while k < |nodes|
        invariant 1 <= k <= |nodes|
        invariant forall i :: i in collapsedVertexIndexes <==> exists j :: 0 < j < k && CollapseBetween(nodes[j - 1], nodes[j], i)
        invariant forall i :: i in collapsedVertexIndexes ==> 0 <= i < |pts| - 1
      {
        var isCollapsed, index := FindCollapseIndex(nodes[k - 1], nodes[k]);
        if isCollapsed {
          collapsedVertexIndexes := collapsedVertexIndexes + [index];
        }
        k := k + 1;
      }
    }

    method FindCollapseIndex(ei0: SegmentNode, ei1: SegmentNode) returns (found: bool, collapsedVertexIndex: int)
      requires IsNode(pts, ei0) && IsNode(pts, ei1)
      ensures found ==> 0 <= collapsedVertexIndex < |pts| - 1
      ensures forall i :: CollapseBetween(ei0, ei1, i) <==> found && i == collapsedVertexIndex
    {
      if ei0.coord != ei1.coord {
        return false, 0;
      }
      var numVerticesBetween := ei1.segmentIndex - ei0.segmentIndex;
      if !ei1.isInterior {
        numVerticesBetween := numVerticesBetween - 1;
      }
      if numVerticesBetween == 1 {
        return true, ei0.segmentIndex + 1;
      }
      return false, 0;
    }

    /** Adds a node at each vertex at the base of a collapse, and no other. */
    method AddCollapsedNodes()
      requires Valid() && nodes != []
      modifies this
      ensures Valid()
      ensures forall n :: n in nodes <==> n in old(nodes) || IsCollapseNode(pts, old(nodes), n)
    {
      hide *;
      ghost var before := nodes;
      var inserted := FindCollapsesFromInsertedNodes();
      var existing := FindCollapsesFromExistingVertices();
      var collapsedVertexIndexes := inserted + existing;
      var i := 0;
      FoundAreCollapses(pts, before, inserted, existing, collapsedVertexIndexes);
      while i < |collapsedVertexIndexes|
        invariant 0 <= i <= |collapsedVertexIndexes| && Valid()
        invariant forall n :: n in nodes <==> n in before || VertexNodeOf(pts, collapsedVertexIndexes[..i], n)
      {
        var vertexIndex := collapsedVertexIndexes[i];
        VertexNode(pts, collapsedVertexIndexes, i);
        var node := Add(pts[vertexIndex], vertexIndex);
        i := i + 1;
      }
      assert collapsedVertexIndexes[..i] == collapsedVertexIndexes;
      CollapseNodesAre(pts, before, collapsedVertexIndexes);
    }

    /** The stretch of the string from one node to another, in an array of exactly the right length. */
    method CreateSplitEdge(ei0: SegmentNode, ei1: SegmentNode) returns (piece: seq<Coordinate>)
      requires IsNode(pts, ei0) && IsNode(pts, ei1) && ei0.segmentIndex <= ei1.segmentIndex
      requires !ei1.isInterior ==> ei0.segmentIndex < ei1.segmentIndex
      ensures piece == Piece(pts, ToStop(ei0), ToStop(ei1))
    {
      var npts := ei1.segmentIndex - ei0.segmentIndex + 2;
      var lastSegStartPt := pts[ei1.segmentIndex];
      var useIntPt1 := npts == 2 || (ei1.isInterior || ei1.coord != lastSegStartPt);
      if !useIntPt1 {
        npts := npts - 1;
      }
      var newPts := new Coordinate[npts];
      var ipt := 0;
      newPts[ipt] := ei0.coord;
      ipt := ipt + 1;
      var i := ei0.segmentIndex + 1;
      while i <= ei1.segmentIndex
        invariant ei0.segmentIndex < i <= ei1.segmentIndex + 1 && ipt == i - ei0.segmentIndex
        invariant newPts[..ipt] == [ei0.coord] + pts[ei0.segmentIndex + 1..i]
      {
        ghost var front := newPts[..ipt];
        newPts[ipt] := pts[i];
        assert newPts[..ipt + 1] == front + [pts[i]];
        SliceLast(pts, ei0.segmentIndex + 1, i);
        ipt := ipt + 1;
        i := i + 1;
      }
      if useIntPt1 {
        newPts[ipt] := ei1.coord;
        ipt := ipt + 1;
      }
      assert ipt == npts;
      return newPts[..];
    }

    /** Splits the string at its nodes, its ends and its collapses, and appends the pieces to the list. */
    method AddSplitEdges(edgeList: seq<seq<Coordinate>>) returns (result: seq<seq<Coordinate>>)
      requires Valid()
      modifies this
      ensures Valid() && InOrder(pts, Stops(nodes)) && SpansPath(pts, Stops(nodes))
      ensures forall n :: n in nodes <==> n in WithEnds(pts, old(nodes)) || IsCollapseNode(pts, WithEnds(pts, old(nodes)), n)
      ensures OnlyVerticesAdded(old(nodes), nodes) && NoCollapseInside(pts, nodes)
      ensures result == edgeList + Pieces(pts, Stops(nodes))
    {
      hide IsCollapseNode, IsNodeList, OnlyVerticesAdded, NoCollapseInside, Pieces, Insert;
      ghost var before := nodes;
      AddEndpoints();
      ghost var ended := nodes;
      assert NodeAt(pts, pts[0], 0) in nodes;
      AddCollapsedNodes();
      OnlyVertices(pts, before, ended, nodes);
      CollapsesAreNoded(pts, ended, nodes);
      NodesInOrder(pts, nodes);
      EndsSpan(pts, nodes);
      result := SplitAtNodes(edgeList);
    }

    /** Appends the stretches between consecutive nodes to the list. */
    method SplitAtNodes(edgeList: seq<seq<Coordinate>>) returns (result: seq<seq<Coordinate>>)
      requires Valid() && nodes != []
      ensures InOrder(pts, Stops(nodes)) && result == edgeList + Pieces(pts, Stops(nodes))
    {
      hide IsNode, CompareNodes, Insert;
      NodesInOrder(pts, nodes);
      ghost var stops := Stops(nodes);
      FirstPieces(pts, stops);
      result := edgeList;
      var eiPrev := nodes[0];
      ghost var done := stops[..1];
      var k := 1;
      while k < |nodes|
        invariant 1 <= k <= |nodes| && eiPrev == nodes[k - 1]
        invariant done == stops[..k] && InOrder(pts, done) && result == edgeList + Pieces(pts, done)
      {
        var ei := nodes[k];
        NextNode(pts, nodes, k);
        PrefixInOrder(pts, stops, k);
        PrefixInOrder(pts, stops, k + 1);
        if CompareNodes(ei, eiPrev) != 0 {
          var newEdge := CreateSplitEdge(eiPrev, ei);
          StepPieces(pts, done, ToStop(ei), edgeList);
          done := done + [ToStop(ei)];
          result := result + [newEdge];
          eiPrev := ei;
        }
        k := k + 1;
      }
      assert stops[..k] == stops;
    }
  }

  /** The nodes with those at the two ends. */
  ghost function WithEnds(pts: seq<Coordinate>, nodes: seq<SegmentNode>): seq<SegmentNode>
    requires pts != []
  {
    Insert(NodeLess, Insert(NodeLess, nodes, NodeAt(pts, pts[0], 0)), NodeAt(pts, pts[|pts| - 1], |pts| - 1))
  }

  /** Vertex i lies between two equal vertices. */
  ghost predicate BetweenEquals(pts: seq<Coordinate>, i: int) {
    1 <= i < |pts| - 1 && pts[i - 1] == pts[i + 1]
  }

  /** Vertex i lies between two equal vertices, or alone between consecutive nodes at one place. */
  ghost predicate IsCollapse(pts: seq<Coordinate>, nodes: seq<SegmentNode>, i: int) {
    || BetweenEquals(pts, i)
    || exists k :: 0 < k < |nodes| && CollapseBetween(nodes[k - 1], nodes[k], i)
  }

  /** n is the node at a vertex at the base of a collapse. */
  ghost predicate IsCollapseNode(pts: seq<Coordinate>, nodes: seq<SegmentNode>, n: SegmentNode) {
    0 <= n.segmentIndex < |pts| - 1 && IsCollapse(pts, nodes, n.segmentIndex) && n == NodeAt(pts, pts[n.segmentIndex], n.segmentIndex)
  }

  ghost predicate VertexNodeOf(pts: seq<Coordinate>, indexes: seq<int>, n: SegmentNode) {
    n.segmentIndex in indexes && 0 <= n.segmentIndex < |pts| - 1 && n == NodeAt(pts, pts[n.segmentIndex], n.segmentIndex)
  }

  lemma VertexNode(pts: seq<Coordinate>, indexes: seq<int>, k: nat)
    requires k < |indexes| && 0 <= indexes[k] < |pts| - 1
    ensures var i := indexes[k];
            && OnString(pts, pts[i], i)
            && forall n :: VertexNodeOf(pts, indexes[..k + 1], n) <==> VertexNodeOf(pts, indexes[..k], n) || n == NodeAt(pts, pts[i], i)
  {
    var i := indexes[k];
    VertexOnString(pts, i);
    hide NodeAt, OnString;
    assert indexes[..k + 1] == indexes[..k] + [i];
    forall n
      ensures VertexNodeOf(pts, indexes[..k + 1], n) <==> VertexNodeOf(pts, indexes[..k], n) || n == NodeAt(pts, pts[i], i)
    {
      assert n.segmentIndex in indexes[..k + 1] <==> n.segmentIndex in indexes[..k] || n.segmentIndex == i;
    }
  }

  lemma VertexOnString(pts: seq<Coordinate>, i: nat)
    requires i < |pts| - 1
    ensures OnString(pts, pts[i], i) && NodeAt(pts, pts[i], i).segmentIndex == i
  {
  }

  lemma FoundAreCollapses(pts: seq<Coordinate>, nodes: seq<SegmentNode>, inserted: seq<int>, existing: seq<int>, all: seq<int>)
    requires all == inserted + existing
    requires forall i :: i in inserted <==> exists k :: 0 < k < |nodes| && CollapseBetween(nodes[k - 1], nodes[k], i)
    requires forall i :: i in inserted ==> 0 <= i < |pts| - 1
    requires forall i :: i in existing <==> BetweenEquals(pts, i)
    ensures forall i :: i in all <==> IsCollapse(pts, nodes, i)
    ensures forall k :: 0 <= k < |all| ==> 0 <= all[k] < |pts| - 1
    ensures forall n :: !VertexNodeOf(pts, all[..0], n)
  {
    hide CollapseBetween;
    forall i
      ensures i in all <==> i in inserted || i in existing
    {
    }
    forall k | 0 <= k < |all|
      ensures 0 <= all[k] < |pts| - 1
    {
      assert all[k] in inserted || all[k] in existing;
    }
  }

  lemma CollapseNodesAre(pts: seq<Coordinate>, nodes: seq<SegmentNode>, all: seq<int>)
    requires forall i :: i in all <==> IsCollapse(pts, nodes, i)
    ensures forall n :: VertexNodeOf(pts, all, n) <==> IsCollapseNode(pts, nodes, n)
  {
    hide IsCollapse;
  }

  /** None of the original nodes was lost, and only nodes at vertices were added. */
  ghost predicate OnlyVerticesAdded(before: seq<SegmentNode>, after: seq<SegmentNode>) {
    (forall n :: n in before ==> n in after) && (forall n :: n in after ==> n in before || !n.isInterior)
  }

  lemma OnlyVertices(pts: seq<Coordinate>, before: seq<SegmentNode>, ended: seq<SegmentNode>, after: seq<SegmentNode>)
    requires pts != []
    requires forall n :: n in ended <==> n in before || n == NodeAt(pts, pts[0], 0) || n == NodeAt(pts, pts[|pts| - 1], |pts| - 1)
    requires forall n :: n in after <==> n in ended || IsCollapseNode(pts, ended, n)
    ensures OnlyVerticesAdded(before, after)
  {
    hide IsCollapse;
  }

  /** Vertex m of the string is passed on the way from one stop to the other. */
  ghost predicate PassedBetween(pts: seq<Coordinate>, a: Stop, b: Stop, m: int) {
    0 <= m < |pts| && a.segment < m && (m < b.segment || (m == b.segment && b.coord != pts[m]))
  }

  ghost function StopBefore(nodes: seq<SegmentNode>, k: int): Stop
    requires 0 < k <= |nodes|
  {
    ToStop(nodes[k - 1])
  }

  /** No vertex between two equal vertices is left inside a piece. */
  ghost predicate NoCollapseInside(pts: seq<Coordinate>, nodes: seq<SegmentNode>) {
    forall k, m :: 0 < k < |nodes| && BetweenEquals(pts, m) ==> !PassedBetween(pts, StopBefore(nodes, k), ToStop(nodes[k]), m)
  }

  lemma CollapsesAreNoded(pts: seq<Coordinate>, before: seq<SegmentNode>, nodes: seq<SegmentNode>)
    requires IsNodeList(pts, nodes) && forall n :: n in nodes <==> n in before || IsCollapseNode(pts, before, n)
    ensures NoCollapseInside(pts, nodes)
  {
    hide IsNodeList, CollapseBetween;
    forall k, m | 0 < k < |nodes| && BetweenEquals(pts, m)
      ensures !PassedBetween(pts, StopBefore(nodes, k), ToStop(nodes[k]), m)
    {
      if PassedBetween(pts, StopBefore(nodes, k), ToStop(nodes[k]), m) {
        assert IsCollapse(pts, before, m);
        assert IsCollapseNode(pts, before, NodeAt(pts, pts[m], m));
        NotNodedInside(pts, nodes, k, m);
        assert false;
      }
    }
  }

  /** A vertex passed between consecutive nodes has no node. */
  lemma NotNodedInside(pts: seq<Coordinate>, nodes: seq<SegmentNode>, k: nat, m: nat)
    requires IsNodeList(pts, nodes) && 0 < k < |nodes| && m < |pts|
    requires PassedBetween(pts, ToStop(nodes[k - 1]), ToStop(nodes[k]), m)
    ensures NodeAt(pts, pts[m], m) !in nodes
  {
    hide IsNodeList, IsNode;
    NodesInOrder(pts, nodes);
    var stops := Stops(nodes);
    if NodeAt(pts, pts[m], m) in nodes {
      var x: nat :| x < |nodes| && nodes[x] == NodeAt(pts, pts[m], m);
      assert stops[x] == Stop(pts[m], m) && AtVertex(pts, stops[x]);
      StopsAscend(pts, stops, x, k - 1);
      StopsAscend(pts, stops, k, x);
      assert false;
    }
  }

  lemma StopsAscend(pts: seq<Coordinate>, stops: seq<Stop>, i: nat, j: nat)
    requires InOrder(pts, stops) && i < |stops| && j < |stops|
    ensures i <= j ==> stops[i].segment <= stops[j].segment
    ensures i < j && AtVertex(pts, stops[j]) ==> stops[i].segment < stops[j].segment
  {
  }

  /** The collapses found between nodes are exactly the pieces that go to a vertex and straight back. */
  lemma CollapseIsSpike(pts: seq<Coordinate>, a: SegmentNode, b: SegmentNode, i: int)
    requires IsNode(pts, a) && IsNode(pts, b) && a.segmentIndex <= b.segmentIndex
    ensures 0 <= a.segmentIndex <= b.segmentIndex < |pts|
    ensures var piece := Piece(pts, ToStop(a), ToStop(b));
            CollapseBetween(a, b, i) <==> i == a.segmentIndex + 1 && |piece| == 3 && piece[2] == piece[0] && piece[1] == pts[i]
  {
  }

  /** A single vertex lies between the nodes, and they are at one place. */
  ghost predicate CollapseBetween(ei0: SegmentNode, ei1: SegmentNode, i: int) {
    && ei0.coord == ei1.coord && i == ei0.segmentIndex + 1
    && ei1.segmentIndex == if ei1.isInterior then i else i + 1
  }

  lemma InsertNode(pts: seq<Coordinate>, nodes: seq<SegmentNode>, node: SegmentNode)
    requires IsNodeList(pts, nodes) && IsNode(pts, node)
    ensures IsNodeList(pts, Insert(NodeLess, nodes, node)) && node in Insert(NodeLess, nodes, node)
  {
    hide IsNode, CompareNodes;
    NodesAreOrdered(pts, Elements(nodes) + {node});
    InsertKeepsSorted(NodeLess, nodes, node);
    assert forall k :: 0 <= k < |Insert(NodeLess, nodes, node)| ==> Insert(NodeLess, nodes, node)[k] in Insert(NodeLess, nodes, node);
  }

  lemma EndsSpan(pts: seq<Coordinate>, nodes: seq<SegmentNode>)
    requires IsNodeList(pts, nodes) && |pts| >= 2
    requires NodeAt(pts, pts[0], 0) in nodes && NodeAt(pts, pts[|pts| - 1], |pts| - 1) in nodes
    ensures SpansPath(pts, Stops(nodes))
  {
    var i :| 0 <= i < |nodes| && nodes[i] == NodeAt(pts, pts[0], 0);
    var j :| 0 <= j < |nodes| && nodes[j] == NodeAt(pts, pts[|pts| - 1], |pts| - 1);
    NodesSpan(pts, nodes, i, j);
  }

  /** Consecutive nodes are different and in order. */
  lemma NextNode(pts: seq<Coordinate>, nodes: seq<SegmentNode>, k: nat)
    requires IsNodeList(pts, nodes) && 1 <= k < |nodes|
    ensures IsNode(pts, nodes[k - 1]) && IsNode(pts, nodes[k]) && CompareNodes(nodes[k], nodes[k - 1]) != 0
    ensures nodes[k - 1].segmentIndex <= nodes[k].segmentIndex
    ensures !nodes[k].isInterior ==> nodes[k - 1].segmentIndex < nodes[k].segmentIndex
  {
    hide CompareNodes, IsNode;
    assert NodeLess(nodes[k - 1], nodes[k]);
    SegmentsAscend(pts, nodes[k - 1], nodes[k]);
    NodeInRange(pts, nodes[k]);
    CompareAntisymmetric(pts, nodes[k - 1], nodes[k]);
  }

  lemma CompareAntisymmetric(pts: seq<Coordinate>, a: SegmentNode, b: SegmentNode)
    requires IsNode(pts, a) && IsNode(pts, b)
    ensures CompareNodes(a, b) == -CompareNodes(b, a)
  {
    if a.segmentIndex == b.segmentIndex < |pts| - 1 {
      ComparePointsOrder(a.segmentOctant, a.coord, b.coord, a.coord);
    }
  }

  // ---------- segment strings ----------

  class NodedSegmentString {
    const pts: seq<Coordinate>
    const nodeList: SegmentNodeList

    ghost predicate Valid()
      reads nodeList
    {
      nodeList.pts == pts && nodeList.Valid()
    }

    constructor (newPts: seq<Coordinate>)
      requires |newPts| >= 2
      ensures Valid() && fresh(nodeList) && pts == newPts && nodeList.nodes == []
    {
      pts := newPts;
      nodeList := new SegmentNodeList(newPts);
    }

    /** Records a node on a segment; on the segment's last point it belongs to the next segment. */
    method AddIntersection(intPt: Coordinate, segmentIndex: nat) returns (ok: bool)
      requires Valid()
      requires segmentIndex <= |pts| - 2 ==> LineIntersectors.EnvelopeHolds(pts[segmentIndex], pts[segmentIndex + 1], intPt)
      modifies nodeList
      ensures Valid() && ok == (segmentIndex <= |pts| - 2)
      ensures !ok ==> nodeList.nodes == old(nodeList.nodes)
      ensures ok ==> var index := if intPt == pts[segmentIndex + 1] then segmentIndex + 1 else segmentIndex;
                     && OnString(pts, intPt, index)
                     && forall n :: n in nodeList.nodes <==> n in old(nodeList.nodes) || n == NodeAt(pts, intPt, index)
    {
      var normalizedSegmentIndex := segmentIndex;
      if segmentIndex > |pts| - 2 {
        return false;
      }
      var nextSegIndex := normalizedSegmentIndex + 1;
      if nextSegIndex < |pts| {
        var nextPt := pts[nextSegIndex];
        if intPt == nextPt {
          normalizedSegmentIndex := nextSegIndex;
        }
      }
      var node := nodeList.Add(intPt, normalizedSegmentIndex);
      return true;
    }
  }

  /** The pieces of one string, split at its nodes. */
  ghost predicate SplitsString(pts: seq<Coordinate>, stops: seq<Stop>, pieces: seq<seq<Coordinate>>) {
    InOrder(pts, stops) && SpansPath(pts, stops) && pieces == Pieces(pts, stops)
  }

  ghost function Flatten(parts: seq<seq<seq<Coordinate>>>): seq<seq<Coordinate>> {
    if parts == [] then [] else Flatten(parts[..|parts| - 1]) + parts[|parts| - 1]
  }

  /** The pieces are those of the string, split at all its nodes. */
  ghost predicate SplitAtItsNodes(s: NodedSegmentString, before: seq<SegmentNode>, part: seq<seq<Coordinate>>)
    reads s.nodeList
  {
    && s.Valid() && s.pts != [] && OnlyVerticesAdded(before, s.nodeList.nodes) && NoCollapseInside(s.pts, s.nodeList.nodes)
    && (forall n :: n in s.nodeList.nodes <==>
          n in WithEnds(s.pts, before) || IsCollapseNode(s.pts, WithEnds(s.pts, before), n))
    && SplitsString(s.pts, Stops(s.nodeList.nodes), part)
  }

  /** Splits all the strings at their nodes, one after the other. */
  method GetNodedSubstrings(segStrings: seq<NodedSegmentString>)
      returns (result: seq<seq<Coordinate>>, ghost parts: seq<seq<seq<Coordinate>>>)
    requires forall i :: 0 <= i < |segStrings| ==> segStrings[i].Valid()
    requires forall i, j :: 0 <= i < j < |segStrings| ==> segStrings[i].nodeList != segStrings[j].nodeList
    modifies set i | 0 <= i < |segStrings| :: segStrings[i].nodeList
    ensures |parts| == |segStrings| && result == Flatten(parts)
    ensures forall i :: 0 <= i < |segStrings| ==> SplitAtItsNodes(segStrings[i], old(segStrings[i].nodeList.nodes), parts[i])
  {
    hide SplitsString, Pieces, Stops, OnlyVerticesAdded;
    result, parts := [], [];
    var i := 0;
    while i < |segStrings|
      invariant 0 <= i <= |segStrings| && |parts| == i && result == Flatten(parts)
      invariant forall k :: 0 <= k < i ==> SplitAtItsNodes(segStrings[k], old(segStrings[k].nodeList.nodes), parts[k])
      invariant forall k :: i <= k < |segStrings| ==>
                  segStrings[k].Valid() && segStrings[k].nodeList.nodes == old(segStrings[k].nodeList.nodes)
    {
      ghost var part;
      result, part := SplitString(segStrings[i], result);
      assert (parts + [part])[..i] == parts;
      parts := parts + [part];
      i := i + 1;
    }
  }

  method SplitString(s: NodedSegmentString, edgeList: seq<seq<Coordinate>>)
      returns (result: seq<seq<Coordinate>>, ghost part: seq<seq<Coordinate>>)
    requires s.Valid()
    modifies s.nodeList
    ensures result == edgeList + part && SplitAtItsNodes(s, old(s.nodeList.nodes), part)
  {
    result := s.nodeList.AddSplitEdges(edgeList);
    part := Pieces(s.pts, Stops(s.nodeList.nodes));
  }
}
