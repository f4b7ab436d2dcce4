/** Edges of the topology graph that collect intersections and are split at them. */
module EdgeIntersections {
  import opened Coordinates
  import opened NodedPaths
  import opened OrderedSets
  import opened LineIntersectors
  import Segments

  /** An intersection: its point, the segment that holds it, and its distance along that segment. */
  datatype EdgeIntersection = EdgeIntersection(coord: Coordinate, segmentIndex: int, dist: real)

  const IntersectionLess := (a: EdgeIntersection, b: EdgeIntersection) =>
    a.segmentIndex < b.segmentIndex || (a.segmentIndex == b.segmentIndex && a.dist < b.dist)

  lemma IntersectionsAreOrdered(S: set<EdgeIntersection>)
    ensures StrictWeakOrder(IntersectionLess, S)
  {
  }

  /** Distances are never negative, and zero exactly at the segment's first vertex. */
  ghost predicate IsIntersection(pts: seq<Coordinate>, ei: EdgeIntersection) {
    && 0 <= ei.segmentIndex < |pts| && ei.dist >= 0.0
    && (ei.dist == 0.0 <==> ei.coord == pts[ei.segmentIndex])
    && (ei.segmentIndex == |pts| - 1 ==> ei.dist == 0.0)
  }

  lemma EdgeDistanceSign(p: Coordinate, p0: Coordinate, p1: Coordinate)
    ensures var dist := EdgeDistance(Segments.Exact(p), Segments.Exact(p0), Segments.Exact(p1));
            dist >= 0.0 && (dist == 0.0 <==> p == p0)
  {
  }

  ghost function ToStop(ei: EdgeIntersection): Stop {
    Stop(ei.coord, ei.segmentIndex)
  }

  ghost function Stops(eis: seq<EdgeIntersection>): (stops: seq<Stop>)
    ensures |stops| == |eis|
    ensures forall k :: 0 <= k < |eis| ==> stops[k] == ToStop(eis[k])
  {
    seq(|eis|, k requires 0 <= k < |eis| => ToStop(eis[k]))
  }

  ghost predicate IsIntersectionList(pts: seq<Coordinate>, eis: seq<EdgeIntersection>) {
    && Sorted(IntersectionLess, eis)
    && forall k :: 0 <= k < |eis| ==> IsIntersection(pts, eis[k])
  }

  lemma IntersectionsInOrder(pts: seq<Coordinate>, eis: seq<EdgeIntersection>)
    requires IsIntersectionList(pts, eis)
    ensures InOrder(pts, Stops(eis))
  {
    forall j, k | 0 <= j < k < |eis|
      ensures eis[j].segmentIndex <= eis[k].segmentIndex
      ensures AtVertex(pts, ToStop(eis[k])) ==> eis[j].segmentIndex < eis[k].segmentIndex
    {
      assert IntersectionLess(eis[j], eis[k]);
    }
  }

  /** The list holds the two ends of the edge. */
  ghost predicate HoldsEnds(pts: seq<Coordinate>, eis: seq<EdgeIntersection>) {
    && pts != []
    && EdgeIntersection(pts[0], 0, 0.0) in eis && EdgeIntersection(pts[|pts| - 1], |pts| - 1, 0.0) in eis
  }

  lemma EndsSpan(pts: seq<Coordinate>, eis: seq<EdgeIntersection>)
    requires IsIntersectionList(pts, eis) && HoldsEnds(pts, eis)
    ensures SpansPath(pts, Stops(eis))
  {
    var i :| 0 <= i < |eis| && eis[i] == EdgeIntersection(pts[0], 0, 0.0);
    var j :| 0 <= j < |eis| && eis[j] == EdgeIntersection(pts[|pts| - 1], |pts| - 1, 0.0);
    NotBefore(pts, eis, 0, i);
    NotBefore(pts, eis, j, |eis| - 1);
  }

  lemma NotBefore(pts: seq<Coordinate>, eis: seq<EdgeIntersection>, j: nat, k: nat)
    requires IsIntersectionList(pts, eis) && j < |eis| && k < |eis|
    requires !IntersectionLess(eis[j], eis[k])
    ensures k <= j
  {
  }

  lemma InsertOnEdge(pts: seq<Coordinate>, eis: seq<EdgeIntersection>, ei: EdgeIntersection)
    requires IsIntersectionList(pts, eis) && AllOnEdge(pts, eis) && OnEdge(pts, ei)
    ensures ei in Insert(IntersectionLess, eis, ei)
  {
    hide Insert;
    InsertIntersection(pts, eis, ei);
    if x :| x in eis && x.segmentIndex == ei.segmentIndex && x.dist == ei.dist {
      EqualDistanceIsEqual(pts, x, ei);
    }
  }

  lemma InsertIntersection(pts: seq<Coordinate>, eis: seq<EdgeIntersection>, ei: EdgeIntersection)
    requires IsIntersectionList(pts, eis) && IsIntersection(pts, ei)
    ensures var now := Insert(IntersectionLess, eis, ei);
            && IsIntersectionList(pts, now)
            && (forall x :: x in eis ==> x in now)
            && (ei in now || exists x :: x in eis && x.segmentIndex == ei.segmentIndex && x.dist == ei.dist)
  {
    IntersectionsAreOrdered(Elements(eis) + {ei});
    InsertKeepsSorted(IntersectionLess, eis, ei);
    var now := Insert(IntersectionLess, eis, ei);
    forall k | 0 <= k < |now|
      ensures IsIntersection(pts, now[k])
    {
      assert now[k] in now;
    }
    if x :| x in eis && Equivalent(IntersectionLess, ei, x) {
      assert x.segmentIndex == ei.segmentIndex && x.dist == ei.dist;
    }
  }

  // ---------- intersections that lie on the edge ----------

  ghost function DistanceOn(pts: seq<Coordinate>, coord: Coordinate, i: int): real
    requires 0 <= i < |pts| - 1
  {
    EdgeDistance(Segments.Exact(coord), Segments.Exact(pts[i]), Segments.Exact(pts[i + 1]))
  }

  ghost predicate OnSegmentOf(pts: seq<Coordinate>, coord: Coordinate, i: int)
    requires 0 <= i < |pts| - 1
  {
    Segments.OnSegment(Segments.Exact(coord), Segments.Exact(pts[i]), Segments.Exact(pts[i + 1]))
  }

  /** The intersection lies on its segment, at its edge distance. */
  ghost predicate OnEdge(pts: seq<Coordinate>, ei: EdgeIntersection) {
    && IsIntersection(pts, ei)
    && (ei.segmentIndex < |pts| - 1 ==>
          OnSegmentOf(pts, ei.coord, ei.segmentIndex) && ei.dist == DistanceOn(pts, ei.coord, ei.segmentIndex))
  }

  ghost predicate AllOnEdge(pts: seq<Coordinate>, eis: seq<EdgeIntersection>) {
    forall x :: x in eis ==> OnEdge(pts, x)
  }

  /** On a segment with a length, distances compare as the points lie along it. */
  lemma DistanceOrders(p: Coordinate, q: Coordinate, a: Coordinate, b: Coordinate)
    requires a != b
    requires Segments.OnSegment(Segments.Exact(p), Segments.Exact(a), Segments.Exact(b))
    requires Segments.OnSegment(Segments.Exact(q), Segments.Exact(a), Segments.Exact(b))
    ensures var dp := EdgeDistance(Segments.Exact(p), Segments.Exact(a), Segments.Exact(b));
            var dq := EdgeDistance(Segments.Exact(q), Segments.Exact(a), Segments.Exact(b));
            (dp == dq ==> p == q)
            && (dp < dq ==> Segments.Along(Segments.Exact(p), Segments.Exact(q), Segments.Exact(a), Segments.Exact(b)))
  {
    hide EdgeDistance, Segments.Exact, Segments.At;
    var A, B := Segments.Exact(a), Segments.Exact(b);
    var t :| 0.0 <= t <= 1.0 && Segments.Exact(p) == Segments.At(A, B, t);
    var u :| 0.0 <= u <= 1.0 && Segments.Exact(q) == Segments.At(A, B, u);
    ExactIsInjective(a, b);
    ExactIsInjective(p, q);
    EdgeDistanceIsAlong(A, B, t);
    EdgeDistanceIsAlong(A, B, u);
    ScaledOrder(t, u, RealMax(RealAbs(B.x - A.x), RealAbs(B.y - A.y)));
  }

  lemma ScaledOrder(t: real, u: real, m: real)
    requires m > 0.0
    ensures t * m == u * m ==> t == u
    ensures t * m < u * m ==> t < u
  {
    Segments.ProductSign(t - u, m);
  }

  lemma NoLengthOneDistance(p: Coordinate, a: Coordinate)
    requires Segments.OnSegment(Segments.Exact(p), Segments.Exact(a), Segments.Exact(a))
    ensures p == a
  {
    ExactIsInjective(p, a);
    OnlyPoint(Segments.Exact(a));
  }

  /** Two intersections on the edge that the list takes for the same are the same. */
  lemma EqualDistanceIsEqual(pts: seq<Coordinate>, x: EdgeIntersection, y: EdgeIntersection)
    requires OnEdge(pts, x) && OnEdge(pts, y) && x.segmentIndex == y.segmentIndex && x.dist == y.dist
    ensures x == y
  {
    hide EdgeDistance, Segments.OnSegment, Segments.Exact;
    var i := x.segmentIndex;
    if i < |pts| - 1 && x.dist != 0.0 {
      var a, b := pts[i], pts[i + 1];
      if a == b {
        NoLengthOneDistance(x.coord, a);
        assert false;
      }
      DistanceOrders(x.coord, y.coord, a, b);
    }
  }

  /** The list runs along the edge: by segments, and on one segment as its points lie along it. */
  lemma ListIsAlong(pts: seq<Coordinate>, eis: seq<EdgeIntersection>, j: nat, k: nat)
    requires IsIntersectionList(pts, eis) && AllOnEdge(pts, eis) && j < k < |eis|
    ensures 0 <= eis[j].segmentIndex <= eis[k].segmentIndex < |pts|
    ensures eis[j].segmentIndex == eis[k].segmentIndex ==>
              var i := eis[j].segmentIndex;
              && i < |pts| - 1
              && Segments.Along(Segments.Exact(eis[j].coord), Segments.Exact(eis[k].coord), Segments.Exact(pts[i]), Segments.Exact(pts[i + 1]))
  {
    hide EdgeDistance, Segments.OnSegment, Segments.Exact, Segments.Along;
    var x, y := eis[j], eis[k];
    assert IntersectionLess(x, y) && OnEdge(pts, x) && OnEdge(pts, y);
    if x.segmentIndex == y.segmentIndex {
      var a, b := pts[x.segmentIndex], pts[x.segmentIndex + 1];
      if a == b {
        NoLengthOneDistance(y.coord, a);
        assert false;
      }
      DistanceOrders(x.coord, y.coord, a, b);
    }
  }

  class EdgeIntersectionList {
    const pts: seq<Coordinate>
    var nodes: seq<EdgeIntersection>

    ghost predicate Valid()
      reads this
    {
      |pts| >= 2 && IsIntersectionList(pts, nodes)
    }

    constructor (edge: seq<Coordinate>)
      requires |edge| >= 2
      ensures Valid() && pts == edge && nodes == []
    {
      pts, nodes := edge, [];
    }

    /** Adds an intersection, unless its segment already has one at that distance. */
    method Add(coord: Coordinate, segmentIndex: int, dist: real)
      requires Valid() && IsIntersection(pts, EdgeIntersection(coord, segmentIndex, dist))
      modifies this
      ensures Valid() && forall x :: x in old(nodes) ==> x in nodes
      ensures forall x :: x in nodes ==> x in old(nodes) || x == EdgeIntersection(coord, segmentIndex, dist)
      ensures exists x :: x in nodes && x.segmentIndex == segmentIndex && x.dist == dist
      ensures AllOnEdge(pts, old(nodes)) && OnEdge(pts, EdgeIntersection(coord, segmentIndex, dist)) ==>
                forall x :: x in nodes <==> x in old(nodes) || x == EdgeIntersection(coord, segmentIndex, dist)
    {
      hide OnEdge, IsIntersection;
      var eiNew := EdgeIntersection(coord, segmentIndex, dist);
      InsertIntersection(pts, nodes, eiNew);
      if AllOnEdge(pts, nodes) && OnEdge(pts, eiNew) {
        InsertOnEdge(pts, nodes, eiNew);
      }
      nodes := Insert(IntersectionLess, nodes, eiNew);
    }

    /** Edge::addIntersection: an intersection on the segment's last point belongs to the next segment. */
    method AddIntersection(intPt: Coordinate, segmentIndex: int)
      requires Valid() && 0 <= segmentIndex < |pts| - 1
      modifies this
      ensures Valid() && forall x :: x in old(nodes) ==> x in nodes
      ensures exists x :: x in nodes && LiesAt(pts, x, intPt, segmentIndex)
      ensures forall x :: x in nodes ==> x in old(nodes) || (x.coord == intPt && LiesAt(pts, x, intPt, segmentIndex))
      ensures AllOnEdge(pts, old(nodes)) && OnSegmentOf(pts, intPt, segmentIndex) ==>
                AllOnEdge(pts, nodes) && forall x :: x in nodes <==> x in old(nodes) || x == Recorded(pts, intPt, segmentIndex)
    {
      RecordedOnEdge(pts, intPt, segmentIndex);
      var normalizedSegmentIndex := segmentIndex;
      var dist := EdgeDistance(Segments.Exact(intPt), Segments.Exact(pts[segmentIndex]), Segments.Exact(pts[segmentIndex + 1]));
      EdgeDistanceSign(intPt, pts[segmentIndex], pts[segmentIndex + 1]);
      var nextSegIndex := normalizedSegmentIndex + 1;
      if nextSegIndex < |pts| {
        var nextPt := pts[nextSegIndex];
        if intPt == nextPt {
          normalizedSegmentIndex := nextSegIndex;
          dist := 0.0;
        }
      }
      Add(intPt, normalizedSegmentIndex, dist);
    }

    method AddEndpoints()
      requires Valid()
      modifies this
      ensures Valid() && HoldsEnds(pts, nodes)
      ensures forall x :: x in old(nodes) ==> x in nodes
      ensures forall x :: x in nodes ==> x in old(nodes) || x == EdgeIntersection(pts[0], 0, 0.0)
                                         || x == EdgeIntersection(pts[|pts| - 1], |pts| - 1, 0.0)
      ensures AllOnEdge(pts, old(nodes)) ==> AllOnEdge(pts, nodes)
    {
      VertexOnEdge(pts, 0);
      var maxSegIndex := |pts| - 1;
      Add(pts[0], 0, 0.0);
      FoundAtVertex(pts, nodes, 0);
      Add(pts[maxSegIndex], maxSegIndex, 0.0);
      FoundAtVertex(pts, nodes, maxSegIndex);
    }

    /** The stretch of the edge from one intersection to another. */
    method CreateSplitEdge(ei0: EdgeIntersection, ei1: EdgeIntersection) returns (piece: seq<Coordinate>)
      requires IsIntersection(pts, ei0) && IsIntersection(pts, ei1) && IntersectionLess(ei0, ei1)
      ensures ei0.segmentIndex <= ei1.segmentIndex && piece == Piece(pts, ToStop(ei0), ToStop(ei1))
      ensures |piece| == ei1.segmentIndex - ei0.segmentIndex + if ei1.dist == 0.0 then 1 else 2
    {
      var npts := ei1.segmentIndex - ei0.segmentIndex + 2;
      var lastSegStartPt := pts[ei1.segmentIndex];
      var useIntPt1 := ei1.dist > 0.0 || ei1.coord != lastSegStartPt;
      if !useIntPt1 {
        npts := npts - 1;
      }
      var vc := [ei0.coord];
      var i := ei0.segmentIndex + 1;
      while i <= ei1.segmentIndex
        invariant ei0.segmentIndex < i <= ei1.segmentIndex + 1
        invariant vc == [ei0.coord] + pts[ei0.segmentIndex + 1..i]
      {
        if !useIntPt1 && ei1.segmentIndex == i {
          vc := vc + [ei1.coord];
        } else {
          vc := vc + [pts[i]];
        }
        i := i + 1;
      }
      if useIntPt1 {
        vc := vc + [ei1.coord];
      }
      assert |vc| == npts;
      return vc;
    }

    /** Splits the edge at its intersections and its ends, and appends the pieces to the list. */
    method AddSplitEdges(edgeList: seq<seq<Coordinate>>) returns (result: seq<seq<Coordinate>>)
      requires Valid()
      modifies this
      ensures Valid() && InOrder(pts, Stops(nodes)) && SpansPath(pts, Stops(nodes))
      ensures forall x :: x in old(nodes) ==> x in nodes
      ensures forall x :: x in nodes ==> x in old(nodes) || x.dist == 0.0
      ensures AllOnEdge(pts, old(nodes)) ==> AllOnEdge(pts, nodes)
      ensures result == edgeList + Pieces(pts, Stops(nodes))
    {
      AddEndpoints();
      IntersectionsInOrder(pts, nodes);
      EndsSpan(pts, nodes);
      result := SplitAtIntersections(edgeList);
    }

    method SplitAtIntersections(edgeList: seq<seq<Coordinate>>) returns (result: seq<seq<Coordinate>>)
      requires Valid() && nodes != []
      ensures InOrder(pts, Stops(nodes)) && result == edgeList + Pieces(pts, Stops(nodes))
    {
      hide IsIntersection, Insert;
      IntersectionsInOrder(pts, nodes);
      ghost var stops := Stops(nodes);
      FirstPieces(pts, stops);
      result := edgeList;
      var eiPrev := nodes[0];
      ghost var done := stops[..1];
      var k := 1;
      while k < |nodes|
        invariant 1 <= k <= |nodes| && eiPrev == nodes[k - 1]
        invariant done == stops[..k] && InOrder(pts, done) && result == edgeList + Pieces(pts, done)
      {
        var ei := nodes[k];
        assert IntersectionLess(nodes[k - 1], nodes[k]);
        PrefixInOrder(pts, stops, k);
        PrefixInOrder(pts, stops, k + 1);
        var newEdge := CreateSplitEdge(eiPrev, ei);
        StepPieces(pts, done, ToStop(ei), edgeList);
        done := done + [ToStop(ei)];
        result := result + [newEdge];
        eiPrev := ei;
        k := k + 1;
      }
      assert stops[..k] == stops;
    }
  }

  /** What is recorded for an intersection at intPt on the segment. */
  ghost function Recorded(pts: seq<Coordinate>, intPt: Coordinate, segmentIndex: int): EdgeIntersection
    requires 0 <= segmentIndex < |pts| - 1
  {
    if intPt == pts[segmentIndex + 1] then EdgeIntersection(intPt, segmentIndex + 1, 0.0)
    else EdgeIntersection(intPt, segmentIndex, DistanceOn(pts, intPt, segmentIndex))
  }

  lemma RecordedOnEdge(pts: seq<Coordinate>, intPt: Coordinate, segmentIndex: int)
    requires 0 <= segmentIndex < |pts| - 1
    ensures OnSegmentOf(pts, intPt, segmentIndex) ==> OnEdge(pts, Recorded(pts, intPt, segmentIndex))
  {
    hide Segments.OnSegment;
    EdgeDistanceSign(intPt, pts[segmentIndex], pts[segmentIndex + 1]);
    if segmentIndex + 1 < |pts| - 1 {
      VertexOnEdge(pts, segmentIndex + 1);
    }
  }

  lemma VertexOnEdge(pts: seq<Coordinate>, i: int)
    requires 0 <= i < |pts| - 1
    ensures OnSegmentOf(pts, pts[i], i) && DistanceOn(pts, pts[i], i) == 0.0
    ensures OnEdge(pts, EdgeIntersection(pts[i], i, 0.0))
  {
    Segments.AtEnds(Segments.Exact(pts[i]), Segments.Exact(pts[i + 1]), 0.0);
  }

  /** x is where an intersection at intPt on the segment is recorded. */
  ghost predicate LiesAt(pts: seq<Coordinate>, x: EdgeIntersection, intPt: Coordinate, segmentIndex: int)
    requires 0 <= segmentIndex < |pts| - 1
  {
    if intPt == pts[segmentIndex + 1] then x.segmentIndex == segmentIndex + 1 && x.dist == 0.0
    else
      && x.segmentIndex == segmentIndex
      && x.dist == EdgeDistance(Segments.Exact(intPt), Segments.Exact(pts[segmentIndex]), Segments.Exact(pts[segmentIndex + 1]))
  }

  lemma FoundAtVertex(pts: seq<Coordinate>, eis: seq<EdgeIntersection>, index: int)
    requires IsIntersectionList(pts, eis) && 0 <= index < |pts|
    requires exists x :: x in eis && x.segmentIndex == index && x.dist == 0.0
    ensures EdgeIntersection(pts[index], index, 0.0) in eis
  {
    var x :| x in eis && x.segmentIndex == index && x.dist == 0.0;
    assert IsIntersection(pts, x);
  }
}
