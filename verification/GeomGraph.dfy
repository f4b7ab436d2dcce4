/** The topology graph: edges, their two directed edges, the stars around nodes, and edge rings. */
module GeomGraph {
  import opened Coordinates
  import opened EdgeEnds
  import opened SideLabels
  import opened Depths
  import opened Numbers
  import opened ResultLinks
  import opened Coverings
  import opened OrientedArrays
  import opened RingOrientation
  import OrderedSets
  import Paths

  /** An edge has at least two points. */
  type EdgePoints = p: seq<Coordinate> | |p| >= 2 witness [Coordinate(0, 0), Coordinate(1, 0)]

  /** One location triple for each of the two parent geometries. */
  type Label = l: seq<TopologyLocation> | |l| == 2 witness [Line(UNDEF), Line(UNDEF)]

  function Flip(t: TopologyLocation): TopologyLocation {
    match t
    case Line(_) => t
    case Area(on, left, right) => Area(on, right, left)
  }

  /** The same locations, with left and right exchanged. */
  ghost predicate Mirrored(t: TopologyLocation, u: TopologyLocation) {
    && t.on == u.on && t.Area? == u.Area?
    && (t.Area? ==> t.left == u.right && t.right == u.left)
  }

  class Edge {
    const pts: EdgePoints
    const labels: Label
    const depthDelta: int
    var isCovered: bool
    var isCoveredSet: bool

    constructor (points: EdgePoints, newLabel: Label, newDepthDelta: int)
      ensures pts == points && labels == newLabel && depthDelta == newDepthDelta
      ensures !isCovered && !isCoveredSet
    {
      pts, labels, depthDelta := points, newLabel, newDepthDelta;
      isCovered, isCoveredSet := false, false;
    }

    method SetCovered(covered: bool)
      modifies this`isCovered, this`isCoveredSet
      ensures isCovered == covered && isCoveredSet
    {
      isCovered, isCoveredSet := covered, true;
    }

    /** Whether the edges have the same points, in either direction. */
    method Equals(e: Edge) returns (equal: bool)
      ensures equal == SamePoints(pts, e.pts)
    {
      var npts1 := |pts|;
      var npts2 := |e.pts|;
      if npts1 != npts2 {
        return false;
      }
      var isEqualForward := true;
      var isEqualReverse := true;
      hide Paths.Reversed;
      ghost var reversed := Paths.Reversed(e.pts);
      var i, iRev := 0, npts1 - 1;
      while i < npts1
        invariant 0 <= i <= npts1 && iRev == npts1 - 1 - i
        invariant isEqualForward == forall k :: 0 <= k < i ==> pts[k] == e.pts[k]
        invariant isEqualReverse == forall k :: 0 <= k < i ==> pts[k] == reversed[k]
        invariant i > 0 ==> isEqualForward || isEqualReverse
      {
        var e1pi := pts[i];
        var e2pi := e.pts[i];
        var e2piRev := e.pts[iRev];
        if e1pi != e2pi {
          isEqualForward := false;
        }
        if e1pi != e2piRev {
          isEqualReverse := false;
        }
        if !isEqualForward && !isEqualReverse {
          return false;
        }
        i, iRev := i + 1, iRev - 1;
      }
      return true;
    }
  }

  /** A side of a directed edge. */
  datatype Position = LEFT | RIGHT

  function Opposite(position: Position): Position {
    if position == LEFT then RIGHT else LEFT
  }

  class DirectedEdge {
    const edge: Edge
    const isForward: bool
    var labels: Label
    var isInResult: bool
    var sym: DirectedEdge?
    var next: DirectedEdge?
    var nextMin: DirectedEdge?
    var edgeRing: EdgeRing?
    var depthLeft: int
    var depthRight: int

    constructor (newEdge: Edge, newIsForward: bool)
      ensures edge == newEdge && isForward == newIsForward
      ensures if newIsForward then labels == newEdge.labels
              else forall k :: 0 <= k < 2 ==> Mirrored(labels[k], newEdge.labels[k])
      ensures sym == null && next == null && nextMin == null && edgeRing == null && !isInResult
      ensures depthLeft == depthRight == NULL_DEPTH
    {
      edge, isForward := newEdge, newIsForward;
      labels := if newIsForward then newEdge.labels else [Flip(newEdge.labels[0]), Flip(newEdge.labels[1])];
      isInResult, sym, next, nextMin, edgeRing := false, null, null, null, null;
      depthLeft, depthRight := NULL_DEPTH, NULL_DEPTH;
    }

    predicate IsArea()
      reads this`labels
    {
      labels[0].Area? || labels[1].Area?
    }

    /** A line for one geometry, and for the other a line too or altogether outside. */
    predicate IsLineEdge()
      reads this`labels
    {
      && (labels[0].Line? || labels[1].Line?)
      && (labels[0].Line? || labels[0] == Area(EXTERIOR, EXTERIOR, EXTERIOR))
      && (labels[1].Line? || labels[1] == Area(EXTERIOR, EXTERIOR, EXTERIOR))
    }

    function DepthDelta(): int {
      if isForward then edge.depthDelta else -edge.depthDelta
    }

    ghost function Sides(): Depths.Sides
      reads this`depthLeft, this`depthRight
    {
      Depths.Sides(depthLeft, depthRight, DepthDelta())
    }

    function DepthAt(position: Position): int
      reads this`depthLeft, this`depthRight
    {
      if position == LEFT then depthLeft else depthRight
    }

    /** Fails on a clash with a depth already assigned. */
    method SetDepth(position: Position, newDepth: int) returns (ok: bool)
      modifies this`depthLeft, this`depthRight
      ensures ok == Accepts(old(DepthAt(position)), newDepth)
      ensures DepthAt(position) == if ok then newDepth else old(DepthAt(position))
      ensures DepthAt(Opposite(position)) == old(DepthAt(Opposite(position)))
    {
      if DepthAt(position) != NULL_DEPTH {
        if DepthAt(position) != newDepth {
          return false;
        }
      }
      if position == LEFT {
        depthLeft := newDepth;
      } else {
        depthRight := newDepth;
      }
      return true;
    }

    /** Assigns the depth on one side, and on the other the depth across the edge; fails on a clash. */
    method SetEdgeDepths(position: Position, newDepth: int) returns (ok: bool)
      modifies this`depthLeft, this`depthRight
      ensures ok == AcceptsBoth(old(Sides()), if position == RIGHT then newDepth else newDepth - DepthDelta())
      ensures ok ==> DepthAt(position) == newDepth && depthLeft == depthRight + DepthDelta()
      ensures DepthAt(position) == newDepth || DepthAt(position) == old(DepthAt(position))
      ensures !ok ==> DepthAt(Opposite(position)) == old(DepthAt(Opposite(position)))
    {
      var depthDelta := edge.depthDelta;
      if !isForward {
        depthDelta := -depthDelta;
      }
      var directionFactor := 1;
      if position == LEFT {
        directionFactor := -1;
      }
      var oppositePos := Opposite(position);
      var delta := depthDelta * directionFactor;
      var oppositeDepth := newDepth + delta;
      ok := SetDepth(position, newDepth);
      if ok {
        ok := SetDepth(oppositePos, oppositeDepth);
      }
    }

    /** The edge's points in the direction of travel. */
    ghost function Along(): (p: seq<Coordinate>)
      ensures |p| == |edge.pts|
    {
      if isForward then edge.pts else Paths.Reversed(edge.pts)
    }

    function Origin(): Coordinate {
      if isForward then edge.pts[0] else edge.pts[|edge.pts| - 1]
    }

    function Destination(): Coordinate {
      if isForward then edge.pts[|edge.pts| - 1] else edge.pts[0]
    }

    function End(): EdgeEnd {
      if isForward then EdgeEnd(edge.pts[0], edge.pts[1])
      else EdgeEnd(edge.pts[|edge.pts| - 1], edge.pts[|edge.pts| - 2])
    }
  }

  /** Of the two directed edges of an edge the backward one crosses it the other way: its delta is negated, so that the
      same depths, with left and right exchanged, fit both. */
  lemma TwinsExchangeSides(e: DirectedEdge, f: DirectedEdge)
    requires e.edge == f.edge && e.isForward && !f.isForward
    ensures e.DepthDelta() == e.edge.depthDelta && f.DepthDelta() == -e.DepthDelta()
    ensures e.depthLeft == f.depthRight && e.depthRight == f.depthLeft ==>
              (e.depthLeft == e.depthRight + e.DepthDelta() <==> f.depthLeft == f.depthRight + f.DepthDelta())
    ensures e.Origin() == f.Destination() && e.Destination() == f.Origin()
  {
  }

  /** An edge that is an area edge for one geometry is a line edge only if it is a line for the other one, and lies
      outside the first altogether. */
  lemma LineOrAreaEdge(e: DirectedEdge, i: nat)
    requires i < 2
    ensures !e.IsArea() ==> e.IsLineEdge()
    ensures e.labels[i].Area? ==> e.IsArea()
    ensures e.labels[i].Area? ==>
              (e.IsLineEdge() <==> e.labels[1 - i].Line? && e.labels[i].on == e.labels[i].left == e.labels[i].right == EXTERIOR)
  {
  }

  const EndLess := (a: DirectedEdge, b: DirectedEdge) => CompareDirection(a.End(), b.End()) < 0

  lemma DirectionsAreOrdered(S: set<DirectedEdge>, c: Coordinate)
    requires forall e :: e in S ==> e.End().Proper() && e.Origin() == c
    ensures OrderedSets.StrictWeakOrder(EndLess, S)
  {
    forall a, b, d | a in S && b in S && d in S
      ensures EndLess(a, b) && EndLess(b, d) ==> EndLess(a, d)
      ensures !EndLess(a, b) && !EndLess(b, d) ==> !EndLess(a, d)
    {
      DirectionsTransitive(a.End(), b.End(), d.End());
    }
    forall a | a in S
      ensures !EndLess(a, a)
    {
    }
  }

  lemma DirectionsTransitive(a: EdgeEnd, b: EdgeEnd, c: EdgeEnd)
    requires a.Proper() && b.Proper() && c.Proper() && a.p0 == b.p0 == c.p0
    ensures CompareDirection(a, b) < 0 && CompareDirection(b, c) < 0 ==> CompareDirection(a, c) < 0
    ensures CompareDirection(a, b) >= 0 && CompareDirection(b, c) >= 0 ==> CompareDirection(a, c) >= 0
  {
    CompareAntisymmetric(a, b);
    CompareAntisymmetric(b, c);
    CompareAntisymmetric(a, c);
    if CompareDirection(a, b) < 0 && CompareDirection(b, c) < 0 {
      CompareTransitive(a, b, c);
    } else if CompareDirection(a, b) >= 0 && CompareDirection(b, c) >= 0 {
      CompareTransitive(c, b, a);
    }
  }

  /** All leave one node, in some direction. */
  ghost predicate LeaveOneNode(es: seq<DirectedEdge>) {
    && (forall e :: e in es ==> e.End().Proper())
    && (forall e, f :: e in es && f in es ==> e.Origin() == f.Origin())
  }

  /** Counter-clockwise from the positive x axis, no two the same way. */
  ghost predicate AnglesAscend(es: seq<DirectedEdge>) {
    forall i, j :: 0 <= i < j < |es| ==> AngleBefore(es[i].End(), es[j].End())
  }

  ghost predicate SameWay(e: DirectedEdge, f: DirectedEdge) {
    SameRay(e.End().Dx(), e.End().Dy(), f.End().Dx(), f.End().Dy())
  }

  /** The order of a star is the order of angles. */
  lemma OrderIsByAngle(e: DirectedEdge, f: DirectedEdge)
    requires e.End().Proper() && f.End().Proper() && e.Origin() == f.Origin()
    ensures EndLess(e, f) <==> AngleBefore(e.End(), f.End())
    ensures OrderedSets.Equivalent(EndLess, e, f) <==> SameWay(e, f)
  {
    CompareIsAngleOrder(e.End(), f.End());
  }

  lemma SortedIsAscending(es: seq<DirectedEdge>)
    requires LeaveOneNode(es)
    ensures OrderedSets.Sorted(EndLess, es) <==> AnglesAscend(es)
  {
    hide SmallerAngle, CompareDirection, AngleBefore, EndLess;
    forall i, j | 0 <= i < j < |es|
      ensures EndLess(es[i], es[j]) <==> AngleBefore(es[i].End(), es[j].End())
    {
      assert es[i] in es && es[j] in es;
      OrderIsByAngle(es[i], es[j]);
    }
  }

  /** What insertion does to a star. */
  lemma StarInsert(es: seq<DirectedEdge>, e: DirectedEdge)
    requires LeaveOneNode(es + [e]) && AnglesAscend(es)
    ensures var r := OrderedSets.Insert(EndLess, es, e);
            && AnglesAscend(r)
            && (if exists f :: f in es && SameWay(e, f) then r == es else forall f :: f in r <==> f in es || f == e)
  {
    hide OrderedSets.Insert, AnglesAscend, SameWay, EndLess;
    var r := OrderedSets.Insert(EndLess, es, e);
    assert e in es + [e] && forall f :: f in es ==> f in es + [e];
    DirectionsAreOrdered(OrderedSets.Elements(es) + {e}, e.Origin());
    SortedIsAscending(es);
    OrderedSets.InsertKeepsSorted(EndLess, es, e);
    forall f | f in r
      ensures f in es + [e]
    {
    }
    SortedIsAscending(r);
    forall f | f in es
      ensures OrderedSets.Equivalent(EndLess, e, f) <==> SameWay(e, f)
    {
      OrderIsByAngle(e, f);
    }
  }

  /** Between an edge and the one after it, going round, there is none. */
  lemma NoneBetween(es: seq<DirectedEdge>, i: nat, m: nat)
    requires AnglesAscend(es) && i < |es| && m < |es|
    ensures !StrictlyBetween(es[i].End(), es[m].End(), es[After(i, |es|)].End())
  {
    hide SmallerAngle;
    NotBefore(es, m, i);
    NotBefore(es, After(i, |es|), m);
    NotBefore(es, i, m);
    NotBefore(es, After(i, |es|), i);
    NotBefore(es, m, After(i, |es|));
  }

  lemma NotBefore(es: seq<DirectedEdge>, i: nat, j: nat)
    requires AnglesAscend(es) && i < |es| && j < |es|
    ensures AngleBefore(es[i].End(), es[j].End()) <==> i < j
  {
    if j < i {
      AngleAsymmetric(es[j].End(), es[i].End());
    }
  }

  /** Between an edge that leads in and the next that leads out there is none that leads out. */
  lemma NextOutIsCCW(es: seq<DirectedEdge>, ends: seq<Ends>, i: nat, j: nat, m: nat)
    requires AnglesAscend(es) && |ends| == |es| && NextOut(ends, i, j) && m < |es| && ends[m].outgoing
    ensures !StrictlyBetween(es[i].End(), es[m].End(), es[j].End())
  {
    hide SmallerAngle, AnglesAscend;
    NotBefore(es, i, j);
    NotBefore(es, i, m);
    NotBefore(es, m, j);
  }

  /** In a star run backwards that is so clockwise. */
  lemma NextOutIsCW(list: seq<DirectedEdge>, ends: seq<Ends>, i: nat, j: nat, m: nat)
    requires AnglesAscend(list) && |ends| == |list| && NextOut(ends, i, j) && m < |list| && ends[m].outgoing
    ensures var es := Backwards(list); !StrictlyBetween(es[j].End(), es[m].End(), es[i].End())
  {
    hide SmallerAngle, AnglesAscend, Backwards;
    var n := |list|;
    NotBefore(list, n - 1 - j, n - 1 - i);
    NotBefore(list, n - 1 - j, n - 1 - m);
    NotBefore(list, n - 1 - m, n - 1 - i);
  }

  // ---------- twins ----------

  /** For reasoning, the twin of each edge as a map. */
  type TwinMap = map<DirectedEdge, DirectedEdge>

  ghost predicate Injective(twin: TwinMap) {
    forall e, f :: e in twin && f in twin && twin[e] == twin[f] ==> e == f
  }

  /** The edges are distinct, have the twins that the map says, and no two share one. */
  ghost predicate Twinned(es: seq<DirectedEdge>, twin: TwinMap)
    reads es`sym
  {
    && (forall i, j :: 0 <= i < j < |es| ==> es[i] != es[j])
    && (forall i :: 0 <= i < |es| ==> es[i] in twin && es[i].sym == twin[es[i]])
    && Injective(twin)
  }

  // ---------- which edges take part ----------

  /** The members of the list that are in S, in order. */
  ghost function Keep(es: seq<DirectedEdge>, S: set<DirectedEdge>): (r: seq<DirectedEdge>)
    ensures forall e :: e in r ==> e in es && e in S
    ensures forall e :: e in es && e in S ==> e in r
  {
    if es == [] then []
    else
      var front, last := es[..|es| - 1], es[|es| - 1];
      assert es == front + [last];
      if last in S then Keep(front, S) + [last] else Keep(front, S)
  }

  lemma KeepPush(es: seq<DirectedEdge>, n: nat, S: set<DirectedEdge>)
    requires n < |es|
    ensures Keep(es[..n + 1], S) == if es[n] in S then Keep(es[..n], S) + [es[n]] else Keep(es[..n], S)
  {
    assert es[..n + 1][..n] == es[..n];
  }

  lemma {:induction false} KeepDistinct(es: seq<DirectedEdge>, S: set<DirectedEdge>)
    requires forall i, j :: 0 <= i < j < |es| ==> es[i] != es[j]
    ensures forall i, j :: 0 <= i < j < |Keep(es, S)| ==> Keep(es, S)[i] != Keep(es, S)[j]
  {
    if es != [] {
      var front, last := es[..|es| - 1], es[|es| - 1];
      KeepDistinct(front, S);
      assert last !in front;
    }
  }

  lemma KeepTwinned(es: seq<DirectedEdge>, S: set<DirectedEdge>, twin: TwinMap)
    requires Twinned(es, twin)
    ensures Twinned(Keep(es, S), twin)
  {
    KeepDistinct(es, S);
    forall i | 0 <= i < |Keep(es, S)|
      ensures Keep(es, S)[i] in twin && Keep(es, S)[i].sym == twin[Keep(es, S)[i]]
    {
      assert Keep(es, S)[i] in Keep(es, S);
    }
  }

  /** The edges of the star that are in the result themselves or by their twin. */
  ghost function ResultSet(es: seq<DirectedEdge>, twin: TwinMap): set<DirectedEdge>
    reads es`isInResult, twin.Values`isInResult
  {
    set e | e in es && (e.isInResult || (e in twin && twin[e].isInResult))
  }

  ghost function AreaSet(es: seq<DirectedEdge>): set<DirectedEdge>
    reads es`labels
  {
    set e | e in es && e.IsArea()
  }

  /** How each edge of the list and its twin stand to the result. */
  ghost predicate EndsAre(es: seq<DirectedEdge>, twin: TwinMap, ends: seq<Ends>)
    reads es`isInResult, twin.Values`isInResult
  {
    && |ends| == |es|
    && forall i :: 0 <= i < |es| ==> es[i] in twin && ends[i] == Ends(es[i].isInResult, twin[es[i]].isInResult)
  }

  ghost function PlaceOf(e: DirectedEdge, sym: DirectedEdge): Place
    reads e`labels, e`isInResult, sym`isInResult
  {
    if e.IsLineEdge() then LineEdge else OtherEdge(e.isInResult, sym.isInResult)
  }

  ghost predicate PlacesAre(es: seq<DirectedEdge>, twin: TwinMap, places: seq<Place>)
    reads es`labels, es`isInResult, twin.Values`isInResult
  {
    && |places| == |es|
    && (forall i :: 0 <= i < |es| ==> es[i] in twin && places[i] == PlaceOf(es[i], twin[es[i]]))
  }

  /** The marks that the pass leaves after n places: those of the line edges among them, the last one winning
      where an edge both starts and ends at the node. */
  ghost function Marks(es: seq<DirectedEdge>, places: seq<Place>, n: nat): map<Edge, bool>
    requires |places| == |es| && n <= |es|
  {
    if n == 0 then map[]
    else if places[n - 1].LineEdge? then Marks(es, places, n - 1)[es[n - 1].edge := LocAt(places, n - 1) == INTERIOR]
    else Marks(es, places, n - 1)
  }

  /** Every line edge here is marked, as its last place tells. */
  lemma {:induction false} LineIsMarked(es: seq<DirectedEdge>, places: seq<Place>, n: nat, k: nat)
    requires |places| == |es| && k < n <= |es| && places[k].LineEdge?
    ensures es[k].edge in Marks(es, places, n)
    ensures (forall m :: k < m < n && places[m].LineEdge? ==> es[m].edge != es[k].edge) ==>
              Marks(es, places, n)[es[k].edge] == (LocAt(places, k) == INTERIOR)
  {
    hide LocAt;
    if k < n - 1 {
      LineIsMarked(es, places, n - 1, k);
    }
  }

  /** No other edge is marked. */
  lemma {:induction false} MarkedIsLine(es: seq<DirectedEdge>, places: seq<Place>, n: nat, edge: Edge) returns (k: nat)
    requires |places| == |es| && n <= |es| && edge in Marks(es, places, n)
    ensures k < n && places[k].LineEdge? && es[k].edge == edge
  {
    hide LocAt;
    if places[n - 1].LineEdge? && es[n - 1].edge == edge {
      k := n - 1;
    } else {
      k := MarkedIsLine(es, places, n - 1, edge);
    }
  }

  /** The incoming edges at the places in `links` lead on to the outgoing edges at the places given there. */
  ghost predicate LinkedBy(es: seq<DirectedEdge>, twin: TwinMap, links: map<int, int>)
    reads twin.Values`next
  {
    forall i :: i in links ==>
      0 <= i < |es| && es[i] in twin && 0 <= links[i] < |es| && twin[es[i]].next == es[links[i]]
  }

  // ---------- the star around a node ----------

  /** A list of edges that is computed on first use. */
  datatype EdgeList = NotComputed | Computed(list: seq<DirectedEdge>)

  /** The directed edges that leave one node, in counter-clockwise order. */
  class DirectedEdgeStar {
    var edges: seq<DirectedEdge>
    var resultAreaEdges: EdgeList

    constructor ()
      ensures edges == [] && resultAreaEdges == NotComputed
    {
      edges, resultAreaEdges := [], NotComputed;
    }

    /** Inserts the edge unless one in the same direction is present. */
    method Insert(de: DirectedEdge)
      modifies this`edges
      ensures edges == OrderedSets.Insert(EndLess, old(edges), de)
      ensures LeaveOneNode(old(edges) + [de]) && AnglesAscend(old(edges)) ==>
                && AnglesAscend(edges)
                && (if exists f :: f in old(edges) && SameWay(de, f) then edges == old(edges)
                    else forall f :: f in edges <==> f in old(edges) || f == de)
    {
      if LeaveOneNode(edges + [de]) && AnglesAscend(edges) {
        StarInsert(edges, de);
      }
      edges := OrderedSets.Insert(EndLess, edges, de);
    }

    /** Links each incoming edge to the outgoing edge that follows its own counter-clockwise. */
    method LinkAllDirectedEdges(ghost twin: TwinMap)
      requires edges != [] && Twinned(edges, twin)
      modifies twin.Values`next
      ensures forall i :: 0 <= i < |edges| ==> twin[edges[i]].next == edges[After(i, |edges|)]
      ensures AnglesAscend(edges) ==> forall e, g :: e in edges && g in edges ==>
                twin[e].next != null && !StrictlyBetween(e.End(), g.End(), twin[e].next.End())
      ensures forall e :: e in twin && e !in edges ==> twin[e].next == old(twin[e].next)
    {
      hide *;
      ghost var es := edges;
      NoLinksYet(es, twin, []);
      TwinnedAt(es, twin, |es| - 1);
      SuccessorsGrow(0, |es|);
      var prevOut: DirectedEdge? := null;
      var firstIn: DirectedEdge? := null;
      var i := |edges|;
      while i > 0
        invariant 0 <= i <= |es| && Twinned(es, twin)
        invariant i == |es| ==> prevOut == null && firstIn == null
        invariant i < |es| ==> prevOut == es[i] && firstIn == twin[es[|es| - 1]]
        invariant LinkedBy(es, twin, Successors(i, |es|))
        invariant forall e :: e in twin && e !in es ==> twin[e].next == old(twin[e].next)
      {
        i := i - 1;
        TwinnedAt(es, twin, i);
        SuccessorsGrow(i, |es|);
        var nextOut := edges[i];
        var nextIn := nextOut.sym;
        if firstIn == null {
          firstIn := nextIn;
        }
        if prevOut != null {
          SetNext(nextIn, prevOut, es, twin, Successors(i + 1, |es|), i, i + 1);
        }
        prevOut := nextOut;
      }
      SetNext(firstIn, prevOut, es, twin, Successors(0, |es|), |es| - 1, 0);
      LinkedByAll(es, twin);
      if AnglesAscend(es) {
        RoundLinksTurn(es, twin);
      }
    }

    /** getResultAreaEdges: computed once. */
    method GetResultAreaEdges(ghost twin: TwinMap)
      requires Twinned(edges, twin)
      modifies this`resultAreaEdges
      ensures resultAreaEdges == if old(resultAreaEdges).Computed? then old(resultAreaEdges)
                                 else Computed(Keep(edges, ResultSet(edges, twin)))
    {
      if resultAreaEdges.Computed? {
        return;
      }
      ghost var S := ResultSet(edges, twin);
      var list := [];
      var i := 0;
      while i < |edges|
        invariant 0 <= i <= |edges| && list == Keep(edges[..i], S)
      {
        KeepPush(edges, i, S);
        if edges[i].isInResult || edges[i].sym.isInResult {
          list := list + [edges[i]];
        }
        i := i + 1;
      }
      assert edges[..i] == edges;
      resultAreaEdges := Computed(list);
    }

    /** Links each incoming result edge to the outgoing one that follows it counter-clockwise.
        Fails, changing no link, when there is an incoming but no outgoing one. `es` lists the area edges
        of the result around the node, as computed now or before. */
    method LinkResultDirectedEdges(ghost twin: TwinMap) returns (ok: bool, ghost es: seq<DirectedEdge>, ghost ends: seq<Ends>)
      requires Twinned(edges, twin)
      requires resultAreaEdges.Computed? ==> Twinned(resultAreaEdges.list, twin) && forall e :: e in resultAreaEdges.list ==> e in edges
      modifies this`resultAreaEdges, twin.Values`next
      ensures resultAreaEdges == if old(resultAreaEdges).Computed? then old(resultAreaEdges)
                                 else Computed(Keep(edges, ResultSet(edges, twin)))
      ensures es == Keep(resultAreaEdges.list, AreaSet(edges))
      ensures EndsAre(es, twin, ends)
      ensures ok == !Stuck(ends) && (ok ==> LinkedBy(es, twin, Links(ends)))
      ensures ok && AnglesAscend(resultAreaEdges.list) ==> LinksTurnCCW(es, twin, Links(ends))
      ensures forall e :: e in twin && (!ok || e !in edges) ==> twin[e].next == old(twin[e].next)
    {
      hide Keep, EndsList, AnglesAscend, LinksTurnCCW, Links, Stuck, LinkedBy, Injective;
      GetResultAreaEdges(twin);
      ghost var S, T := ResultSet(edges, twin), AreaSet(edges);
      KeepTwinned(edges, S, twin);
      KeepTwinned(resultAreaEdges.list, T, twin);
      var areaEdges := SelectAreaEdges(resultAreaEdges.list, T);
      es := areaEdges;
      ends := EndsList(es, twin);
      ok := LinkAround(areaEdges, twin, ends);
      if ok && AnglesAscend(resultAreaEdges.list) {
        KeepAscends(resultAreaEdges.list, T);
        NextLinksTurn(es, twin, ends);
      }
    }

    /** linkMinimalDirectedEdges: as above, clockwise, over the edges of one ring, through `nextMin`. */
    method LinkMinimalDirectedEdges(er: EdgeRing, ghost twin: TwinMap, ghost ends: seq<Ends>) returns (ok: bool)
      requires resultAreaEdges.Computed? && Twinned(Backwards(resultAreaEdges.list), twin)
      requires RingEndsAre(Backwards(resultAreaEdges.list), twin, er, ends)
      modifies twin.Values`nextMin
      ensures ok == !Stuck(ends)
      ensures ok ==> MinLinkedBy(Backwards(resultAreaEdges.list), twin, Links(ends))
      ensures ok && AnglesAscend(resultAreaEdges.list) ==> LinksTurnClockwise(resultAreaEdges.list, twin, er, Links(ends))
      ensures !ok ==> unchanged(twin.Values`nextMin)
    {
      hide Run, FirstOut, MinLinkedBy, Backwards, AnglesAscend, LinksTurnClockwise, Injective;
      ghost var es := Backwards(resultAreaEdges.list);
      NoLinksYet(es, twin, ends);
      ghost var m, first := Run(ends, 0), FirstOut(ends, 0);
      var firstOut: DirectedEdge? := null;
      var incoming: DirectedEdge? := null;
      var linking := false;
      var i := |resultAreaEdges.list|;
      ghost var k := 0;
      while i > 0
        invariant 0 <= i <= |es| && k == |es| - i && m == Run(ends, k) && first == FirstOut(ends, k)
        invariant linking == (m.pending >= 0) && (linking ==> incoming == twin[es[m.pending]])
        invariant firstOut == if first < 0 then null else es[first]
        invariant MinLinkedBy(es, twin, m.links)
        invariant firstOut == null ==> unchanged(twin.Values`nextMin)
      {
        RunStep(ends, k);
        ghost var before := m;
        i := i - 1;
        k := k + 1;
        m, first := Run(ends, k), FirstOut(ends, k);
        var nextOut := resultAreaEdges.list[i];
        assert nextOut == es[k - 1];
        var nextIn := nextOut.sym;
        if firstOut == null && nextOut.edgeRing == er {
          firstOut := nextOut;
        }
        if !linking {
          if nextIn.edgeRing != er {
            continue;
          }
          incoming := nextIn;
          linking := true;
        } else {
          if nextOut.edgeRing != er {
            continue;
          }
          SetNextMin(incoming, nextOut, es, twin, before.links, before.pending, k - 1);
          linking := false;
        }
      }
      if linking {
        if firstOut == null {
          return false;
        }
        SetNextMin(incoming, firstOut, es, twin, m.links, m.pending, first);
      }
      if AnglesAscend(resultAreaEdges.list) {
        MinLinksTurn(resultAreaEdges.list, twin, er, ends);
      }
      return true;
    }

    // ---------- side labels ----------

    /** Spreads the known side locations around the node; fails on a conflict. `labs` are the labels for the
        geometry before the call, `result` those after it. */
    method PropagateSideLabels(geomIndex: nat, ghost labs: seq<TopologyLocation>)
        returns (ok: bool, ghost result: seq<TopologyLocation>)
      requires geomIndex < 2 && AllDistinct(edges) && LabelsAre(edges, geomIndex, labs)
      requires forall k :: 0 <= k < |labs| ==> Whole(labs[k])
      modifies edges`labels
      ensures LabelsAre(edges, geomIndex, result)
      ensures forall e :: e in edges ==> e.labels[1 - geomIndex] == old(e.labels[1 - geomIndex])
      ensures ok == (StartLocation(labs) == UNDEF || NoConflict(labs))
      ensures StartLocation(labs) == UNDEF ==> result == labs
      ensures StartLocation(labs) != UNDEF && ok ==> Propagated(labs, result)
      ensures !ok ==> exists n :: 0 < n <= |labs| && PropagatedTo(labs, result, n)
    {
      hide NoConflict, Propagated, Reached, Whole;
      result := labs;
      var startLoc := FindStartLocation(geomIndex, labs);
      if startLoc == UNDEF {
        return true, result;
      }
      var currLoc := startLoc;
      ReachedFirst(labs, startLoc);
      var i := 0;
      while i < |edges|
        invariant 0 <= i <= |edges| && currLoc == Reached(labs, i, startLoc)
        invariant LabelsAre(edges, geomIndex, result) && PropagatedTo(labs, result, i)
        invariant forall e :: e in edges ==> e.labels[1 - geomIndex] == old(e.labels[1 - geomIndex])
        invariant NoConflictUpTo(labs, i)
      {
        PropagateStep(labs, result, i, Filled(labs[i], currLoc));
        ConflictStep(labs, i);
        result := result[i := Filled(labs[i], currLoc)];
        ok, currLoc := FillLabel(edges[i], geomIndex, currLoc);
        i := i + 1;
        if !ok {
          return;
        }
      }
      PropagatedAll(labs, result);
      return true, result;
    }

    /** The left location of the last labelled edge. */
    method FindStartLocation(geomIndex: nat, ghost labs: seq<TopologyLocation>) returns (startLoc: Location)
      requires geomIndex < 2 && LabelsAre(edges, geomIndex, labs)
      requires forall k :: 0 <= k < |labs| ==> Whole(labs[k])
      ensures startLoc == StartLocation(labs)
    {
      startLoc := UNDEF;
      var i := 0;
      while i < |edges|
        invariant 0 <= i <= |edges| && startLoc == Reached(labs, i, UNDEF)
      {
        var t := edges[i].labels[geomIndex];
        if t.Area? && t.left != UNDEF {
          startLoc := t.left;
        }
        i := i + 1;
      }
    }

    /** Fills in one edge's unknown locations and finds the location to its left; fails if its right side differs. */
    method FillLabel(de: DirectedEdge, geomIndex: nat, currLoc: Location) returns (ok: bool, leftLoc: Location)
      requires geomIndex < 2 && Whole(de.labels[geomIndex])
      modifies de`labels
      ensures ok == !(Labelled(old(de.labels[geomIndex])) && old(de.labels[geomIndex]).right != currLoc)
      ensures ok ==> leftLoc == if Labelled(old(de.labels[geomIndex])) then old(de.labels[geomIndex]).left else currLoc
      ensures de.labels == old(de.labels)[geomIndex := Filled(old(de.labels[geomIndex]), currLoc)]
    {
      var t := de.labels[geomIndex];
      leftLoc := currLoc;
      if t.on == UNDEF {
        t := t.(on := currLoc);
      }
      if t.Area? {
        if t.right != UNDEF {
          if t.right != currLoc {
            de.labels := de.labels[geomIndex := t];
            return false, leftLoc;
          }
          leftLoc := t.left;
        } else {
          t := t.(right := currLoc);
          t := t.(left := currLoc);
        }
      }
      de.labels := de.labels[geomIndex := t];
      return true, leftLoc;
    }

    /** checkAreaLabelsConsistent, on area edges whose last left side is known: every edge separates two
        locations, and going round they agree. */
    method CheckAreaLabelsConsistent(geomIndex: nat, ghost labs: seq<TopologyLocation>) returns (consistent: bool)
      requires geomIndex < 2 && LabelsAre(edges, geomIndex, labs) && forall i :: 0 <= i < |labs| ==> labs[i].Area?
      ensures consistent == forall i :: 0 <= i < |labs| ==>
                labs[i].left != labs[i].right && labs[i].right == labs[if i > 0 then i - 1 else |labs| - 1].left
    {
      if |edges| == 0 {
        return true;
      }
      var currLoc := edges[|edges| - 1].labels[geomIndex].left;
      var i := 0;
      while i < |edges|
        invariant 0 <= i <= |edges| && currLoc == labs[if i > 0 then i - 1 else |labs| - 1].left
        invariant forall k :: 0 <= k < i ==>
          labs[k].left != labs[k].right && labs[k].right == labs[if k > 0 then k - 1 else |labs| - 1].left
      {
        var t := edges[i].labels[geomIndex];
        if t.left == t.right {
          return false;
        }
        if t.right != currLoc {
          return false;
        }
        currLoc := t.left;
        i := i + 1;
      }
      return true;
    }

    // ---------- covered line edges ----------

    /** Marks each line edge as covered iff the pass round the node finds it inside the result area; does nothing
        if no edge here bounds the result. */
    method FindCoveredLineEdges(ghost twin: TwinMap, ghost places: seq<Place>)
      requires Twinned(edges, twin) && PlacesAre(edges, twin, places)
      modifies set e | e in edges :: e.edge
      ensures var marks := if StartLoc(places, 0) == UNDEF then map[] else Marks(edges, places, |edges|);
              forall e :: e in edges ==>
                if e.edge in marks then e.edge.isCoveredSet && e.edge.isCovered == marks[e.edge]
                else e.edge.isCoveredSet == old(e.edge.isCoveredSet) && e.edge.isCovered == old(e.edge.isCovered)
    {
      hide LocAt, Twinned;
      var startLoc := FindResultLocation(twin, places);
      if startLoc == UNDEF {
        return;
      }
      StartsAt(places);
      ghost var es := edges;
      var currLoc := startLoc;
      var i := 0;
      while i < |edges|
        invariant 0 <= i <= |es| && currLoc == LocAt(places, i)
        invariant forall e :: e in es ==>
                    if e.edge in Marks(es, places, i)
                    then e.edge.isCoveredSet && e.edge.isCovered == Marks(es, places, i)[e.edge]
                    else e.edge.isCoveredSet == old(e.edge.isCoveredSet) && e.edge.isCovered == old(e.edge.isCovered)
      {
        LocStep(places, i);
        TwinnedAt(es, twin, i);
        var nextOut := edges[i];
        var nextIn := nextOut.sym;
        if nextOut.IsLineEdge() {
          nextOut.edge.SetCovered(currLoc == INTERIOR);
        } else {
          if nextOut.isInResult {
            currLoc := EXTERIOR;
          }
          if nextIn.isInResult {
            currLoc := INTERIOR;
          }
        }
        i := i + 1;
      }
    }

    method FindResultLocation(ghost twin: TwinMap, ghost places: seq<Place>) returns (startLoc: Location)
      requires Twinned(edges, twin) && PlacesAre(edges, twin, places)
      ensures startLoc == StartLoc(places, 0)
    {
      hide Twinned;
      var i := 0;
      while i < |edges|
        invariant 0 <= i <= |edges| && StartLoc(places, 0) == StartLoc(places, i)
      {
        TwinnedAt(edges, twin, i);
        var nextOut := edges[i];
        var nextIn := nextOut.sym;
        if !nextOut.IsLineEdge() {
          if nextOut.isInResult {
            return INTERIOR;
          }
          if nextIn.isInResult {
            return EXTERIOR;
          }
        }
        i := i + 1;
      }
      return UNDEF;
    }

    // ---------- depths ----------

    /** Carries the depth on the left of `de` once around the node; fails if it meets a different depth
        on the way or on returning. `sides` are the sides of the edges before the call. */
    method ComputeDepths(de: DirectedEdge, ghost sides: seq<Sides>) returns (ok: bool, ghost k: nat)
      requires AllDistinct(edges) && de in edges && SidesAre(edges, sides)
      modifies edges`depthLeft, edges`depthRight
      ensures k < |edges| && edges[k] == de && sides[k] == old(de.Sides())
      ensures ok == ClosesUp(sides, k)
      ensures ok ==> DepthsAgree(edges, k)
      ensures de.depthLeft == old(de.depthLeft) && de.depthRight == old(de.depthRight)
      ensures ok && old(de.depthLeft == de.depthRight + de.DepthDelta()) ==>
                forall i :: 0 <= i < |edges| ==> edges[i].depthLeft == edges[i].depthRight + edges[i].DepthDelta()
    {
      hide *;
      var at: nat :| at < |edges| && edges[at] == de;
      k := at;
      var startDepth := de.depthLeft;
      var targetLastDepth := de.depthRight;
      SplitAround(edges, sides, at);
      RoundJoin(sides, at);
      SidesGiveDeltas(edges, sides);
      var lastDepth;
      var tail, front := edges[at + 1..], edges[..at];
      ok, lastDepth := ComputeDepthsRound(tail, front, startDepth, sides[at + 1..], sides[..at]);
      if ok {
        ok := lastDepth == targetLastDepth;
        if ok {
          DepthsClose(edges, sides, at, startDepth);
          AllDeltas(edges, at);
        }
      }
    }
  }

  /** The depths up to the end of the edge list, and then from its beginning. */
  method ComputeDepthsRound(tail: seq<DirectedEdge>, front: seq<DirectedEdge>, startDepth: int,
                            ghost tailSides: seq<Sides>, ghost frontSides: seq<Sides>) returns (ok: bool, lastDepth: int)
    requires AllDistinct(tail) && AllDistinct(front)
    requires forall i, j :: 0 <= i < |tail| && 0 <= j < |front| ==> tail[i] != front[j]
    requires SidesAre(tail, tailSides) && SidesAre(front, frontSides)
    modifies tail`depthLeft, tail`depthRight, front`depthLeft, front`depthRight
    ensures var mid := DepthAfter(tailSides, |tailSides|, startDepth);
            && ok == (Admissible(tailSides, startDepth) && Admissible(frontSides, mid))
            && (ok ==> lastDepth == DepthAfter(frontSides, |frontSides|, mid))
            && (ok ==> DepthsFollow(tail, tailSides, startDepth, |tail|) && DepthsFollow(front, frontSides, mid, |front|))
  {
    ok, lastDepth := ComputeDepthsOver(tail, startDepth, tailSides);
    forall j | 0 <= j < |front|
      ensures front[j].Sides() == frontSides[j]
    {
      assert front[j] !in tail;
    }
    if ok {
      ok, lastDepth := ComputeDepthsOver(front, lastDepth, frontSides);
    }
  }

  /** Assigns depths to the edges one after the other, entering the first with startDepth on its right. */
  method ComputeDepthsOver(es: seq<DirectedEdge>, startDepth: int, ghost sides: seq<Sides>) returns (ok: bool, currDepth: int)
    requires AllDistinct(es) && SidesAre(es, sides)
    modifies es`depthLeft, es`depthRight
    ensures ok == Admissible(sides, startDepth)
    ensures ok ==> currDepth == DepthAfter(sides, |sides|, startDepth)
    ensures ok ==> DepthsFollow(es, sides, startDepth, |es|)
  {
    hide DepthAfter;
    currDepth := startDepth;
    DepthStep(sides, startDepth);
    var i := 0;
    while i < |es|
      invariant 0 <= i <= |es| && currDepth == DepthAfter(sides, i, startDepth)
      invariant DepthsFollow(es, sides, startDepth, i)
      invariant forall m :: 0 <= m < i ==> AcceptsBoth(sides[m], DepthAfter(sides, m, startDepth))
      invariant forall m :: i <= m < |es| ==> es[m].Sides() == sides[m]
    {
      ok := SetNextDepths(es, i, es[i], currDepth, startDepth, sides);
      if !ok {
        assert !AcceptsBoth(sides[i], DepthAfter(sides, i, startDepth));
        return;
      }
      currDepth := es[i].depthLeft;
      i := i + 1;
    }
    ok := true;
  }

  lemma DepthStep(sides: seq<Sides>, start: int)
    ensures DepthAfter(sides, 0, start) == start
    ensures forall m :: 0 <= m < |sides| ==> DepthAfter(sides, m + 1, start) == DepthAfter(sides, m, start) + sides[m].delta
  {
  }

  /** Sets the depths of the i-th edge. */
  method SetNextDepths(ghost es: seq<DirectedEdge>, ghost i: nat, nextDe: DirectedEdge, currDepth: int,
                       ghost startDepth: int, ghost sides: seq<Sides>) returns (ok: bool)
    requires i < |es| == |sides| && AllDistinct(es) && nextDe == es[i] && currDepth == DepthAfter(sides, i, startDepth)
    requires DepthsFollow(es, sides, startDepth, i) && forall m :: i <= m < |es| ==> es[m].Sides() == sides[m]
    modifies nextDe`depthLeft, nextDe`depthRight
    ensures ok == AcceptsBoth(sides[i], currDepth)
    ensures ok ==> DepthsFollow(es, sides, startDepth, i + 1)
    ensures forall m :: i < m < |es| ==> es[m].Sides() == sides[m]
  {
    hide DepthAfter;
    DepthStep(sides, startDepth);
    ok := nextDe.SetEdgeDepths(RIGHT, currDepth);
  }

  /** The edges after and before the k-th. */
  lemma SplitAround(es: seq<DirectedEdge>, sides: seq<Sides>, k: nat)
    requires AllDistinct(es) && SidesAre(es, sides) && k < |es|
    ensures var tail, front := es[k + 1..], es[..k];
            && AllDistinct(tail) && AllDistinct(front) && es[k] !in tail && es[k] !in front
            && (forall i, j :: 0 <= i < |tail| && 0 <= j < |front| ==> tail[i] != front[j])
            && SidesAre(tail, sides[k + 1..]) && SidesAre(front, sides[..k])
    ensures |sides| == |es| && es[k].Sides() == sides[k]
    ensures sides[k].left == es[k].depthLeft && sides[k].right == es[k].depthRight
  {
  }

  ghost predicate DeltasAre(es: seq<DirectedEdge>, sides: seq<Sides>) {
    |sides| == |es| && forall i :: 0 <= i < |es| ==> sides[i].delta == es[i].DepthDelta()
  }

  lemma SidesGiveDeltas(es: seq<DirectedEdge>, sides: seq<Sides>)
    requires SidesAre(es, sides)
    ensures DeltasAre(es, sides)
  {
  }

  ghost predicate SidesAre(es: seq<DirectedEdge>, sides: seq<Sides>)
    reads es`depthLeft, es`depthRight
  {
    |sides| == |es| && forall i :: 0 <= i < |es| ==> es[i].Sides() == sides[i]
  }

  /** The first n edges carry the depths reached from startDepth. */
  ghost predicate DepthsFollow(es: seq<DirectedEdge>, sides: seq<Sides>, startDepth: int, n: nat)
    reads es`depthLeft, es`depthRight
  {
    && n <= |es| == |sides|
    && forall m :: 0 <= m < n ==>
         es[m].depthRight == DepthAfter(sides, m, startDepth) && es[m].depthLeft == DepthAfter(sides, m + 1, startDepth)
  }

  lemma DepthsClose(es: seq<DirectedEdge>, sides: seq<Sides>, k: nat, start: int)
    requires k < |es| == |sides| && DeltasAre(es, sides)
    requires DepthsFollow(es[k + 1..], sides[k + 1..], start, |es| - k - 1)
    requires DepthsFollow(es[..k], sides[..k], DepthAfter(sides[k + 1..], |es| - k - 1, start), k)
    requires es[k].depthLeft == start
    requires es[k].depthRight == DepthAfter(sides[..k], k, DepthAfter(sides[k + 1..], |es| - k - 1, start))
    ensures DepthsAgree(es, k)
  {
    var n := |es|;
    forall i | 0 <= i < n
      ensures es[After(i, n)].depthRight == es[i].depthLeft
      ensures i != k ==> es[i].depthLeft == es[i].depthRight + es[i].DepthDelta()
    {
      if i > k {
        assert es[k + 1..][i - k - 1] == es[i];
        if i + 1 < n {
          assert es[k + 1..][i - k] == es[i + 1];
        } else if k > 0 {
          assert es[..k][0] == es[0];
        }
      } else if i < k {
        assert es[..k][i] == es[i];
        if i + 1 < k {
          assert es[..k][i + 1] == es[i + 1];
        }
      } else {
        if k + 1 < n {
          assert es[k + 1..][0] == es[k + 1];
        } else if k > 0 {
          assert es[..k][0] == es[0];
        }
      }
    }
  }

  /** Going round, each right depth is the left depth before it, and every edge but k adds its delta. */
  lemma AllDeltas(es: seq<DirectedEdge>, k: nat)
    requires k < |es| && DepthsAgree(es, k)
    ensures es[k].depthLeft == es[k].depthRight + es[k].DepthDelta() ==>
              forall i :: 0 <= i < |es| ==> es[i].depthLeft == es[i].depthRight + es[i].DepthDelta()
  {
  }

  ghost predicate DepthsAgree(es: seq<DirectedEdge>, k: nat)
    reads es`depthLeft, es`depthRight
  {
    && (forall i :: 0 <= i < |es| ==> es[After(i, |es|)].depthRight == es[i].depthLeft)
    && (forall i :: 0 <= i < |es| && i != k ==> es[i].depthLeft == es[i].depthRight + es[i].DepthDelta())
  }

  ghost predicate AllDistinct(es: seq<DirectedEdge>) {
    forall i, j :: 0 <= i < j < |es| ==> es[i] != es[j]
  }

  ghost predicate LabelsAre(es: seq<DirectedEdge>, geomIndex: nat, labs: seq<TopologyLocation>)
    requires geomIndex < 2
    reads es`labels
  {
    |labs| == |es| && forall i :: 0 <= i < |es| ==> es[i].labels[geomIndex] == labs[i]
  }

  ghost function Backwards(es: seq<DirectedEdge>): (r: seq<DirectedEdge>)
    ensures |r| == |es| && forall i :: 0 <= i < |es| ==> r[i] == es[|es| - 1 - i]
  {
    if es == [] then [] else [es[|es| - 1]] + Backwards(es[..|es| - 1])
  }

  /** How each edge of the list and its twin stand to a ring. */
  ghost predicate RingEndsAre(es: seq<DirectedEdge>, twin: TwinMap, er: EdgeRing, ends: seq<Ends>)
    reads es`edgeRing, twin.Values`edgeRing
  {
    && |ends| == |es|
    && forall i :: 0 <= i < |es| ==> es[i] in twin && ends[i] == Ends(es[i].edgeRing == er, twin[es[i]].edgeRing == er)
  }

  ghost predicate MinLinkedBy(es: seq<DirectedEdge>, twin: TwinMap, links: map<int, int>)
    reads twin.Values`nextMin
  {
    forall i :: i in links ==>
      0 <= i < |es| && es[i] in twin && 0 <= links[i] < |es| && twin[es[i]].nextMin == es[links[i]]
  }

  method SetNextMin(incoming: DirectedEdge, nextOut: DirectedEdge, ghost es: seq<DirectedEdge>, ghost twin: TwinMap,
                    ghost links: map<int, int>, ghost p: int, ghost j: int)
    requires Twinned(es, twin) && MinLinkedBy(es, twin, links) && p !in links
    requires 0 <= p < |es| && 0 <= j < |es| && incoming == twin[es[p]] && nextOut == es[j]
    modifies incoming`nextMin
    ensures MinLinkedBy(es, twin, links[p := j])
  {
    incoming.nextMin := nextOut;
    ghost var after := links[p := j];
    forall i | i in after
      ensures 0 <= i < |es| && es[i] in twin && 0 <= after[i] < |es| && twin[es[i]].nextMin == es[after[i]]
    {
      if i != p {
        assert i in links && es[i] != es[p];
      }
    }
  }

  /** The recorded ends of a list of edges. */
  ghost function EndsList(es: seq<DirectedEdge>, twin: TwinMap): (ends: seq<Ends>)
    requires forall e :: e in es ==> e in twin
    reads es`isInResult, twin.Values`isInResult
    ensures EndsAre(es, twin, ends)
  {
    if es == [] then []
    else EndsList(es[..|es| - 1], twin) + [Ends(es[|es| - 1].isInResult, twin[es[|es| - 1]].isInResult)]
  }

  /** The edges of the list that bound an area; the others are passed over. */
  method SelectAreaEdges(list: seq<DirectedEdge>, ghost T: set<DirectedEdge>) returns (es: seq<DirectedEdge>)
    requires forall e :: e in list ==> (e in T <==> e.IsArea())
    ensures es == Keep(list, T)
  {
    es := [];
    var i := 0;
    while i < |list|
      invariant 0 <= i <= |list| && es == Keep(list[..i], T)
    {
      KeepPush(list, i, T);
      if list[i].IsArea() {
        es := es + [list[i]];
      }
      i := i + 1;
    }
    assert list[..i] == list;
  }

  /** Sets one link, from the incoming edge at place p to the outgoing one at place j. */
  lemma TwinnedAt(es: seq<DirectedEdge>, twin: TwinMap, i: nat)
    requires Twinned(es, twin) && i < |es|
    ensures es[i] in twin && twin[es[i]] in twin.Values && es[i].sym == twin[es[i]]
  {
  }

  /** The links from each place, i or later, to the place that follows it. */
  ghost function Successors(i: int, n: int): map<int, int>
    decreases n - i
  {
    if i >= n - 1 then map[] else Successors(i + 1, n)[i := i + 1]
  }

  lemma {:induction false} SuccessorsAre(i: int, n: int)
    ensures forall k :: k in Successors(i, n) <==> i <= k < n - 1
    ensures forall k :: k in Successors(i, n) ==> Successors(i, n)[k] == k + 1
    decreases n - i
  {
    if i < n - 1 {
      SuccessorsAre(i + 1, n);
    }
  }

  lemma SuccessorsGrow(i: nat, n: nat)
    requires i < n
    ensures Successors(n, n) == Successors(n - 1, n) == map[]
    ensures i !in Successors(i + 1, n) && n - 1 !in Successors(i, n)
    ensures i < n - 1 ==> Successors(i + 1, n)[i := i + 1] == Successors(i, n)
  {
    SuccessorsAre(i, n);
    SuccessorsAre(i + 1, n);
  }

  /** Each link leads from an edge of the result that comes in to one that goes out, and counter-clockwise from the
      one to the other none goes out. */
  ghost predicate LinksTurnCCW(es: seq<DirectedEdge>, twin: TwinMap, links: map<int, int>)
    reads es`isInResult, twin.Values`isInResult, twin.Values`next
  {
    forall i, g :: i in links && g in es && g.isInResult ==>
      && 0 <= i < |es| && es[i] in twin && twin[es[i]].isInResult
      && twin[es[i]].next != null && twin[es[i]].next in es && twin[es[i]].next.isInResult
      && !StrictlyBetween(es[i].End(), g.End(), twin[es[i]].next.End())
  }

  lemma NextLinksTurn(es: seq<DirectedEdge>, twin: TwinMap, ends: seq<Ends>)
    requires AnglesAscend(es) && EndsAre(es, twin, ends) && !Stuck(ends) && LinkedBy(es, twin, Links(ends))
    ensures LinksTurnCCW(es, twin, Links(ends))
  {
    hide AnglesAscend, StrictlyBetween, Stuck, Links;
    LinksGoToNext(ends);
    forall i, g | i in Links(ends) && g in es && g.isInResult
      ensures 0 <= i < |es| && 0 <= Links(ends)[i] < |es| && ends[i].incoming && ends[Links(ends)[i]].outgoing
      ensures !StrictlyBetween(es[i].End(), g.End(), es[Links(ends)[i]].End())
    {
      var m: nat :| m < |es| && es[m] == g;
      NextOutIsCCW(es, ends, i, Links(ends)[i], m);
    }
  }

  /** As above, clockwise, for the edges of one ring and their minimal links. */
  ghost predicate LinksTurnClockwise(list: seq<DirectedEdge>, twin: TwinMap, er: EdgeRing, links: map<int, int>)
    reads list`edgeRing, twin.Values`edgeRing, twin.Values`nextMin
  {
    var es := Backwards(list);
    forall i, g :: i in links && g in es && g.edgeRing == er ==>
      && 0 <= i < |es| && es[i] in twin && twin[es[i]].edgeRing == er
      && twin[es[i]].nextMin != null && twin[es[i]].nextMin in list && twin[es[i]].nextMin.edgeRing == er
      && !StrictlyBetween(twin[es[i]].nextMin.End(), g.End(), es[i].End())
  }

  lemma MinLinksTurn(list: seq<DirectedEdge>, twin: TwinMap, er: EdgeRing, ends: seq<Ends>)
    requires AnglesAscend(list) && RingEndsAre(Backwards(list), twin, er, ends) && !Stuck(ends)
    requires MinLinkedBy(Backwards(list), twin, Links(ends))
    ensures LinksTurnClockwise(list, twin, er, Links(ends))
  {
    hide AnglesAscend, StrictlyBetween, Stuck, Links, Backwards;
    var es := Backwards(list);
    LinksGoToNext(ends);
    forall i, g | i in Links(ends) && g in es && g.edgeRing == er
      ensures 0 <= i < |es| && 0 <= Links(ends)[i] < |es| && ends[i].incoming && ends[Links(ends)[i]].outgoing
      ensures es[Links(ends)[i]] in list
      ensures !StrictlyBetween(es[Links(ends)[i]].End(), g.End(), es[i].End())
    {
      var m: nat :| m < |es| && es[m] == g;
      NextOutIsCW(list, ends, i, Links(ends)[i], m);
      assert es[Links(ends)[i]] == list[|list| - 1 - Links(ends)[i]];
    }
  }

  /** What is kept of a star in order is in order. */
  lemma {:induction false} KeepAscends(es: seq<DirectedEdge>, S: set<DirectedEdge>)
    requires AnglesAscend(es)
    ensures AnglesAscend(Keep(es, S))
  {
    hide AngleBefore;
    if es != [] {
      var front, last := es[..|es| - 1], es[|es| - 1];
      KeepAscends(front, S);
      forall i | 0 <= i < |Keep(front, S)|
        ensures AngleBefore(Keep(front, S)[i].End(), last.End())
      {
        assert Keep(front, S)[i] in front;
        var j :| 0 <= j < |front| && front[j] == Keep(front, S)[i];
        assert es[j] == front[j];
      }
    }
  }

  lemma RoundLinksTurn(es: seq<DirectedEdge>, twin: TwinMap)
    requires AnglesAscend(es) && forall i :: 0 <= i < |es| ==> es[i] in twin && twin[es[i]].next == es[After(i, |es|)]
    ensures forall e, g :: e in es && g in es ==>
              e in twin && twin[e].next != null && !StrictlyBetween(e.End(), g.End(), twin[e].next.End())
  {
    hide AnglesAscend, StrictlyBetween;
    forall e, g | e in es && g in es
      ensures e in twin && twin[e].next != null && !StrictlyBetween(e.End(), g.End(), twin[e].next.End())
    {
      var i: nat :| i < |es| && es[i] == e;
      var m: nat :| m < |es| && es[m] == g;
      NoneBetween(es, i, m);
    }
  }

  lemma LinkedByAll(es: seq<DirectedEdge>, twin: TwinMap)
    requires es != [] && LinkedBy(es, twin, Successors(0, |es|)[|es| - 1 := 0])
    ensures forall k :: 0 <= k < |es| ==> es[k] in twin && twin[es[k]].next == es[After(k, |es|)]
  {
    SuccessorsAre(0, |es|);
  }

  method SetNext(incoming: DirectedEdge, nextOut: DirectedEdge, ghost es: seq<DirectedEdge>, ghost twin: TwinMap,
                 ghost links: map<int, int>, ghost p: int, ghost j: int)
    requires Twinned(es, twin) && LinkedBy(es, twin, links) && p !in links
    requires 0 <= p < |es| && 0 <= j < |es| && incoming == twin[es[p]] && nextOut == es[j]
    modifies incoming`next
    ensures LinkedBy(es, twin, links[p := j])
    ensures forall e :: e in twin && e !in es ==> twin[e].next == old(twin[e].next)
  {
    incoming.next := nextOut;
    ghost var after := links[p := j];
    forall i | i in after
      ensures 0 <= i < |es| && es[i] in twin && 0 <= after[i] < |es| && twin[es[i]].next == es[after[i]]
    {
      if i != p {
        assert i in links && es[i] != es[p];
      }
    }
  }

  /** The linking machine over the area edges in counter-clockwise order. */
  method LinkAround(es: seq<DirectedEdge>, ghost twin: TwinMap, ghost ends: seq<Ends>) returns (ok: bool)
    requires Twinned(es, twin) && EndsAre(es, twin, ends)
    modifies twin.Values`next
    ensures ok == !Stuck(ends) && (ok ==> LinkedBy(es, twin, Links(ends)))
    ensures forall e :: e in twin && (!ok || e !in es) ==> twin[e].next == old(twin[e].next)
  {
    hide Run, FirstOut, LinkedBy;
    NoLinksYet(es, twin, ends);
    ghost var m, first := Run(ends, 0), FirstOut(ends, 0);
    var firstOut: DirectedEdge? := null;
    var incoming: DirectedEdge? := null;
    var linking := false;
    var i := 0;
    while i < |es|
      invariant 0 <= i <= |es| && m == Run(ends, i) && first == FirstOut(ends, i)
      invariant linking == (m.pending >= 0) && (linking ==> incoming == twin[es[m.pending]])
      invariant firstOut == if first < 0 then null else es[first]
      invariant LinkedBy(es, twin, m.links)
      invariant forall e :: e in twin && (firstOut == null || e !in es) ==> twin[e].next == old(twin[e].next)
    {
      RunStep(ends, i);
      ghost var before := m;
      m, first := Run(ends, i + 1), FirstOut(ends, i + 1);
      var nextOut := es[i];
      var nextIn := nextOut.sym;
      if firstOut == null && nextOut.isInResult {
        firstOut := nextOut;
      }
      i := i + 1;
      if !linking {
        if !nextIn.isInResult {
          continue;
        }
        incoming := nextIn;
        linking := true;
      } else {
        if !nextOut.isInResult {
          continue;
        }
        SetNext(incoming, nextOut, es, twin, before.links, before.pending, i - 1);
        linking := false;
      }
    }
    if linking {
      if firstOut == null {
        return false;
      }
      SetNext(incoming, firstOut, es, twin, m.links, m.pending, first);
    }
    return true;
  }

  lemma NoLinksYet(es: seq<DirectedEdge>, twin: TwinMap, ends: seq<Ends>)
    ensures Run(ends, 0) == Machine(-1, map[]) && FirstOut(ends, 0) == -1
    ensures LinkedBy(es, twin, map[]) && MinLinkedBy(es, twin, map[])
  {
  }

  datatype TraceOutcome = Traced | NullEdge | VisitedTwice | InvalidRing

  /** The points of a chain of directed edges, shared end points once. */
  ghost function RingPoints(es: seq<DirectedEdge>): seq<Coordinate> {
    if es == [] then []
    else
      var front, last := es[..|es| - 1], es[|es| - 1];
      if front == [] then last.Along() else RingPoints(front) + last.Along()[1..]
  }

  lemma RingPointsPush(es: seq<DirectedEdge>, e: DirectedEdge)
    ensures RingPoints(es + [e]) == RingPoints(es) + (if es == [] then e.Along() else e.Along()[1..])
  {
    assert (es + [e])[..|es|] == es;
  }

  /** The edges follow each other's `next` links, and none occurs twice. */
  ghost predicate IsTrail(es: seq<DirectedEdge>)
    reads es`next
  {
    && (forall i :: 0 <= i < |es| - 1 ==> es[i].next == es[i + 1])
    && (forall i, j :: 0 <= i < j < |es| ==> es[i] != es[j])
  }

  lemma TrailPush(es: seq<DirectedEdge>, e: DirectedEdge)
    requires IsTrail(es) && (es != [] ==> es[|es| - 1].next == e) && e !in es
    ensures IsTrail(es + [e])
  {
  }

  lemma LeftToVisit(universe: set<DirectedEdge>, es: seq<DirectedEdge>, e: DirectedEdge)
    requires e in universe && e !in es
    ensures universe - (set d | d in es + [e]) < universe - (set d | d in es)
  {
    assert e in universe - (set d | d in es);
  }

  ghost predicate ClosedUnderNext(universe: set<DirectedEdge>)
    reads universe`next
  {
    forall e :: e in universe && e.next != null ==> e.next in universe
  }

  /** The links lead from the set onto itself, no two to the same edge. */
  ghost predicate Permutes(S: set<DirectedEdge>)
    reads S`next
  {
    && (forall e :: e in S ==> e.next != null && e.next in S)
    && (forall e, f :: e in S && f in S && e.next == f.next ==> e == f)
  }

  /** On a permutation a trail cannot run into its own middle. */
  lemma TrailOnlyCloses(es: seq<DirectedEdge>, S: set<DirectedEdge>)
    requires Permutes(S) && es != [] && IsTrail(es) && forall e :: e in es ==> e in S
    ensures es[|es| - 1].next != null && es[|es| - 1].next !in es[1..]
  {
    forall i | 1 <= i < |es|
      ensures es[i] != es[|es| - 1].next
    {
      assert es[i - 1].next == es[i] && es[i - 1] in es && es[|es| - 1] in es;
      assert i < |es| ==> es[i - 1] != es[|es| - 1];
    }
  }

  /** What a linear ring demands of its points. */
  predicate ValidRing(pts: seq<Coordinate>) {
    pts != [] ==> Paths.IsClosed(pts) && |pts| >= 4
  }

  class EdgeRing {
    var edges: seq<DirectedEdge>
    var pts: seq<Coordinate>
    var hasRing: bool
    var isHole: bool

    constructor ()
      ensures edges == [] && pts == [] && !hasRing
    {
      edges, pts, hasRing, isHole := [], [], false, false;
    }

    /** The linear ring has been made of the points, and the hole flag set. */
    ghost predicate RingComputed()
      reads this`pts, this`hasRing, this`isHole
    {
      hasRing && pts != [] && ValidRing(pts) && isHole == CounterClockwise(pts)
    }

    /** computeRing: fails if the points make no linear ring. A counter-clockwise ring is a hole. */
    method ComputeRing() returns (ok: bool)
      requires pts != [] && (hasRing ==> RingComputed())
      modifies this`hasRing, this`isHole
      ensures ok == ValidRing(pts) && (ok ==> RingComputed())
    {
      if hasRing {
        return true;
      }
      if !ValidRing(pts) {
        return false;
      }
      hasRing := true;
      ok, isHole := IsCCW(pts);
    }

    /** The walk so far: a trail from the start, its points, and its marks on exactly its own edges. */
    ghost predicate Tracing(start: DirectedEdge, universe: set<DirectedEdge>, rings: map<DirectedEdge, EdgeRing?>)
      reads this`edges, this`pts, universe
    {
      && (edges != [] ==> edges[0] == start)
      && (forall e :: e in edges ==> e in universe)
      && IsTrail(edges) && pts == RingPoints(edges)
      && ClosedUnderNext(universe) && Marked(universe, rings)
    }

    ghost predicate Marked(universe: set<DirectedEdge>, rings: map<DirectedEdge, EdgeRing?>)
      reads this`edges, universe`edgeRing
    {
      && universe <= rings.Keys
      && forall e :: e in universe ==> rings[e] != this && e.edgeRing == if e in edges then this else rings[e]
    }

    /** Follows the links from newStart until it is back there, and collects the edges and their points.
        It stops early at a missing link, or at an edge this ring already holds. */
    method ComputePoints(newStart: DirectedEdge, ghost universe: set<DirectedEdge>, ghost rings: map<DirectedEdge, EdgeRing?>)
        returns (outcome: TraceOutcome)
      requires edges == [] && newStart in universe && Tracing(newStart, universe, rings)
      modifies this`edges, this`pts, universe`edgeRing
      ensures edges != [] && Tracing(newStart, universe, rings)
      ensures match outcome
              case Traced => edges[|edges| - 1].next == newStart
              case NullEdge => edges[|edges| - 1].next == null
              case VisitedTwice => edges[|edges| - 1].next in edges[1..]
              case InvalidRing => false
      ensures Permutes(universe) ==> outcome == Traced
    {
      hide RingPoints, IsTrail, Permutes;
      var de: DirectedEdge? := newStart;
      var isFirstEdge := true;
      while true
        invariant Tracing(newStart, universe, rings)
        invariant isFirstEdge == (edges == [])
        invariant de == if isFirstEdge then newStart else edges[|edges| - 1].next
        invariant !isFirstEdge ==> de != newStart
        decreases universe - (set e | e in edges)
      {
        if !isFirstEdge && Permutes(universe) {
          TrailOnlyCloses(edges, universe);
        }
        if de == null {
          return NullEdge;
        }
        if de.edgeRing == this {
          assert de in edges && de != edges[0];
          return VisitedTwice;
        }
        Take(de, isFirstEdge, newStart, universe, rings);
        isFirstEdge := false;
        de := de.next;
        if de == newStart {
          return Traced;
        }
      }
    }

    /** Adds one edge to the ring. */
    method Take(de: DirectedEdge, isFirstEdge: bool, ghost start: DirectedEdge, ghost universe: set<DirectedEdge>,
                ghost rings: map<DirectedEdge, EdgeRing?>)
      requires Tracing(start, universe, rings) && de in universe && de.edgeRing != this
      requires isFirstEdge == (edges == []) && de == if isFirstEdge then start else edges[|edges| - 1].next
      modifies this`edges, this`pts, de`edgeRing
      ensures Tracing(start, universe, rings)
      ensures edges == old(edges) + [de]
      ensures universe - (set e | e in edges) < old(universe - (set e | e in edges))
    {
      hide RingPoints, IsTrail, ClosedUnderNext, Marked;
      Unmarked(de, universe, rings);
      RingPointsPush(edges, de);
      TrailPush(edges, de);
      LeftToVisit(universe, edges, de);
      Mark(de, universe, rings);
      AddPoints(de.edge, de.isForward, isFirstEdge);
    }

    lemma Unmarked(de: DirectedEdge, universe: set<DirectedEdge>, rings: map<DirectedEdge, EdgeRing?>)
      requires Marked(universe, rings) && de in universe && de.edgeRing != this
      ensures de !in edges
    {
    }

    method Mark(de: DirectedEdge, ghost universe: set<DirectedEdge>, ghost rings: map<DirectedEdge, EdgeRing?>)
      requires Marked(universe, rings) && de in universe
      modifies this`edges, de`edgeRing
      ensures Marked(universe, rings) && edges == old(edges) + [de]
    {
      edges := edges + [de];
      de.edgeRing := this;
    }

    /** Appends the edge's points in the direction of travel, without the first unless it starts the ring. */
    method AddPoints(edge: Edge, isForward: bool, isFirstEdge: bool)
      modifies this`pts
      ensures var along := if isForward then edge.pts else Paths.Reversed(edge.pts);
              pts == old(pts) + (if isFirstEdge then along else along[1..])
    {
      var numEdgePts := |edge.pts|;
      if isForward {
        var startIndex := if isFirstEdge then 0 else 1;
        var i := startIndex;
        while i < numEdgePts
          invariant startIndex <= i <= numEdgePts
          invariant pts == old(pts) + edge.pts[startIndex..i]
        {
          pts := pts + [edge.pts[i]];
          i := i + 1;
        }
      } else {
        ghost var along := Paths.Reversed(edge.pts);
        var startIndex := if isFirstEdge then numEdgePts else numEdgePts - 1;
        var i := startIndex;
        while i > 0
          invariant 0 <= i <= startIndex
          invariant pts == old(pts) + along[numEdgePts - startIndex..numEdgePts - i]
        {
          pts := pts + [edge.pts[i - 1]];
          i := i - 1;
        }
      }
    }
  }
}
