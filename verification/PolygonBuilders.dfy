/** Building the maximal edge rings of the result by following the links. */
module PolygonBuilders {
  import opened Coordinates
  import opened GeomGraph
  import opened Paths
  import opened PlanarGraphs
  import opened OrderedSets

  /** The edges follow each other's links, and the last leads back to the first. */
  ghost predicate IsCycle(es: seq<DirectedEdge>)
    reads es`next
  {
    es != [] && IsTrail(es) && es[|es| - 1].next == es[0]
  }

  ghost predicate Within(es: seq<DirectedEdge>, S: set<DirectedEdge>) {
    forall e :: e in es ==> e in S
  }

  /** Every edge of a cycle is led to from within it. */
  lemma Predecessor(es: seq<DirectedEdge>, e: DirectedEdge) returns (p: DirectedEdge)
    requires IsCycle(es) && e in es
    ensures p in es && p.next == e
  {
    var m :| 0 <= m < |es| && es[m] == e;
    p := if m > 0 then es[m - 1] else es[|es| - 1];
  }

  /** On a permutation a cycle that meets another one lies in it from its start. */
  lemma {:induction false} CyclesMeet(es: seq<DirectedEdge>, l: seq<DirectedEdge>, S: set<DirectedEdge>, k: nat)
    requires Permutes(S) && IsCycle(es) && IsCycle(l) && Within(es, S) && Within(l, S)
    requires k < |es| && es[k] in l
    ensures es[0] in l
  {
    if k > 0 {
      var p := Predecessor(l, es[k]);
      assert es[k - 1].next == es[k] && es[k - 1] in es && p in S;
      CyclesMeet(es, l, S, k - 1);
    }
  }

  // ---------- one ring ----------

  /** For reasoning, the ring that each edge is marked with. */
  type Marks = map<DirectedEdge, EdgeRing?>

  ghost predicate MarksAre(S: set<DirectedEdge>, marks: Marks)
    reads S`edgeRing
  {
    marks.Keys == S && forall e :: e in S ==> e.edgeRing == marks[e]
  }

  ghost function Remarked(marks: Marks, es: seq<DirectedEdge>, er: EdgeRing): Marks {
    map e | e in marks :: if e in es then er else marks[e]
  }

  /** The MaximalEdgeRing constructor: follows the links from `start`, and makes a linear ring of the points. */
  method NewMaximalEdgeRing(start: DirectedEdge, ghost U: set<DirectedEdge>, ghost marks: Marks)
      returns (outcome: TraceOutcome, er: EdgeRing)
    requires start in U && ClosedUnderNext(U) && MarksAre(U, marks)
    modifies U`edgeRing
    ensures fresh(er) && er.edges != [] && er.edges[0] == start && er.pts == RingPoints(er.edges)
    ensures Within(er.edges, U) && IsTrail(er.edges)
    ensures outcome == Traced || outcome == InvalidRing <==> IsCycle(er.edges)
    ensures IsCycle(er.edges) ==> (outcome == Traced <==> ValidRing(er.pts))
    ensures outcome == Traced ==> er.RingComputed()
    ensures MarksAre(U, Remarked(marks, er.edges, er))
    ensures Permutes(U) ==> IsCycle(er.edges)
  {
    hide IsTrail, RingPoints, ClosedUnderNext, Permutes, Remarked, ValidRing;
    er := new EdgeRing();
    TrailEmpty();
    outcome := er.ComputePoints(start, U, marks);
    MarkedAre(er, U, marks);
    StartOnlyOnce(er.edges);
    RingHasPoints(er.edges);
    if outcome == Traced {
      var ok := er.ComputeRing();
      if !ok {
        outcome := InvalidRing;
      }
    }
  }

  lemma RingHasPoints(es: seq<DirectedEdge>)
    ensures es != [] ==> RingPoints(es) != []
  {
  }

  lemma TrailEmpty()
    ensures IsTrail([]) && RingPoints([]) == []
  {
  }

  lemma MarkedAre(er: EdgeRing, U: set<DirectedEdge>, marks: Marks)
    requires er.Marked(U, marks) && marks.Keys == U
    ensures MarksAre(U, Remarked(marks, er.edges, er))
  {
  }

  lemma StartOnlyOnce(es: seq<DirectedEdge>)
    requires IsTrail(es) && es != []
    ensures es[0] !in es[1..]
  {
  }

  // ---------- all rings ----------

  /** The rings hold the lists of edges, which are cycles, and are finished. */
  ghost predicate HoldCycles(rings: seq<EdgeRing>, lists: seq<seq<DirectedEdge>>, S: set<DirectedEdge>)
    reads rings`edges, rings`pts, rings`hasRing, rings`isHole, S`next
  {
    && |lists| == |rings| && (forall i :: 0 <= i < |rings| ==> Within(lists[i], S))
    && (forall i :: 0 <= i < |rings| ==> IsCycle(lists[i]))
    && (forall i :: 0 <= i < |rings| ==> rings[i].edges == lists[i] && rings[i].pts == RingPoints(lists[i]))
    && (forall i :: 0 <= i < |rings| ==> rings[i].RingComputed())
  }

  /** Each listed edge is marked with its ring; the others are not marked. */
  ghost predicate Marked(rings: seq<EdgeRing>, lists: seq<seq<DirectedEdge>>, marks: Marks) {
    && |lists| == |rings| && (forall i, j :: 0 <= i < j < |rings| ==> rings[i] != rings[j])
    && (forall i, e :: 0 <= i < |rings| && e in lists[i] ==> e in marks && marks[e] == rings[i])
    && (forall e :: e in marks && marks[e] != null ==> exists i :: 0 <= i < |rings| && e in lists[i])
  }

  /** The rings divide S among them: each is a cycle of edges of S, and each edge of S lies on one of them only,
      with which it is marked. */
  ghost predicate Partition(rings: seq<EdgeRing>, lists: seq<seq<DirectedEdge>>, S: set<DirectedEdge>)
    reads rings`edges, rings`pts, rings`hasRing, rings`isHole, S`next, S`edgeRing
  {
    && HoldCycles(rings, lists, S)
    && (forall i, e :: 0 <= i < |rings| && e in lists[i] && e in S ==> e.edgeRing == rings[i])
    && (forall e :: e in S ==> exists i :: 0 <= i < |rings| && e in lists[i])
    && (forall i, j :: 0 <= i < j < |rings| ==> rings[i] != rings[j])
  }

  lemma NewRingIsDisjoint(rings: seq<EdgeRing>, lists: seq<seq<DirectedEdge>>, S: set<DirectedEdge>, es: seq<DirectedEdge>)
    requires Permutes(S) && HoldCycles(rings, lists, S) && IsCycle(es) && Within(es, S)
    requires |lists| == |rings| && forall i :: 0 <= i < |lists| ==> es[0] !in lists[i]
    ensures forall i, e :: 0 <= i < |lists| && e in es ==> e !in lists[i]
  {
    forall i, e | 0 <= i < |lists| && e in es
      ensures e !in lists[i]
    {
      var k :| 0 <= k < |es| && es[k] == e;
      if e in lists[i] {
        CyclesMeet(es, lists[i], S, k);
      }
    }
  }

  lemma MarkedPush(rings: seq<EdgeRing>, lists: seq<seq<DirectedEdge>>, marks: Marks, er: EdgeRing, es: seq<DirectedEdge>)
    requires Marked(rings, lists, marks) && er !in rings && forall e :: e in es ==> e in marks
    requires forall i, e :: 0 <= i < |lists| && e in es ==> e !in lists[i]
    ensures Marked(rings + [er], lists + [es], Remarked(marks, es, er))
  {
    var now := Remarked(marks, es, er);
    forall e | e in now && now[e] != null
      ensures exists i :: 0 <= i < |rings| + 1 && e in (lists + [es])[i]
    {
      if e in es {
        assert e in (lists + [es])[|rings|];
      } else {
        var i :| 0 <= i < |rings| && e in lists[i];
        assert e in (lists + [es])[i];
      }
    }
  }

  lemma UnmarkedIsNew(rings: seq<EdgeRing>, lists: seq<seq<DirectedEdge>>, marks: Marks, e: DirectedEdge)
    requires Marked(rings, lists, marks) && e in marks && marks[e] == null
    ensures |lists| == |rings| && forall i :: 0 <= i < |lists| ==> e !in lists[i]
  {
  }

  lemma WithinKeys(es: seq<DirectedEdge>, S: set<DirectedEdge>, marks: Marks)
    requires Within(es, S) && S == marks.Keys
    ensures forall e :: e in es ==> e in marks
  {
  }

  lemma PermutesCloses(S: set<DirectedEdge>)
    requires Permutes(S)
    ensures ClosedUnderNext(S)
  {
  }

  lemma HoldCyclesPush(rings: seq<EdgeRing>, lists: seq<seq<DirectedEdge>>, S: set<DirectedEdge>, er: EdgeRing)
    requires HoldCycles(rings, lists, S) && Within(er.edges, S) && IsCycle(er.edges) && er.pts == RingPoints(er.edges)
    requires er.RingComputed()
    ensures HoldCycles(rings + [er], lists + [er.edges], S)
  {
    hide Within, IsCycle, RingPoints;
  }

  /** Adds the ring through an edge that has none yet; if the links permute the edges, this fails only if the points
      of a cycle make no linear ring. */
  method AddRing(de: DirectedEdge, rings: seq<EdgeRing>, ghost lists: seq<seq<DirectedEdge>>, ghost V: set<DirectedEdge>,
                 ghost marks: Marks) returns (ok: bool, er: EdgeRing)
    requires ClosedUnderNext(V) && HoldCycles(rings, lists, V) && MarksAre(V, marks)
    requires Permutes(V) ==> Marked(rings, lists, marks)
    requires de in V && de.edgeRing == null
    modifies V`edgeRing
    ensures fresh(er) && er.edges != [] && er.edges[0] == de && MarksAre(V, Remarked(marks, er.edges, er))
    ensures ok ==> HoldCycles(rings + [er], lists + [er.edges], V)
    ensures Permutes(V) ==> IsCycle(er.edges) && Within(er.edges, V) && ok == ValidRing(RingPoints(er.edges))
    ensures Permutes(V) ==> Marked(rings + [er], lists + [er.edges], Remarked(marks, er.edges, er))
  {
    hide RingPoints, IsTrail, Within, HoldCycles, Marked, IsCycle, Permutes, ClosedUnderNext, ValidRing;
    if Permutes(V) {
      UnmarkedIsNew(rings, lists, marks, de);
    }
    var outcome;
    outcome, er := NewMaximalEdgeRing(de, V, marks);
    ok := outcome == Traced;
    if ok {
      HoldCyclesPush(rings, lists, V, er);
    }
    if Permutes(V) {
      WithinKeys(er.edges, V, marks);
      NewRingIsDisjoint(rings, lists, V, er.edges);
      MarkedPush(rings, lists, marks, er, er.edges);
    }
  }

  /** The lists have no edge in common, and hold all of S. */
  ghost predicate DisjointCover(lists: seq<seq<DirectedEdge>>, S: set<DirectedEdge>) {
    && (forall i, j, e :: 0 <= i < j < |lists| && e in lists[i] ==> e !in lists[j])
    && (forall e :: e in S ==> exists i :: 0 <= i < |lists| && e in lists[i])
  }

  /** The list is a cycle of edges of V, from an edge of S, whose points make no linear ring. */
  ghost predicate IsBad(bad: seq<DirectedEdge>, S: set<DirectedEdge>, V: set<DirectedEdge>)
    reads bad`next
  {
    IsCycle(bad) && Within(bad, V) && bad[0] in S && !ValidRing(RingPoints(bad))
  }

  /** buildMaximalEdgeRings: makes a ring from each area edge of the result, S, that is on none yet; fails if a ring
      cannot be made. If the links permute S, or all edges U, it fails only at a cycle whose points make no linear
      ring, and otherwise the rings are disjoint cycles that hold all of S. If moreover the links join at the nodes,
      it fails exactly if some edge of S lies on a short ring. */
  method BuildMaximalEdgeRings(dirEdges: seq<DirectedEdge>, ghost S: set<DirectedEdge>, ghost U: set<DirectedEdge>)
      returns (ok: bool, rings: seq<EdgeRing>, ghost lists: seq<seq<DirectedEdge>>, ghost bad: seq<DirectedEdge>)
    requires S == (set e | e in dirEdges && e.isInResult && e.IsArea())
    requires S <= U && ClosedUnderNext(U) && forall e :: e in U ==> e.edgeRing == null
    modifies U`edgeRing
    ensures ok ==> HoldCycles(rings, lists, U) && forall e :: e in S ==> e.edgeRing != null
    ensures ok && (Permutes(S) || Permutes(U)) ==> DisjointCover(lists, S)
    ensures !ok && (Permutes(S) || Permutes(U)) ==> IsBad(bad, S, U)
    ensures ok && Permutes(S) ==> Partition(rings, lists, S)
    ensures (Permutes(S) && LinksJoin(S)) || (Permutes(U) && LinksJoin(U)) ==> (ok <==> forall e :: e in S ==> !OnShortRing(e))
  {
    hide Marked, Permutes, HoldCycles, IsBad, LinksJoin, OnShortRing, IsCycle, Within, DisjointCover, Partition, ValidRing,
         RingPoints;
    rings, lists, bad := [], [], [];
    ghost var V := if Permutes(S) then S else U;
    assert ClosedUnderNext(V) by {
      if Permutes(S) {
        PermutesCloses(S);
      }
    }
    if LinksJoin(U) {
      LinksJoinWithin(S, U);
    }
    assert (Permutes(S) && LinksJoin(S)) || (Permutes(U) && LinksJoin(U)) ==> Permutes(V) && LinksJoin(V);
    ghost var marks: Marks := map e | e in V :: e.edgeRing;
    NoRings(V, marks);
    var i := 0;
    while i < |dirEdges|
      invariant 0 <= i <= |dirEdges|
      invariant HoldCycles(rings, lists, V) && MarksAre(V, marks)
      invariant Permutes(V) ==> Marked(rings, lists, marks)
      invariant forall k :: 0 <= k < i && dirEdges[k] in S ==> marks[dirEdges[k]] != null
      invariant fresh(rings)
    {
      var de := dirEdges[i];
      if de.isInResult && de.IsArea() {
        if de.edgeRing == null {
          var er;
          ok, er := AddRing(de, rings, lists, V, marks);
          if !ok {
            bad := er.edges;
            if Permutes(V) {
              BadRing(bad, S, V, U);
            }
            return;
          }
          marks := Remarked(marks, er.edges, er);
          rings, lists := rings + [er], lists + [er.edges];
        }
      }
      i := i + 1;
    }
    ok := true;
    HoldCyclesWider(rings, lists, V, U);
    if Permutes(S) {
      RingsDivide(rings, lists, S, marks);
    }
    if Permutes(V) {
      RingsDisjoint(rings, lists, marks, S);
      AllRingsLong(rings, lists, S, V);
    }
  }

  lemma LinksJoinWithin(S: set<DirectedEdge>, U: set<DirectedEdge>)
    requires S <= U && LinksJoin(U)
    ensures LinksJoin(S)
  {
  }

  lemma BadRing(bad: seq<DirectedEdge>, S: set<DirectedEdge>, V: set<DirectedEdge>, U: set<DirectedEdge>)
    requires IsCycle(bad) && Within(bad, V) && V <= U && bad[0] in S && !ValidRing(RingPoints(bad))
    ensures IsBad(bad, S, U) && bad[0] in S
    ensures LinksJoin(V) ==> OnShortRing(bad[0])
  {
    hide ValidRing, RingPoints, OnShortRing;
    if LinksJoin(V) {
      CycleIsValidIff(bad, V, bad[0]);
    }
  }

  lemma RingsDisjoint(rings: seq<EdgeRing>, lists: seq<seq<DirectedEdge>>, marks: Marks, S: set<DirectedEdge>)
    requires Marked(rings, lists, marks) && forall e :: e in S ==> e in marks && marks[e] != null
    ensures DisjointCover(lists, S)
  {
    forall i, j, e | 0 <= i < j < |lists| && e in lists[i]
      ensures e !in lists[j]
    {
      assert marks[e] == rings[i] && rings[i] != rings[j];
    }
    forall e | e in S
      ensures exists i :: 0 <= i < |lists| && e in lists[i]
    {
      assert e in marks && marks[e] != null;
    }
  }

  lemma AllRingsLong(rings: seq<EdgeRing>, lists: seq<seq<DirectedEdge>>, S: set<DirectedEdge>, V: set<DirectedEdge>)
    requires HoldCycles(rings, lists, V) && DisjointCover(lists, S)
    ensures LinksJoin(V) ==> forall e :: e in S ==> !OnShortRing(e)
  {
    hide ValidRing, RingPoints, OnShortRing, LinksJoin, IsCycle, Within;
    if LinksJoin(V) {
      forall e | e in S
        ensures !OnShortRing(e)
      {
        var i :| 0 <= i < |lists| && e in lists[i];
        assert rings[i].RingComputed();
        CycleIsValidIff(lists[i], V, e);
      }
    }
  }

  lemma HoldCyclesWider(rings: seq<EdgeRing>, lists: seq<seq<DirectedEdge>>, V: set<DirectedEdge>, U: set<DirectedEdge>)
    requires HoldCycles(rings, lists, V) && V <= U
    ensures HoldCycles(rings, lists, U)
  {
    hide IsCycle, RingPoints;
  }

  lemma NoRings(S: set<DirectedEdge>, marks: Marks)
    requires MarksAre(S, marks) && forall e :: e in S ==> marks[e] == null
    ensures HoldCycles([], [], S) && Marked([], [], marks)
  {
  }

  lemma RingsDivide(rings: seq<EdgeRing>, lists: seq<seq<DirectedEdge>>, S: set<DirectedEdge>, marks: Marks)
    requires HoldCycles(rings, lists, S) && Marked(rings, lists, marks) && MarksAre(S, marks)
    requires forall e :: e in S ==> marks[e] != null
    ensures Partition(rings, lists, S)
  {
  }

  // ---------- short rings ----------

  /** The links lead on from where the edges end. */
  ghost predicate LinksJoin(S: set<DirectedEdge>)
    reads S`next
  {
    forall e :: e in S && e.next != null ==> e.next.Origin() == e.Destination()
  }

  /** The edge leads back to itself at once over fewer than four points, or after one other edge and both are
      single segments. */
  ghost predicate OnShortRing(e: DirectedEdge)
    reads e`next, if e.next == null then {} else {e.next}`next
  {
    && e.next != null
    && if e.next == e then |e.edge.pts| < 4
       else e.next.next == e && |e.edge.pts| == 2 && |e.next.edge.pts| == 2
  }

  lemma {:induction false} RingPointsAtLeast(es: seq<DirectedEdge>)
    requires es != []
    ensures |RingPoints(es)| >= |es| + 1
    ensures |es| == 1 ==> |RingPoints(es)| == |es[0].edge.pts|
    ensures |es| == 2 ==> |RingPoints(es)| == |es[0].edge.pts| + |es[1].edge.pts| - 1
  {
    var front, last := es[..|es| - 1], es[|es| - 1];
    assert es == front + [last];
    RingPointsPush(front, last);
    if front == [] {
      NoRingPoints();
    } else {
      RingPointsAtLeast(front);
    }
  }

  lemma NoRingPoints()
    ensures RingPoints([]) == []
  {
  }

  /** In a cycle of joined edges every edge tells whether the points make a linear ring. */
  lemma CycleIsValidIff(es: seq<DirectedEdge>, V: set<DirectedEdge>, e: DirectedEdge)
    requires IsCycle(es) && Within(es, V) && LinksJoin(V) && e in es
    ensures ValidRing(RingPoints(es)) <==> !OnShortRing(e)
  {
    hide RingPoints, LinksJoin;
    RingPointsAtLeast(es);
    CycleLinksJoin(es, V);
    RingIsClosed((a, b) => 0, es);
    if |es| >= 3 {
      TwoStepsOn(es, e);
    }
  }

  lemma CycleLinksJoin(es: seq<DirectedEdge>, V: set<DirectedEdge>)
    requires Within(es, V) && LinksJoin(V)
    ensures forall e :: e in es && e.next != null ==> e.next.Origin() == e.Destination()
  {
  }

  /** In a longer cycle two steps lead neither to the start nor to one step's end. */
  lemma TwoStepsOn(es: seq<DirectedEdge>, e: DirectedEdge)
    requires IsCycle(es) && |es| >= 3 && e in es
    ensures e.next != null && e.next != e && e.next.next != e
  {
    var i :| 0 <= i < |es| && es[i] == e;
    var n := |es|;
    var j := if i + 1 < n then i + 1 else 0;
    assert e.next == es[j];
    assert es[j].next == es[if j + 1 < n then j + 1 else 0];
  }

  /** Distinct directions leave only one way to lie on a short ring: a single segment and its twin that lead to
      each other. */
  lemma OnShortRingIff(list: seq<DirectedEdge>, twin: TwinMap, e: DirectedEdge)
    requires Listed(list, twin) && DistinctDirections(list) && e in list && e.next in list && e.next.next != null
    requires LinksJoin({e, e.next})
    ensures e in twin && (OnShortRing(e) <==> |e.edge.pts| == 2 && e.next == twin[e] && twin[e].next == e)
  {
    hide DistinctDirections;
    assert e in twin && e.End().Proper() && RunsBack(e, twin[e]) && twin[e] in list;
    if OnShortRing(e) {
      if e.next == e {
        assert e.Origin() == e.Destination();
        assert e.End() == twin[e].End();
        SameEnd(list, e, twin[e]);
        assert false;
      } else {
        assert e.next.End() == twin[e].End();
        SameEnd(list, e.next, twin[e]);
      }
    }
  }

  lemma SameEnd(list: seq<DirectedEdge>, e: DirectedEdge, f: DirectedEdge)
    requires DistinctDirections(list) && e in list && f in list && e.End() == f.End()
    ensures e == f
  {
    var i :| 0 <= i < |list| && list[i] == e;
    var j :| 0 <= j < |list| && list[j] == f;
    assert e.Origin() == f.Origin() && Equivalent(EndLess, e, f) && Equivalent(EndLess, f, e);
  }

  ghost predicate LeadsBackAtOnce(twin: TwinMap, e: DirectedEdge)
    requires e in twin
    reads e`next, twin.Values`next
  {
    |e.edge.pts| == 2 && e.next == twin[e] && twin[e].next == e
  }

  /** After linkAllDirectedEdges with distinct directions, the links permute all directed edges and join at the nodes,
      and only single segments whose twins lead back at once lie on a short ring. */
  lemma LinkedRings(list: seq<DirectedEdge>, twin: TwinMap, S: set<Coordinate>)
    requires Listed(list, twin) && LinkedAt(list, twin, S) && Covers(list, S) && DroppedUnlinked(list, twin)
    requires DistinctDirections(list)
    ensures Permutes(set e | e in list) && LinksJoin(set e | e in list)
    ensures forall e :: e in list ==> e in twin && (OnShortRing(e) <==> LeadsBackAtOnce(twin, e))
  {
    hide LinkedAt, Covers, DroppedUnlinked, DistinctDirections, Listed;
    LinkingPermutes(list, twin, S);
    forall e | e in list
      ensures e in twin && (OnShortRing(e) <==> LeadsBackAtOnce(twin, e))
    {
      OnShortRingIff(list, twin, e);
    }
  }

  /** A lone segment is such an edge: its links are a permutation, but its ring of three points cannot be made. */
  lemma LoneSegment(e: DirectedEdge, f: DirectedEdge, twin: TwinMap, S: set<Coordinate>)
    requires e.edge.pts == [Coordinate(0, 0), Coordinate(1, 0)] && e.isForward
    requires Listed([e, f], twin) && LinkedAt([e, f], twin, S) && Covers([e, f], S) && e in twin && twin[e] == f
    ensures e.next == f && f.next == e && Permutes({e, f}) && IsCycle([e, f])
    ensures |RingPoints([e, f])| == 3 && OnShortRing(e)
  {
    hide Leaving, Insert;
    assert [e, f][0] == e && [e, f][1] == f && twin[f] == e && RunsBack(e, f);
    StarOfOne([e, f], e, f);
    StarOfOne([e, f], f, e);
    assert LinkedRound([e], twin) && LinkedRound([f], twin);
    RingPointsAtLeast([e, f]);
  }

  lemma StarOfOne(list: seq<DirectedEdge>, e: DirectedEdge, f: DirectedEdge)
    requires (list == [e, f] || list == [f, e]) && e.Origin() != f.Origin()
    ensures Leaving(list, e.Origin()) == [e]
  {
    hide Leaving;
    LeavingNone([], e.Origin());
    LeavingPush([], list[0], e.Origin());
    LeavingPush([list[0]], list[1], e.Origin());
    assert [] + [list[0]] == [list[0]] && [list[0]] + [list[1]] == list;
  }

  // ---------- the points of a ring ----------

  /** Each edge starts where the one before it ends. */
  ghost predicate Joined(es: seq<DirectedEdge>) {
    forall i :: 0 <= i < |es| - 1 ==> es[i].Destination() == es[i + 1].Origin()
  }

  /** The sum of f over the segments of all the edges. */
  ghost function EdgeSum(f: (Coordinate, Coordinate) -> int, es: seq<DirectedEdge>): int {
    if es == [] then 0 else EdgeSum(f, es[..|es| - 1]) + PathSum(f, es[|es| - 1].Along())
  }

  /** The points of a chain run from its origin to its destination, over exactly the segments of its edges. */
  lemma {:induction false} ChainPoints(f: (Coordinate, Coordinate) -> int, es: seq<DirectedEdge>)
    requires es != [] && Joined(es)
    ensures |RingPoints(es)| >= 2
    ensures RingPoints(es)[0] == es[0].Origin() && RingPoints(es)[|RingPoints(es)| - 1] == es[|es| - 1].Destination()
    ensures PathSum(f, RingPoints(es)) == EdgeSum(f, es)
  {
    hide *;
    var front, last := es[..|es| - 1], es[|es| - 1];
    AlongEnds(last);
    ChainLast(f, es);
    if front != [] {
      ChainPoints(f, front);
      JoinedEnds(RingPoints(front), last.Along());
      PathSumJoin(f, RingPoints(front), last.Along());
    }
  }

  lemma ChainLast(f: (Coordinate, Coordinate) -> int, es: seq<DirectedEdge>)
    requires es != [] && Joined(es)
    ensures var front, last := es[..|es| - 1], es[|es| - 1];
            && (front != [] ==> Joined(front) && front[0] == es[0] && front[|front| - 1].Destination() == last.Origin())
            && RingPoints(es) == (if front == [] then last.Along() else RingPoints(front) + last.Along()[1..])
            && EdgeSum(f, es) == (if front == [] then 0 else EdgeSum(f, front)) + PathSum(f, last.Along())
  {
    hide PathSum;
  }

  lemma JoinedEnds(a: seq<Coordinate>, b: seq<Coordinate>)
    requires |a| >= 2 && |b| >= 2
    ensures var joined := a + b[1..];
            |joined| >= 2 && joined[0] == a[0] && joined[|joined| - 1] == b[|b| - 1]
  {
  }

  lemma AlongEnds(e: DirectedEdge)
    ensures e.Along()[0] == e.Origin() && e.Along()[|e.edge.pts| - 1] == e.Destination()
  {
  }

  /** A ring whose links join at the nodes has a closed list of points, in which every segment of its edges counts
      exactly once, in the direction of travel. */
  lemma RingIsClosed(f: (Coordinate, Coordinate) -> int, es: seq<DirectedEdge>)
    requires IsCycle(es) && forall e :: e in es && e.next != null ==> e.next.Origin() == e.Destination()
    ensures IsClosed(RingPoints(es)) && PathSum(f, RingPoints(es)) == EdgeSum(f, es)
  {
    forall i | 0 <= i < |es| - 1
      ensures es[i].Destination() == es[i + 1].Origin()
    {
      assert es[i] in es && es[i].next == es[i + 1];
    }
    ChainPoints(f, es);
    assert es[|es| - 1] in es;
  }
}
