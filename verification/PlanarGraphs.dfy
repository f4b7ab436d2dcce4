/** The planar graph: its edges, their pairs of directed edges, and the star at each node. */
module PlanarGraphs {
  import opened Coordinates
  import opened EdgeEnds
  import opened GeomGraph
  import opened ResultLinks
  import opened Numbers
  import opened OrderedSets

  // ---------- the star as a function of the directed edges ----------

  /** The star that results from inserting, in order, the edges that leave c. */
  ghost function Leaving(list: seq<DirectedEdge>, c: Coordinate): (r: seq<DirectedEdge>)
    ensures forall e :: e in r ==> e in list && e.Origin() == c
  {
    if list == [] then []
    else
      var front, last := list[..|list| - 1], list[|list| - 1];
      if last.Origin() == c then Insert(EndLess, Leaving(front, c), last) else Leaving(front, c)
  }

  lemma LeavingPush(list: seq<DirectedEdge>, e: DirectedEdge, c: Coordinate)
    ensures Leaving(list + [e], c) == if e.Origin() == c then Insert(EndLess, Leaving(list, c), e) else Leaving(list, c)
  {
    assert (list + [e])[..|list|] == list;
  }

  lemma LeavingNone(list: seq<DirectedEdge>, c: Coordinate)
    requires forall e :: e in list ==> e.Origin() != c
    ensures Leaving(list, c) == []
  {
  }

  ghost predicate Proper(list: seq<DirectedEdge>) {
    forall e :: e in list ==> e.End().Proper()
  }

  /** The star is in strict counter-clockwise order. */
  lemma {:induction false} LeavingSorted(list: seq<DirectedEdge>, c: Coordinate)
    requires Proper(list)
    ensures Sorted(EndLess, Leaving(list, c)) && AnglesAscend(Leaving(list, c))
    ensures forall i, j :: 0 <= i < j < |Leaving(list, c)| ==> Leaving(list, c)[i] != Leaving(list, c)[j]
  {
    if list != [] {
      var front, last := list[..|list| - 1], list[|list| - 1];
      LeavingSorted(front, c);
      if last.Origin() == c {
        DirectionsAreOrdered(Elements(Leaving(front, c)) + {last}, c);
        InsertKeepsSorted(EndLess, Leaving(front, c), last);
      }
    }
    SortedIsAscending(Leaving(list, c));
    DirectionsAreOrdered(Elements(Leaving(list, c)), c);
    forall i, j | 0 <= i < j < |Leaving(list, c)|
      ensures Leaving(list, c)[i] != Leaving(list, c)[j]
    {
      assert EndLess(Leaving(list, c)[i], Leaving(list, c)[j]);
      assert Leaving(list, c)[i] in Elements(Leaving(list, c));
    }
  }

  /** No two directed edges leave the same node in the same direction. */
  ghost predicate DistinctDirections(list: seq<DirectedEdge>) {
    forall i, j :: 0 <= i < j < |list| && list[i].Origin() == list[j].Origin() ==> !Equivalent(EndLess, list[i], list[j])
  }

  /** Then the stars hold every directed edge. */
  lemma {:induction false} LeavingHoldsAll(list: seq<DirectedEdge>, e: DirectedEdge)
    requires Proper(list) && DistinctDirections(list) && e in list
    ensures e in Leaving(list, e.Origin())
  {
    var front, last := list[..|list| - 1], list[|list| - 1];
    var c := e.Origin();
    if e in front {
      LeavingHoldsAll(front, e);
    }
    if last.Origin() == c {
      forall y | y in Leaving(front, c)
        ensures !Equivalent(EndLess, last, y)
      {
        var i :| 0 <= i < |front| && front[i] == y;
        assert !Equivalent(EndLess, list[i], list[|list| - 1]);
      }
    }
  }

  /** Of two edges in the same direction a star holds at most one. */
  lemma LeavingDropsEquals(list: seq<DirectedEdge>, e: DirectedEdge, f: DirectedEdge)
    requires Proper(list) && e in list && f in list && e != f && e.Origin() == f.Origin() && Equivalent(EndLess, e, f)
    ensures e !in Leaving(list, e.Origin()) || f !in Leaving(list, e.Origin())
  {
    LeavingSorted(list, e.Origin());
  }

  // ---------- pairs of directed edges ----------

  /** The map joins each directed edge with another one, that runs the other way along the same edge. */
  ghost predicate Pairing(list: seq<DirectedEdge>, twin: TwinMap) {
    && (forall i :: 0 <= i < |list| ==> list[i] in twin)
    && (forall e :: e in twin ==> e in list && twin[e] in twin && twin[twin[e]] == e && RunsBack(e, twin[e]))
  }

  ghost predicate RunsBack(e: DirectedEdge, f: DirectedEdge) {
    e.edge == f.edge && e.isForward != f.isForward
  }

  ghost predicate SymsAre(list: seq<DirectedEdge>, twin: TwinMap)
    reads list`sym
  {
    forall i :: 0 <= i < |list| ==> list[i] in twin && list[i].sym == twin[list[i]]
  }

  ghost predicate NoRepeats(list: seq<DirectedEdge>) {
    forall i, j :: 0 <= i < j < |list| ==> list[i] != list[j]
  }

  /** The edge's first or last segment has no direction. */
  predicate Degenerate(e: Edge) {
    e.pts[0] == e.pts[1] || e.pts[|e.pts| - 1] == e.pts[|e.pts| - 2]
  }

  predicate NoneDegenerate(edges: seq<Edge>, n: nat)
    requires n <= |edges|
  {
    forall k :: 0 <= k < n ==> !Degenerate(edges[k])
  }

  /** The directed edges are distinct, have directions, and come in pairs. */
  ghost predicate Listed(list: seq<DirectedEdge>, twin: TwinMap) {
    NoRepeats(list) && Proper(list) && Pairing(list, twin)
  }

  class PlanarGraph {
    var edges: seq<Edge>
    var edgeEndList: seq<DirectedEdge>
    var nodes: map<Coordinate, DirectedEdgeStar>
    ghost var stars: set<DirectedEdgeStar>
    ghost var twin: TwinMap

    /** There is one node for each origin, and its star holds the edges inserted there. */
    ghost predicate StarsHold()
      reads this`edgeEndList, this`nodes, this`stars, stars`edges
    {
      && (forall c :: c in nodes ==> nodes[c] in stars)
      && (forall e :: e in edgeEndList ==> e.Origin() in nodes)
      && (forall c :: c in nodes ==> nodes[c].edges == Leaving(edgeEndList, c) && nodes[c].edges != [])
      && (forall c, d :: c in nodes && d in nodes && nodes[c] == nodes[d] ==> c == d)
    }

    ghost predicate Valid()
      reads this`edgeEndList, this`nodes, this`stars, this`twin, stars`edges, edgeEndList`sym
    {
      StarsHold() && SymsAre(edgeEndList, twin) && Listed(edgeEndList, twin)
    }

    constructor ()
      ensures Valid() && edges == [] && edgeEndList == [] && nodes == map[] && stars == {} && twin == map[]
    {
      edges, edgeEndList, nodes, stars, twin := [], [], map[], {}, map[];
    }

    /** Records the directed edge and inserts it in the star of its node, which is created if there is none. */
    method Add(de: DirectedEdge)
      requires StarsHold()
      modifies this`edgeEndList, this`nodes, this`stars, stars`edges
      ensures StarsHold() && edgeEndList == old(edgeEndList) + [de]
      ensures fresh(stars - old(stars))
    {
      hide Leaving, Insert;
      var c := de.Origin();
      var list := edgeEndList + [de];
      AddNode(c);
      if c !in old(nodes) {
        LeavingNone(edgeEndList, c);
      }
      nodes[c].Insert(de);
      edgeEndList := list;
      forall d | d in nodes
        ensures nodes[d].edges == Leaving(list, d) && nodes[d].edges != []
      {
        LeavingPush(old(edgeEndList), de, d);
        assert d != c ==> nodes[d] != nodes[c];
      }
    }

    /** Finds or creates the node at c. */
    method AddNode(c: Coordinate)
      requires StarsHold()
      modifies this`nodes, this`stars
      ensures fresh(stars - old(stars)) && old(stars) <= stars && forall d :: d in nodes ==> nodes[d] in stars
      ensures c in nodes && nodes.Keys == old(nodes.Keys) + {c}
      ensures forall d :: d in old(nodes) ==> nodes[d] == old(nodes)[d]
      ensures forall d, e :: d in nodes && e in nodes && nodes[d] == nodes[e] ==> d == e
      ensures c !in old(nodes) ==> fresh(nodes[c]) && nodes[c].edges == []
    {
      if c !in nodes {
        var star := new DirectedEdgeStar();
        nodes := nodes[c := star];
        stars := stars + {star};
      }
    }

    /** Adds the edges and their pairs of directed edges; fails at the first edge without direction at an end. */
    method AddEdges(edgesToAdd: seq<Edge>) returns (ok: bool, ghost added: seq<DirectedEdge>)
      requires Valid()
      modifies this, stars`edges
      ensures Valid() && edgeEndList == old(edgeEndList) + added && AllNew(added)
      ensures ok <==> NoneDegenerate(edgesToAdd, |edgesToAdd|)
      ensures ok ==> edges == old(edges) + edgesToAdd && PairsOf(added, edgesToAdd)
    {
      hide Leaving;
      var i := 0;
      added := [];
      while i < |edgesToAdd|
        invariant 0 <= i <= |edgesToAdd| && edges == old(edges) + edgesToAdd[..i]
        invariant Adding(old(edgeEndList), added, edgesToAdd, i)
        invariant NoneDegenerate(edgesToAdd, i)
        invariant fresh(stars - old(stars))
      {
        PrefixPush(old(edges), edgesToAdd, i);
        edges := edges + [edgesToAdd[i]];
        ok, added := AddPair(old(edgeEndList), added, edgesToAdd, i);
        if !ok {
          assert !NoneDegenerate(edgesToAdd, |edgesToAdd|);
          return;
        }
        i := i + 1;
      }
      assert edgesToAdd[..i] == edgesToAdd;
      ok := true;
    }

    /** The pairs of the first i edges have been added. */
    ghost predicate Adding(before: seq<DirectedEdge>, added: seq<DirectedEdge>, edgesToAdd: seq<Edge>, i: int)
      reads this`edgeEndList, this`nodes, this`stars, this`twin, stars`edges, edgeEndList`sym,
            added`next, added`nextMin, added`edgeRing, added`isInResult
    {
      && StarsHold() && SymsAre(edgeEndList, twin) && AllNew(added)
      && ListedWith(edgeEndList, twin, before, added, edgesToAdd, i)
    }

    // ---------- linking ----------

    /** linkAllDirectedEdges. */
    method LinkAllDirectedEdges()
      requires Valid()
      modifies twin.Values`next
      ensures Valid() && LinkedAt(edgeEndList, twin, nodes.Keys)
      ensures old(DroppedUnlinked(edgeEndList, twin)) ==> DroppedUnlinked(edgeEndList, twin)
      ensures forall c, f :: c in nodes && f in nodes[c].edges ==> f in twin && LeadsOnCCW(edgeEndList, twin, twin[f])
    {
      hide Leaving, Listed, SymsAre, LinkedAt, LeadsOnCCW, DroppedUnlinked;
      LinkedNowhere(edgeEndList, twin);
      var rest := nodes.Keys;
      assert nodes.Keys - rest == {};
      while rest != {}
        invariant rest <= nodes.Keys && Valid()
        invariant LinkedAt(edgeEndList, twin, nodes.Keys - rest)
        invariant old(DroppedUnlinked(edgeEndList, twin)) ==> DroppedUnlinked(edgeEndList, twin)
      {
        var c :| c in rest;
        LinkNode(c, nodes.Keys - rest);
        assert nodes.Keys - (rest - {c}) == nodes.Keys - rest + {c};
        rest := rest - {c};
      }
      assert nodes.Keys - rest == nodes.Keys;
      AllHeldLeadOn(edgeEndList, twin, nodes);
    }

    method LinkNode(c: Coordinate, ghost done: set<Coordinate>)
      requires Valid() && c in nodes && c !in done && LinkedAt(edgeEndList, twin, done)
      modifies twin.Values`next
      ensures Valid() && LinkedAt(edgeEndList, twin, done + {c})
      ensures old(DroppedUnlinked(edgeEndList, twin)) ==> DroppedUnlinked(edgeEndList, twin)
    {
      hide Leaving, Listed, SymsAre, Twinned, LinkedAt, DroppedUnlinked;
      StarTwinned(edgeEndList, twin, c);
      LinkStar(nodes[c], c, edgeEndList, twin, done);
    }

    /** A star that has listed its result area edges before would list the same now. */
    ghost predicate AllUpToDate(result: set<DirectedEdge>)
      reads this`nodes, this`stars, this`twin, stars`edges, stars`resultAreaEdges
    {
      forall c :: c in nodes && nodes[c] in stars ==> UpToDate(nodes[c], twin, result)
    }

    /** linkResultDirectedEdges: fails if the linking around some node does. */
    method LinkResultDirectedEdges(ghost result: set<DirectedEdge>, ghost area: set<DirectedEdge>) returns (ok: bool)
      requires Valid() && Selected(edgeEndList, result, area)
      requires AllUpToDate(result)
      modifies stars`resultAreaEdges, twin.Values`next
      ensures Valid()
      ensures ok ==> forall c :: c in nodes ==> ResultLinkedAround(edgeEndList, twin, result, area, c)
      ensures ok <==> forall c :: c in nodes ==> !Stuck(EndsAround(edgeEndList, twin, result, area, c))
    {
      hide Leaving, Listed, ResultLinkedAround, EndsAround, Stuck, AllUpToDate;
      var rest := nodes.Keys;
      while rest != {}
        invariant rest <= nodes.Keys && Valid() && Selected(edgeEndList, result, area)
        invariant AllUpToDate(result)
        invariant forall c :: c in nodes.Keys - rest ==> ResultLinkedAround(edgeEndList, twin, result, area, c)
        invariant forall c :: c in nodes.Keys - rest ==> !Stuck(EndsAround(edgeEndList, twin, result, area, c))
      {
        var c :| c in rest;
        ok := LinkResultNode(c, nodes[c], nodes.Keys - rest, result, area);
        if !ok {
          return;
        }
        rest := rest - {c};
      }
      ok := true;
    }

    method LinkResultNode(c: Coordinate, star: DirectedEdgeStar, ghost done: set<Coordinate>, ghost result: set<DirectedEdge>,
                          ghost area: set<DirectedEdge>) returns (ok: bool)
      requires Valid() && Selected(edgeEndList, result, area)
      requires c in nodes && star == nodes[c] && c !in done && AllUpToDate(result)
      requires forall d :: d in done ==> ResultLinkedAround(edgeEndList, twin, result, area, d)
      modifies star`resultAreaEdges, twin.Values`next
      ensures Valid() && Selected(edgeEndList, result, area) && AllUpToDate(result)
      ensures ok == !Stuck(EndsAround(edgeEndList, twin, result, area, c))
      ensures ok ==> forall d :: d in done + {c} ==> ResultLinkedAround(edgeEndList, twin, result, area, d)
    {
      hide Leaving, Listed, SymsAre, Keep, Stuck, Links, EndsAre, ResultEdges, ResultEnds;
      StarTwinned(edgeEndList, twin, c);
      SelectedStar(edgeEndList, twin, result, area, c);
      KeepTwinned(star.edges, ResultSet(star.edges, twin), twin);
      ghost var es, ends;
      ok, es, ends := star.LinkResultDirectedEdges(twin);
      SelectedStar(edgeEndList, twin, result, area, c);
      EndsUnique(es, twin, ends, EndsAround(edgeEndList, twin, result, area, c));
      forall d | d in done
        ensures ResultLinkedAround(edgeEndList, twin, result, area, d)
      {
        ghost var others := ResultEdges(edgeEndList, twin, result, area, d);
        assert old(ResultLinkedAround(edgeEndList, twin, result, area, d));
        forall i | 0 <= i < |others|
          ensures others[i] !in star.edges
        {
          assert others[i] in others;
        }
      }
    }

    method AddBoth(de1: DirectedEdge, de2: DirectedEdge, ghost list: seq<DirectedEdge>, ghost pairs: TwinMap,
                   ghost added: seq<DirectedEdge>)
      requires StarsHold() && list == edgeEndList + [de1, de2] && SymsAre(list, pairs) && AllNew(added)
      modifies this`edgeEndList, this`nodes, this`stars, stars`edges
      ensures StarsHold() && edgeEndList == list && SymsAre(list, pairs) && AllNew(added)
      ensures fresh(stars - old(stars))
    {
      hide Leaving;
      Add(de1);
      Add(de2);
    }

    /** The next edge's directed edges, forward and backward, each the other's twin. */
    method AddPair(ghost before: seq<DirectedEdge>, ghost added: seq<DirectedEdge>, edgesToAdd: seq<Edge>, i: nat)
        returns (ok: bool, ghost addedNow: seq<DirectedEdge>)
      requires i < |edgesToAdd| && Adding(before, added, edgesToAdd, i)
      modifies this`edgeEndList, this`nodes, this`stars, this`twin, stars`edges
      ensures fresh(stars - old(stars)) && ok == !Degenerate(edgesToAdd[i])
      ensures Adding(before, addedNow, edgesToAdd, if ok then i + 1 else i)
    {
      hide Leaving, ListedWith, AllNew, SymsAre;
      addedNow := added;
      if Degenerate(edgesToAdd[i]) {
        return false, added;
      }
      var de1, de2 := NewPair(edgeEndList, twin, before, added, edgesToAdd, i);
      addedNow := added + [de1, de2];
      twin := twin[de1 := de2][de2 := de1];
      AddBoth(de1, de2, edgeEndList + [de1, de2], twin, addedNow);
      return true, addedNow;
    }
  }

  /** At the nodes in S, each edge's twin leads on to the edge after it, counter-clockwise. */
  ghost predicate LinkedAt(list: seq<DirectedEdge>, twin: TwinMap, S: set<Coordinate>)
    reads twin.Values`next
  {
    forall c :: c in S ==> LinkedRound(Leaving(list, c), twin)
  }

  lemma LinkedNowhere(list: seq<DirectedEdge>, twin: TwinMap)
    ensures LinkedAt(list, twin, {})
  {
  }

  /** Twins of edges that no star holds lead nowhere. */
  ghost predicate DroppedUnlinked(list: seq<DirectedEdge>, twin: TwinMap)
    reads twin.Values`next
  {
    forall e :: e in twin && e !in Leaving(list, e.Origin()) ==> twin[e].next == null
  }

  /** If the star has listed its result area edges before, it would list the same now. */
  ghost predicate UpToDate(star: DirectedEdgeStar, twin: TwinMap, result: set<DirectedEdge>)
    reads star`edges, star`resultAreaEdges
  {
    star.resultAreaEdges.Computed? ==> star.resultAreaEdges == Computed(Keep(star.edges, EitherWay(twin, result)))
  }

  lemma LeavingDisjoint(list: seq<DirectedEdge>, c: Coordinate, d: Coordinate)
    requires c != d
    ensures forall e :: e in Leaving(list, c) ==> e !in Leaving(list, d)
  {
  }

  lemma StarTwinned(list: seq<DirectedEdge>, twin: TwinMap, c: Coordinate)
    requires Listed(list, twin) && SymsAre(list, twin)
    ensures Twinned(Leaving(list, c), twin)
  {
    hide Leaving, Insert;
    LeavingSorted(list, c);
    forall i | 0 <= i < |Leaving(list, c)|
      ensures Leaving(list, c)[i] in twin && Leaving(list, c)[i].sym == twin[Leaving(list, c)[i]]
    {
      assert Leaving(list, c)[i] in list;
    }
    forall e, f | e in twin && f in twin && twin[e] == twin[f]
      ensures e == f
    {
      assert twin[twin[e]] == e && twin[twin[f]] == f;
    }
  }

  ghost predicate LinkedRound(es: seq<DirectedEdge>, twin: TwinMap)
    reads twin.Values`next
  {
    forall i :: 0 <= i < |es| ==> es[i] in twin && twin[es[i]].next == es[After(i, |es|)]
  }

  /** Links the star of node c round, which leaves the links around other nodes as they are. */
  method LinkStar(star: DirectedEdgeStar, c: Coordinate, ghost list: seq<DirectedEdge>, ghost twin: TwinMap, ghost done: set<Coordinate>)
    requires star.edges == Leaving(list, c) != [] && Twinned(star.edges, twin) && c !in done && LinkedAt(list, twin, done)
    modifies twin.Values`next
    ensures LinkedAt(list, twin, done + {c})
    ensures old(DroppedUnlinked(list, twin)) ==> DroppedUnlinked(list, twin)
  {
    hide Leaving, Twinned, AnglesAscend, StrictlyBetween;
    star.LinkAllDirectedEdges(twin);
    forall d | d in done
      ensures LinkedRound(Leaving(list, d), twin)
    {
      LeavingDisjoint(list, c, d);
    }
    HaveTwins(star.edges, twin);
    HeldAtOrigin(list, c);
  }

  lemma HaveTwins(es: seq<DirectedEdge>, twin: TwinMap)
    requires Twinned(es, twin)
    ensures forall i :: 0 <= i < |es| ==> es[i] in twin
  {
  }

  lemma HeldAtOrigin(list: seq<DirectedEdge>, c: Coordinate)
    ensures forall e :: e in Leaving(list, c) ==> e.Origin() == c
  {
  }

  /** Two directed edges along e, each the other's twin. */
  method NewTwins(e: Edge, ghost list: seq<DirectedEdge>, ghost twin: TwinMap, ghost added: seq<DirectedEdge>)
      returns (de1: DirectedEdge, de2: DirectedEdge)
    requires SymsAre(list, twin) && AllNew(added)
    ensures SymsAre(list, twin) && AllNew(added)
    ensures de1 !in list && de2 !in list && IsNew(de1) && IsNew(de2)
    ensures de1.sym == de2 && de2.sym == de1 && IsPairOf(de1, de2, e)
  {
    de1 := new DirectedEdge(e, true);
    de2 := new DirectedEdge(e, false);
    assert de1 !in list && de2 !in list && de1 !in added && de2 !in added;
    de1.sym := de2;
    de2.sym := de1;
  }

  method NewPair(ghost list: seq<DirectedEdge>, ghost twin: TwinMap, ghost before: seq<DirectedEdge>,
                 ghost added: seq<DirectedEdge>, edges: seq<Edge>, i: nat) returns (de1: DirectedEdge, de2: DirectedEdge)
    requires i < |edges| && !Degenerate(edges[i]) && AllNew(added)
    requires SymsAre(list, twin) && ListedWith(list, twin, before, added, edges, i)
    ensures AllNew(added + [de1, de2]) && SymsAre(list + [de1, de2], twin[de1 := de2][de2 := de1])
    ensures ListedWith(list + [de1, de2], twin[de1 := de2][de2 := de1], before, added + [de1, de2], edges, i + 1)
  {
    de1, de2 := NewTwins(edges[i], list, twin, added);
    PairedPush(list, twin, de1, de2);
    PairsPush(before, added, edges, i, de1, de2);
  }

  /** A list and its pairing, after the directed edges of the first i edges were added. */
  ghost predicate ListedWith(list: seq<DirectedEdge>, twin: TwinMap, before: seq<DirectedEdge>,
                             added: seq<DirectedEdge>, edges: seq<Edge>, i: int)
  {
    Listed(list, twin) && list == before + added && 0 <= i <= |edges| && PairsOf(added, edges[..i])
  }

  /** Not linked, not on any ring, and without depths. */
  ghost predicate IsNew(e: DirectedEdge)
    reads e`next, e`nextMin, e`edgeRing, e`isInResult
  {
    e.next == null && e.nextMin == null && e.edgeRing == null && !e.isInResult
  }

  ghost predicate IsPairOf(forward: DirectedEdge, backward: DirectedEdge, e: Edge) {
    forward.edge == e && backward.edge == e && forward.isForward && !backward.isForward
  }

  ghost predicate PairsOf(list: seq<DirectedEdge>, edges: seq<Edge>) {
    |list| == 2 * |edges| && forall i :: 0 <= i < |edges| ==> IsPairOf(list[2 * i], list[2 * i + 1], edges[i])
  }

  ghost predicate AllNew(list: seq<DirectedEdge>)
    reads list`next, list`nextMin, list`edgeRing, list`isInResult
  {
    forall i :: 0 <= i < |list| ==> IsNew(list[i])
  }

  lemma PairsPush(before: seq<DirectedEdge>, list: seq<DirectedEdge>, edges: seq<Edge>, i: nat, de1: DirectedEdge,
                  de2: DirectedEdge)
    requires i < |edges| && PairsOf(list, edges[..i]) && IsPairOf(de1, de2, edges[i])
    requires AllNew(list) && IsNew(de1) && IsNew(de2)
    ensures PairsOf(list + [de1, de2], edges[..i + 1]) && AllNew(list + [de1, de2])
    ensures (before + list) + [de1, de2] == before + (list + [de1, de2])
  {
  }

  lemma PrefixPush(base: seq<Edge>, s: seq<Edge>, i: nat)
    requires i < |s|
    ensures (base + s[..i]) + [s[i]] == base + s[..i + 1]
    ensures NoneDegenerate(s, i + 1) == (NoneDegenerate(s, i) && !Degenerate(s[i]))
  {
  }

  lemma PairedPush(list: seq<DirectedEdge>, twin: TwinMap, de1: DirectedEdge, de2: DirectedEdge)
    requires SymsAre(list, twin) && Listed(list, twin)
    requires de1 !in list && de2 !in list && de1.sym == de2 && de2.sym == de1
    requires de1.edge == de2.edge && !Degenerate(de1.edge) && de1.isForward && !de2.isForward
    ensures var now, pairs := list + [de1, de2], twin[de1 := de2][de2 := de1];
            SymsAre(now, pairs) && Listed(now, pairs)
  {
  }

  // ---------- linking permutes the directed edges ----------

  ghost predicate Covers(list: seq<DirectedEdge>, S: set<Coordinate>) {
    forall e :: e in list ==> e.Origin() in S
  }

  lemma RunsBackEnds(e: DirectedEdge, f: DirectedEdge)
    requires RunsBack(e, f)
    ensures f.Origin() == e.Destination() && f.Destination() == e.Origin()
  {
  }

  /** The edge that e leads on to: the one after its twin in the star at the twin's origin. */
  lemma NextOfLinked(list: seq<DirectedEdge>, twin: TwinMap, S: set<Coordinate>, e: DirectedEdge) returns (i: nat)
    requires Listed(list, twin) && LinkedAt(list, twin, S) && Covers(list, S)
    requires e in twin && twin[e] in Leaving(list, twin[e].Origin())
    ensures var star := Leaving(list, e.Destination());
            i < |star| && star[i] == twin[e] && e.next == star[After(i, |star|)]
    ensures e.next in list && e.next.Origin() == e.Destination()
  {
    hide Leaving, Insert, Listed;
    var f := twin[e];
    TwinOfTwin(list, twin, e);
    var star := Leaving(list, e.Destination());
    i :| 0 <= i < |star| && star[i] == f;
    assert LinkedRound(star, twin);
    assert star[After(i, |star|)] in star;
  }

  /** Twins lead to different edges. */
  lemma NextIsInjective(list: seq<DirectedEdge>, twin: TwinMap, S: set<Coordinate>, e: DirectedEdge, f: DirectedEdge)
    requires Listed(list, twin) && LinkedAt(list, twin, S) && Covers(list, S)
    requires e in twin && twin[e] in Leaving(list, twin[e].Origin())
    requires f in twin && twin[f] in Leaving(list, twin[f].Origin())
    requires e.next == f.next
    ensures e == f
  {
    hide *;
    var i := NextOfLinked(list, twin, S, e);
    var j := NextOfLinked(list, twin, S, f);
    LeavingDistinct(list, twin, e.Destination());
    AfterInjective(Leaving(list, e.Destination()), i, j);
    TwinOfTwin(list, twin, e);
    TwinOfTwin(list, twin, f);
  }

  lemma LeavingDistinct(list: seq<DirectedEdge>, twin: TwinMap, c: Coordinate)
    requires Listed(list, twin)
    ensures AllDistinct(Leaving(list, c))
  {
    hide Leaving, Proper, Pairing;
    LeavingSorted(list, c);
  }

  lemma AfterInjective(es: seq<DirectedEdge>, i: nat, j: nat)
    requires i < |es| && j < |es| && AllDistinct(es) && es[After(i, |es|)] == es[After(j, |es|)]
    ensures i == j
  {
  }

  lemma TwinOfTwin(list: seq<DirectedEdge>, twin: TwinMap, e: DirectedEdge)
    requires Listed(list, twin) && e in twin
    ensures twin[e] in twin && twin[twin[e]] == e && twin[e] in list
    ensures twin[e].Origin() == e.Destination() && twin[e].Destination() == e.Origin()
  {
    RunsBackEnds(e, twin[e]);
  }

  /** The link of e leads on from where e ends, and turning counter-clockwise from e's twin to it one meets no other
      edge that leaves there. */
  ghost predicate LeadsOnCCW(list: seq<DirectedEdge>, twin: TwinMap, e: DirectedEdge)
    reads e`next
  {
    && e in twin && e.next != null && e.next in list && e.next.Origin() == e.Destination() == twin[e].Origin()
    && forall g :: g in list && g.Origin() == e.Destination() ==> !StrictlyBetween(twin[e].End(), g.End(), e.next.End())
  }

  lemma AllHeldLeadOn(list: seq<DirectedEdge>, twin: TwinMap, nodes: map<Coordinate, DirectedEdgeStar>)
    requires Listed(list, twin) && LinkedAt(list, twin, nodes.Keys) && Covers(list, nodes.Keys)
    requires forall c :: c in nodes ==> nodes[c].edges == Leaving(list, c)
    ensures forall c, f :: c in nodes && f in nodes[c].edges ==> f in twin && LeadsOnCCW(list, twin, twin[f])
  {
    hide *;
    forall c, f | c in nodes && f in nodes[c].edges
      ensures f in twin && LeadsOnCCW(list, twin, twin[f])
    {
      HeldLeadsOn(list, twin, nodes.Keys, c, f);
    }
  }

  lemma HeldLeadsOn(list: seq<DirectedEdge>, twin: TwinMap, S: set<Coordinate>, c: Coordinate, f: DirectedEdge)
    requires Listed(list, twin) && LinkedAt(list, twin, S) && Covers(list, S) && f in Leaving(list, c)
    ensures f in twin && LeadsOnCCW(list, twin, twin[f])
  {
    hide Leaving, LinkedAt, Covers, StrictlyBetween, AnglesAscend, Proper;
    assert f in list && f in twin;
    var e := twin[f];
    TwinOfTwin(list, twin, f);
    var i := NextOfLinked(list, twin, S, e);
    forall g | g in list && g.Origin() == c
      ensures !StrictlyBetween(f.End(), g.End(), e.next.End())
    {
      NoneBetweenInList(list, c, i, g);
    }
  }

  /** Nor among the edges that the star has dropped. */
  lemma NoneBetweenInList(list: seq<DirectedEdge>, c: Coordinate, i: nat, g: DirectedEdge)
    requires Proper(list) && i < |Leaving(list, c)| && g in list && g.Origin() == c
    ensures var star := Leaving(list, c); !StrictlyBetween(star[i].End(), g.End(), star[After(i, |star|)].End())
  {
    hide Leaving, AnglesAscend, StrictlyBetween, SameWay, Equivalent;
    var star := Leaving(list, c);
    LeavingSorted(list, c);
    var h := HeldSameWay(list, c, g);
    var m: nat :| m < |star| && star[m] == h;
    NoneBetween(star, i, m);
    assert star[i] in star && star[After(i, |star|)] in star;
    SameWaySameTurn(star[i], g, h);
    SameWaySameTurn(star[After(i, |star|)], g, h);
    BetweenAlike(star[i].End(), g.End(), h.End(), star[After(i, |star|)].End());
  }

  lemma BetweenAlike(a: EdgeEnd, g: EdgeEnd, h: EdgeEnd, b: EdgeEnd)
    requires (AngleBefore(a, g) <==> AngleBefore(a, h)) && (AngleBefore(g, b) <==> AngleBefore(h, b))
    ensures StrictlyBetween(a, g, b) <==> StrictlyBetween(a, h, b)
  {
  }

  lemma SameWaySameTurn(a: DirectedEdge, g: DirectedEdge, h: DirectedEdge)
    requires a.End().Proper() && g.End().Proper() && h.End().Proper() && a.Origin() == g.Origin() == h.Origin()
    requires Equivalent(EndLess, g, h)
    ensures AngleBefore(a.End(), g.End()) <==> AngleBefore(a.End(), h.End())
    ensures AngleBefore(g.End(), a.End()) <==> AngleBefore(h.End(), a.End())
  {
    hide CompareDirection, AngleBefore;
    OrderIsByAngle(a, g); OrderIsByAngle(a, h); OrderIsByAngle(g, a); OrderIsByAngle(h, a);
    DirectionsTransitive(a.End(), h.End(), g.End());
    DirectionsTransitive(a.End(), g.End(), h.End());
    DirectionsTransitive(g.End(), h.End(), a.End());
    DirectionsTransitive(h.End(), g.End(), a.End());
  }

  /** The star holds every edge that leaves its node, or another in the same direction. */
  lemma {:induction false} HeldSameWay(list: seq<DirectedEdge>, c: Coordinate, g: DirectedEdge) returns (h: DirectedEdge)
    requires Proper(list) && g in list && g.Origin() == c
    ensures h in Leaving(list, c) && Equivalent(EndLess, g, h)
  {
    hide CompareDirection;
    var front, last := list[..|list| - 1], list[|list| - 1];
    if g in front {
      h := HeldSameWay(front, c, g);
    } else if g in Leaving(list, c) {
      h := g;
      EqualIsEquivalent(g);
    } else {
      h :| h in Leaving(front, c) && Equivalent(EndLess, g, h);
    }
  }

  lemma EqualIsEquivalent(e: DirectedEdge)
    ensures Equivalent(EndLess, e, e)
  {
  }

  ghost predicate AllHeld(list: seq<DirectedEdge>, twin: TwinMap) {
    forall e :: e in twin ==> twin[e] in Leaving(list, twin[e].Origin())
  }

  lemma DistinctAreHeld(list: seq<DirectedEdge>, twin: TwinMap)
    requires Listed(list, twin) && DistinctDirections(list)
    ensures AllHeld(list, twin)
  {
    hide Leaving, Insert, DistinctDirections, Proper;
    forall e | e in twin
      ensures twin[e] in Leaving(list, twin[e].Origin())
    {
      LeavingHoldsAll(list, twin[e]);
    }
  }

  lemma NextsDiffer(list: seq<DirectedEdge>, twin: TwinMap, S: set<Coordinate>)
    requires Listed(list, twin) && LinkedAt(list, twin, S) && Covers(list, S)
    requires AllHeld(list, twin)
    ensures forall e, f :: e in twin && f in twin && e.next == f.next ==> e == f
  {
    hide Leaving, Insert, LinkedAt, Listed;
    forall e, f | e in twin && f in twin && e.next == f.next
      ensures e == f
    {
      NextIsInjective(list, twin, S, e, f);
    }
  }

  lemma DroppedEdge(list: seq<DirectedEdge>) returns (d: DirectedEdge)
    requires Proper(list) && NoRepeats(list) && !DistinctDirections(list)
    ensures d in list && d !in Leaving(list, d.Origin())
  {
    hide Leaving, Insert, Proper, Equivalent;
    var i, j :| 0 <= i < j < |list| && list[i].Origin() == list[j].Origin() && Equivalent(EndLess, list[i], list[j]);
    LeavingDropsEquals(list, list[i], list[j]);
    d := if list[i] in Leaving(list, list[i].Origin()) then list[j] else list[i];
  }

  /** The link of e leads to the node where e ends if the star there holds its twin, and nowhere otherwise. */
  lemma NextOrNull(list: seq<DirectedEdge>, twin: TwinMap, S: set<Coordinate>, e: DirectedEdge)
    requires Listed(list, twin) && LinkedAt(list, twin, S) && Covers(list, S) && DroppedUnlinked(list, twin)
    requires e in list
    ensures if twin[e] in Leaving(list, twin[e].Origin())
            then e.next != null && e.next in list && e.next.Origin() == e.Destination()
            else e.next == null
  {
    hide Leaving, Insert;
    assert e in twin && twin[e] in twin && twin[twin[e]] == e;
    if twin[e] in Leaving(list, twin[e].Origin()) {
      var i := NextOfLinked(list, twin, S, e);
    }
  }

  lemma NextOfHeld(list: seq<DirectedEdge>, twin: TwinMap, S: set<Coordinate>, e: DirectedEdge)
    requires Listed(list, twin) && LinkedAt(list, twin, S) && Covers(list, S) && DroppedUnlinked(list, twin)
    requires AllHeld(list, twin) && e in list
    ensures e in twin && e.next != null && e.next in list
  {
    hide Leaving, DroppedUnlinked, LinkedAt, Covers, Insert;
    assert e in twin;
    NextOrNull(list, twin, S, e);
  }

  lemma DistinctPermutes(list: seq<DirectedEdge>, twin: TwinMap, S: set<Coordinate>)
    requires Listed(list, twin) && LinkedAt(list, twin, S) && Covers(list, S) && DroppedUnlinked(list, twin)
    requires DistinctDirections(list)
    ensures Permutes(set e | e in list)
  {
    hide DistinctDirections, Listed, DroppedUnlinked, LinkedAt, AllHeld, Covers;
    DistinctAreHeld(list, twin);
    NextsDiffer(list, twin, S);
    forall e | e in list {
      NextOfHeld(list, twin, S, e);
    }
  }

  lemma DroppedBreaks(list: seq<DirectedEdge>, twin: TwinMap)
    requires Listed(list, twin) && DroppedUnlinked(list, twin) && !DistinctDirections(list)
    ensures exists e :: e in list && e.next == null
  {
    hide Leaving, Insert, DistinctDirections;
    var d := DroppedEdge(list);
    assert d in twin && twin[d] in list && twin[d].next == null;
  }

  /** Two segments from the origin along the x axis: the second is dropped there, and its twin leads nowhere. */
  lemma SameDirection(a: DirectedEdge, a': DirectedEdge, b: DirectedEdge, b': DirectedEdge, twin: TwinMap, S: set<Coordinate>)
    requires a.edge.pts == [Coordinate(0, 0), Coordinate(1, 0)] && a.isForward
    requires b.edge.pts == [Coordinate(0, 0), Coordinate(2, 0)] && b.isForward
    requires Listed([a, a', b, b'], twin) && LinkedAt([a, a', b, b'], twin, S) && Covers([a, a', b, b'], S)
    requires DroppedUnlinked([a, a', b, b'], twin) && a in twin && twin[a] == a' && b in twin && twin[b] == b'
    ensures b'.next == null && !DistinctDirections([a, a', b, b']) && !Permutes(set e | e in [a, a', b, b'])
  {
    hide Leaving, Insert, Proper, NoRepeats, LinkedAt, Covers, Permutes, DistinctDirections, EndLess, Equivalent;
    var list := [a, a', b, b'];
    RunsBackEnds(a, a');
    RunsBackEnds(b, b');
    SecondIsDropped(a, a', b, b');
    assert b !in Leaving(list, b.Origin());
    assert b' in list && b'.next == null;
    LinkingPermutes(list, twin, S);
    NullBreaks(list, b');
  }

  lemma NullBreaks(list: seq<DirectedEdge>, e: DirectedEdge)
    requires e in list && e.next == null
    ensures !Permutes(set d | d in list)
  {
    assert e in (set d | d in list);
  }

  lemma SecondIsDropped(a: DirectedEdge, a': DirectedEdge, b: DirectedEdge, b': DirectedEdge)
    requires a.End() == EdgeEnd(Coordinate(0, 0), Coordinate(1, 0)) && b.End() == EdgeEnd(Coordinate(0, 0), Coordinate(2, 0))
    requires a.Origin() == b.Origin() && a'.Origin() != a.Origin() && b'.Origin() != a.Origin() && a != b
    ensures Leaving([a, a', b, b'], a.Origin()) == [a]
    ensures b !in Leaving([a, a', b, b'], a.Origin())
  {
    hide *;
    var o := a.Origin();
    NotInsertedTwice(a, b);
    InsertFirst(a);
    LeavingNone([], o);
    LeavingPush([], a, o);
    LeavingPush([a], a', o);
    LeavingPush([a, a'], b, o);
    LeavingPush([a, a', b], b', o);
    assert [] + [a] == [a] && [a] + [a'] == [a, a'] && [a, a'] + [b] == [a, a', b] && [a, a', b] + [b'] == [a, a', b, b'];
  }

  lemma InsertFirst(a: DirectedEdge)
    ensures Insert(EndLess, [], a) == [a]
  {
  }

  lemma NotInsertedTwice(a: DirectedEdge, b: DirectedEdge)
    requires a.End() == EdgeEnd(Coordinate(0, 0), Coordinate(1, 0)) && b.End() == EdgeEnd(Coordinate(0, 0), Coordinate(2, 0))
    ensures Insert(EndLess, [a], b) == [a]
  {
    assert CompareDirection(a.End(), b.End()) == CompareDirection(b.End(), a.End()) == 0;
  }

  /** linkAllDirectedEdges makes the links a permutation of all directed edges exactly when no two of them
      leave one node in the same direction; and each link leads on from where its edge ends. */
  lemma LinkingPermutes(list: seq<DirectedEdge>, twin: TwinMap, S: set<Coordinate>)
    requires Listed(list, twin) && LinkedAt(list, twin, S) && Covers(list, S) && DroppedUnlinked(list, twin)
    ensures DistinctDirections(list) <==> Permutes(set e | e in list)
    ensures forall e :: e in list && e.next != null ==> e.next.Origin() == e.Destination()
  {
    hide Leaving, Insert, DistinctDirections, Listed, LinkedAt, DroppedUnlinked;
    if DistinctDirections(list) {
      DistinctPermutes(list, twin, S);
    } else {
      DroppedBreaks(list, twin);
    }
    forall e | e in list && e.next != null
      ensures e.next.Origin() == e.Destination()
    {
      NextOrNull(list, twin, S, e);
    }
  }

  // ---------- result links permute the area edges of the result ----------

  /** Around each node, the edges that lead into it, seen by their twins: the next one after each is where its link leads. */
  ghost predicate Rotates(at: map<Coordinate, seq<DirectedEdge>>, twin: TwinMap, R: set<DirectedEdge>)
    reads R`next
  {
    && (forall c, i :: c in at && 0 <= i < |at[c]| ==> at[c][i].Origin() == c && at[c][i] in twin)
    && (forall c, i, j :: c in at && 0 <= i < j < |at[c]| ==> at[c][i] != at[c][j])
    && (forall c, i :: c in at && 0 <= i < |at[c]| && twin[at[c][i]] in R ==>
          twin[at[c][i]].next == at[c][After(i, |at[c]|)] && at[c][After(i, |at[c]|)] in R)
  }

  /** The twin of each edge is found at the node where the edge ends. */
  ghost predicate Arrive(at: map<Coordinate, seq<DirectedEdge>>, twin: TwinMap, R: set<DirectedEdge>) {
    forall e :: e in R ==>
      e in twin && twin[e] in twin && twin[twin[e]] == e && e.Destination() in at && twin[e] in at[e.Destination()]
  }

  lemma RotatedNext(at: map<Coordinate, seq<DirectedEdge>>, twin: TwinMap, R: set<DirectedEdge>, e: DirectedEdge)
      returns (i: nat)
    requires Rotates(at, twin, R) && Arrive(at, twin, R) && e in R
    ensures e.Destination() in at && i < |at[e.Destination()]| && at[e.Destination()][i] == twin[e]
    ensures e.next == at[e.Destination()][After(i, |at[e.Destination()]|)]
    ensures e.next != null && e.next in R && e.next.Origin() == e.Destination()
  {
    var es := at[e.Destination()];
    i :| 0 <= i < |es| && es[i] == twin[e];
    assert twin[es[i]] == e;
  }

  lemma RotatedNextsDiffer(at: map<Coordinate, seq<DirectedEdge>>, twin: TwinMap, R: set<DirectedEdge>, e: DirectedEdge,
                           f: DirectedEdge)
    requires Rotates(at, twin, R) && Arrive(at, twin, R) && e in R && f in R && e.next == f.next
    ensures e == f
  {
    var i := RotatedNext(at, twin, R, e);
    var j := RotatedNext(at, twin, R, f);
    var c := e.Destination();
    assert f.Destination() == c;
    assert After(i, |at[c]|) == After(j, |at[c]|);
    assert twin[twin[e]] == e && twin[twin[f]] == f;
  }

  /** Rotating around the nodes permutes the edges. */
  lemma RotationPermutes(at: map<Coordinate, seq<DirectedEdge>>, twin: TwinMap, R: set<DirectedEdge>)
    requires Rotates(at, twin, R) && Arrive(at, twin, R)
    ensures Permutes(R)
    ensures forall e :: e in R && e.next != null ==> e.next.Origin() == e.Destination()
  {
    hide Rotates, Arrive;
    forall e | e in R
      ensures e.next != null && e.next in R && e.next.Origin() == e.Destination()
    {
      var i := RotatedNext(at, twin, R, e);
    }
    forall e, f | e in R && f in R && e.next == f.next
      ensures e == f
    {
      RotatedNextsDiffer(at, twin, R, e, f);
    }
  }

  // ---------- the result edges around each node ----------

  /** `result` holds the edges of the list that are in the result, `area` those that bound an area. */
  ghost predicate Selected(list: seq<DirectedEdge>, result: set<DirectedEdge>, area: set<DirectedEdge>)
    reads list`isInResult, list`labels
  {
    && (forall e :: e in list ==> (e in result <==> e.isInResult))
    && (forall e :: e in list ==> (e in area <==> e.IsArea()))
  }

  /** Those that are in the result themselves or by their twin. */
  ghost function EitherWay(twin: TwinMap, result: set<DirectedEdge>): set<DirectedEdge> {
    set e | e in twin && (e in result || twin[e] in result)
  }

  /** The area edges of the result, in either direction, around the node at c. */
  ghost function ResultEdges(list: seq<DirectedEdge>, twin: TwinMap, result: set<DirectedEdge>, area: set<DirectedEdge>,
                             c: Coordinate): (es: seq<DirectedEdge>)
    ensures forall e :: e in es ==> e in list && e.Origin() == c
  {
    Keep(Keep(Leaving(list, c), EitherWay(twin, result)), area)
  }

  /** How they stand to the result. */
  ghost function ResultEnds(es: seq<DirectedEdge>, twin: TwinMap, result: set<DirectedEdge>): seq<Ends> {
    seq(|es|, i requires 0 <= i < |es| => Ends(es[i] in result, es[i] in twin && twin[es[i]] in result))
  }

  ghost function EndsAround(list: seq<DirectedEdge>, twin: TwinMap, result: set<DirectedEdge>, area: set<DirectedEdge>,
                            c: Coordinate): seq<Ends> {
    ResultEnds(ResultEdges(list, twin, result, area, c), twin, result)
  }

  lemma {:induction false} KeepAgrees(es: seq<DirectedEdge>, S: set<DirectedEdge>, T: set<DirectedEdge>)
    requires forall e :: e in es ==> (e in S <==> e in T)
    ensures Keep(es, S) == Keep(es, T)
  {
    if es != [] {
      KeepAgrees(es[..|es| - 1], S, T);
    }
  }

  lemma EndsUnique(es: seq<DirectedEdge>, twin: TwinMap, a: seq<Ends>, b: seq<Ends>)
    requires EndsAre(es, twin, a) && EndsAre(es, twin, b)
    ensures a == b
  {
  }

  /** The edges that the linking around a node selects. */
  lemma SelectedStar(list: seq<DirectedEdge>, twin: TwinMap, result: set<DirectedEdge>, area: set<DirectedEdge>, c: Coordinate)
    requires Listed(list, twin) && Selected(list, result, area)
    ensures var star := Leaving(list, c);
            && Keep(star, EitherWay(twin, result)) == Keep(star, ResultSet(star, twin))
            && ResultEdges(list, twin, result, area, c) == Keep(Keep(star, ResultSet(star, twin)), AreaSet(star))
            && EndsAre(ResultEdges(list, twin, result, area, c), twin, EndsAround(list, twin, result, area, c))
  {
    hide Leaving, Keep;
    var star := Leaving(list, c);
    forall e | e in star
      ensures e in list && e in twin && twin[e] in list
    {
    }
    KeepAgrees(star, EitherWay(twin, result), ResultSet(star, twin));
    KeepAgrees(Keep(star, ResultSet(star, twin)), area, AreaSet(star));
  }

  lemma ResultEdgesAre(list: seq<DirectedEdge>, twin: TwinMap, result: set<DirectedEdge>, area: set<DirectedEdge>, c: Coordinate)
    requires Proper(list)
    ensures var es := ResultEdges(list, twin, result, area, c);
            && (forall i, j :: 0 <= i < j < |es| ==> es[i] != es[j])
            && forall e :: e in es <==> e in Leaving(list, c) && e in area && e in EitherWay(twin, result)
  {
    hide Leaving;
    LeavingSorted(list, c);
    KeepDistinct(Leaving(list, c), EitherWay(twin, result));
    KeepDistinct(Keep(Leaving(list, c), EitherWay(twin, result)), area);
  }

  /** The links around the node at c are those that the linking machine makes. */
  ghost predicate ResultLinkedAround(list: seq<DirectedEdge>, twin: TwinMap, result: set<DirectedEdge>,
                                     area: set<DirectedEdge>, c: Coordinate)
    reads twin.Values`next
  {
    var es := ResultEdges(list, twin, result, area, c);
    var ends := ResultEnds(es, twin, result);
    !Stuck(ends) && LinkedBy(es, twin, Links(ends))
  }

  /** Where the area edges of the result alternate between leading in and out, their links rotate. */
  lemma AlternatingRotates(list: seq<DirectedEdge>, twin: TwinMap, result: set<DirectedEdge>, area: set<DirectedEdge>,
                           c: Coordinate, i: nat)
    requires Listed(list, twin) && ResultLinkedAround(list, twin, result, area, c)
    requires Alternating(ResultEnds(ResultEdges(list, twin, result, area, c), twin, result))
    requires i < |ResultEdges(list, twin, result, area, c)|
    requires ResultEdges(list, twin, result, area, c)[i] in twin
    requires twin[ResultEdges(list, twin, result, area, c)[i]] in result
    ensures var es := ResultEdges(list, twin, result, area, c);
            && twin[es[i]].next == es[After(i, |es|)]
            && es[After(i, |es|)] in result && es[After(i, |es|)] in area
  {
    hide Leaving, Keep;
    var es := ResultEdges(list, twin, result, area, c);
    var ends := ResultEnds(es, twin, result);
    AlternatingLinks(ends);
    assert ends[i].incoming;
    assert i in Links(ends) && ends[After(i, |ends|)].outgoing;
    ResultEdgesAre(list, twin, result, area, c);
    assert es[After(i, |es|)] in es;
  }

  /** The stars of the result edges, for all the nodes in S. */
  ghost function ResultStars(list: seq<DirectedEdge>, twin: TwinMap, result: set<DirectedEdge>, area: set<DirectedEdge>,
                             S: set<Coordinate>): map<Coordinate, seq<DirectedEdge>>
  {
    map c | c in S :: ResultEdges(list, twin, result, area, c)
  }

  /** If at every node the area edges of the result alternate between leading in and leading out, no linking fails, and
      linkResultDirectedEdges makes the links a permutation of the area edges of the result. */
  lemma ResultLinkingPermutes(list: seq<DirectedEdge>, twin: TwinMap, result: set<DirectedEdge>, area: set<DirectedEdge>,
                              S: set<Coordinate>)
    requires Listed(list, twin) && DistinctDirections(list) && Covers(list, S)
    requires forall e :: e in list ==> (e in area <==> twin[e] in area)
    requires result <= twin.Keys
    requires forall c :: c in S ==> ResultLinkedAround(list, twin, result, area, c)
    requires forall c :: c in S ==> Alternating(ResultEnds(ResultEdges(list, twin, result, area, c), twin, result))
    ensures Permutes(result * area)
    ensures forall e :: e in result * area && e.next != null ==> e.next.Origin() == e.Destination()
  {
    var R, at := result * area, ResultStars(list, twin, result, area, S);
    ResultEdgesArrive(list, twin, result, area, S);
    ResultEdgesRotate(list, twin, result, area, S);
    RotationPermutes(at, twin, R);
  }

  lemma ResultEdgesArrive(list: seq<DirectedEdge>, twin: TwinMap, result: set<DirectedEdge>, area: set<DirectedEdge>,
                          S: set<Coordinate>)
    requires Listed(list, twin) && DistinctDirections(list) && Covers(list, S)
    requires forall e :: e in list ==> (e in area <==> twin[e] in area)
    requires result <= twin.Keys
    ensures Arrive(ResultStars(list, twin, result, area, S), twin, result * area)
  {
    hide Leaving, ResultEdges, DistinctDirections, Proper, NoRepeats;
    forall e | e in result * area
      ensures e in twin && twin[e] in twin && twin[twin[e]] == e && e.Destination() in S
      ensures twin[e] in ResultEdges(list, twin, result, area, e.Destination())
    {
      assert e in twin && twin[twin[e]] == e && twin[e] in list && e in list;
      LeavingHoldsAll(list, twin[e]);
      RunsBackEnds(e, twin[e]);
      ResultEdgesAre(list, twin, result, area, e.Destination());
    }
  }

  lemma ResultEdgesRotate(list: seq<DirectedEdge>, twin: TwinMap, result: set<DirectedEdge>, area: set<DirectedEdge>,
                          S: set<Coordinate>)
    requires Listed(list, twin)
    requires forall c :: c in S ==> ResultLinkedAround(list, twin, result, area, c)
    requires forall c :: c in S ==> Alternating(ResultEnds(ResultEdges(list, twin, result, area, c), twin, result))
    ensures Rotates(ResultStars(list, twin, result, area, S), twin, result * area)
  {
    hide Leaving, ResultEdges, Alternating, ResultLinkedAround, Proper, NoRepeats;
    forall c | c in S {
      ResultEdgesAre(list, twin, result, area, c);
    }
    forall c, i | c in S && 0 <= i < |ResultEdges(list, twin, result, area, c)|
      ensures var es := ResultEdges(list, twin, result, area, c);
              && es[i].Origin() == c && es[i] in twin
              && (twin[es[i]] in result * area ==>
                    twin[es[i]].next == es[After(i, |es|)] && es[After(i, |es|)] in result * area)
    {
      var es := ResultEdges(list, twin, result, area, c);
      assert es[i] in es;
      if twin[es[i]] in result * area {
        AlternatingRotates(list, twin, result, area, c, i);
      }
    }
  }
}
