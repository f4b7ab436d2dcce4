/** What a hull ring is, and that cleaning a chain yields one. */
module HullRings {
  import opened Coordinates
  import opened HullGeometry
  import opened HullChains

  ghost predicate RightOfEdges(ring: seq<Coordinate>, points: set<Coordinate>) {
    forall i, p :: 0 < i < |ring| && p in points ==> Cross(ring[i - 1], ring[i], p) <= 0
  }

  /** The vertex after vertex i of a closed ring, skipping the repeated end. */
  function Following(ring: seq<Coordinate>, i: nat): Coordinate
    requires 0 < i < |ring|
  {
    if i + 1 < |ring| then ring[i + 1] else ring[1]
  }

  ghost predicate TurnsRight(ring: seq<Coordinate>) {
    forall i :: 0 < i < |ring| ==> Cross(ring[i - 1], ring[i], Following(ring, i)) < 0
  }

  /** A closed clockwise ring of distinct points of the set, turning strictly right at every vertex,
      that leaves no point of the set to the left of an edge. */
  ghost predicate HullRing(ring: seq<Coordinate>, points: set<Coordinate>) {
    && |ring| >= 4 && ring[0] == ring[|ring| - 1]
    && Points(ring) <= points
    && (forall i, j :: 0 <= i < j < |ring| - 1 ==> ring[i] != ring[j])
    && TurnsRight(ring)
    && RightOfEdges(ring, points)
  }

  /** a and b are points of the set, and the set lies on the segment between them. */
  ghost predicate HullSegment(a: Coordinate, b: Coordinate, points: set<Coordinate>) {
    a != b && a in points && b in points && Spans({a, b}, points)
  }

  /** A hull of some of the points that spans all of them is a hull of all of them. */
  lemma HullRingOfSpanned(ring: seq<Coordinate>, kept: set<Coordinate>, points: set<Coordinate>)
    requires HullRing(ring, kept) && kept <= points && Spans(kept, points)
    ensures HullRing(ring, points)
  {
    forall i, p | 0 < i < |ring| && p in points
      ensures Cross(ring[i - 1], ring[i], p) <= 0
    {
      var h := RightOf(ring[i - 1], ring[i]);
      forall q | q in kept
        ensures Excess(h, q) <= 0
      {
        RightOfExcess(ring[i - 1], ring[i], q);
      }
      assert Holds(h, kept);
      RightOfExcess(ring[i - 1], ring[i], p);
    }
  }

  /** No points of a hull segment turn. */
  lemma SegmentIsCollinear(a: Coordinate, b: Coordinate, points: set<Coordinate>, p: Coordinate, q: Coordinate, r: Coordinate)
    requires HullSegment(a, b, points) && p in points && q in points && r in points
    ensures Cross(p, q, r) == 0
  {
    OnLine(a, b, points, p); OnLine(a, b, points, q); OnLine(a, b, points, r);
    ThreeOnLine(a, b, p, q, r);
  }

  lemma OnLine(a: Coordinate, b: Coordinate, points: set<Coordinate>, p: Coordinate)
    requires HullSegment(a, b, points) && p in points
    ensures Cross(a, b, p) == 0
  {
    RightOfExcess(a, b, a); RightOfExcess(a, b, b); RightOfExcess(a, b, p);
    RightOfExcess(b, a, a); RightOfExcess(b, a, b); RightOfExcess(b, a, p);
    assert Holds(RightOf(a, b), {a, b}) && Holds(RightOf(b, a), {a, b});
    Turns(a, b, p);
  }

  lemma ThreeOnLine(a: Coordinate, b: Coordinate, p: Coordinate, q: Coordinate, r: Coordinate)
    requires a != b && Cross(a, b, p) == 0 && Cross(a, b, q) == 0 && Cross(a, b, r) == 0
    ensures Cross(p, q, r) == 0
  {
    var u, v := b.x - a.x, b.y - a.y;
    var k, l, m, n := q.x - p.x, q.y - p.y, r.x - q.x, r.y - q.y;
    assert u * l == k * v && u * n == m * v;
    assert u * (k * n - m * l) == k * (u * n) - m * (u * l) == 0;
    assert v * (k * n - m * l) == (k * v) * n - (m * v) * l == 0;
    Product(u, k * n - m * l);
    Product(v, k * n - m * l);
  }

  /** If a, b, m turn right and m lies between b and c, then a, b, c turn right. */
  lemma TurnBeyond(a: Coordinate, b: Coordinate, c: Coordinate, m: Coordinate)
    requires Cross(a, b, m) < 0 && Within(b, c, m) && Cross(a, b, c) <= 0
    ensures Cross(a, b, c) < 0
  {
    if Cross(a, b, c) == 0 {
      var h := RightOf(b, a);
      RightOfExcess(b, a, b); RightOfExcess(b, a, c); RightOfExcess(b, a, m);
      Turns(a, b, c); Turns(a, b, m); Turns(a, b, b);
      assert Holds(h, {b, c});
      assert false;
    }
  }

  /** No chain point lies to the left of an edge that jumps only over points of the edge. */
  lemma ChainRightOfJump(s: seq<Coordinate>, x: int, y: int, t: nat)
    requires NoLeftTurns(s) && 0 <= x < y < |s| && t < |s|
    requires forall m :: x <= m <= y ==> Within(s[x], s[y], s[m])
    ensures Cross(s[x], s[y], s[t]) <= 0
  {
    Turns(s[t], s[x], s[y]);
    if x <= t <= y {
      var h := RightOf(s[x], s[y]);
      RightOfExcess(s[x], s[y], s[x]); RightOfExcess(s[x], s[y], s[y]); RightOfExcess(s[x], s[y], s[t]);
      assert Holds(h, {s[x], s[y]});
      assert Within(s[x], s[y], s[t]);
      assert Holds(h, {s[t]});
    }
  }

  /** The cleaner reaches the last chain point with nothing lost: one kept point means a straight
      chain, more mean a right turn at the first and at the last chain point too. */
  lemma CleanedEnd(s: seq<Coordinate>, c: seq<Coordinate>, kept: seq<int>)
    requires Chain(s) && |s| > 1 && CleanedSoFar(s, |s| - 1, c, kept)
    ensures |c| > 1 ==> Cross(c[|c| - 1], s[|s| - 1], s[0]) < 0 && Cross(s[|s| - 1], s[0], c[1]) < 0
  {
    if |c| > 1 {
      var f, k := kept[1], kept[|c| - 1];
      assert kept[0] < f <= k;
      assert Cross(c[0], c[1], s[f + 1]) < 0;
      EndsTurnRight(s, f, k);
    }
  }

  lemma EndsTurnRight(s: seq<Coordinate>, f: nat, k: nat)
    requires Chain(s) && 0 < f <= k < |s| - 1 && Cross(s[0], s[f], s[f + 1]) < 0
    ensures Cross(s[k], s[|s| - 1], s[0]) < 0 && Cross(s[|s| - 1], s[0], s[f]) < 0
  {
    var n := |s| - 1;
    Turns(s[0], s[k], s[n]);
    Turns(s[0], s[f], s[n]);
    if Cross(s[0], s[k], s[n]) == 0 || Cross(s[0], s[f], s[n]) == 0 {
      RayOfFirst(s, f, k);
      assert false;
    }
  }

  /** If a later chain point shares its ray with the last one, the points before it do not turn. */
  lemma RayOfFirst(s: seq<Coordinate>, f: nat, k: nat)
    requires Chain(s) && 0 < f <= k < |s| - 1
    requires Cross(s[0], s[k], s[|s| - 1]) == 0 || Cross(s[0], s[f], s[|s| - 1]) == 0
    ensures Cross(s[0], s[f], s[f + 1]) == 0
  {
    var n := |s| - 1;
    if Cross(s[0], s[k], s[n]) == 0 {
      RayFromStart(s, f, k, n);
    }
    assert Cross(s[0], s[f], s[n]) == 0;
    if f + 1 < n {
      // the middle point lies between two points of one ray
      assert Precedes(s[0], s[f], s[f + 1]) && Precedes(s[0], s[f + 1], s[n]) && Precedes(s[0], s[f], s[n]);
      PinnedToRay(s[0], s[f], s[f + 1], s[n]);
    }
  }

  /** v lists the chain points at the increasing positions `at`, from the first to the last. */
  ghost predicate Vertices(s: seq<Coordinate>, v: seq<Coordinate>, at: seq<int>) {
    && |at| == |v| >= 3 && at[0] == 0 && at[|v| - 1] == |s| - 1
    && (forall j :: 0 <= j < |v| ==> 0 <= at[j] < |s| && v[j] == s[at[j]])
    && (forall i, j :: 0 <= i < j < |v| ==> at[i] < at[j])
  }

  ghost predicate NothingBetween(s: seq<Coordinate>, v: seq<Coordinate>, at: seq<int>)
    requires Vertices(s, v, at)
  {
    forall j, t :: 0 < j < |v| && at[j - 1] <= t <= at[j] ==> Within(v[j - 1], v[j], s[t])
  }

  ghost predicate TurnsAfter(s: seq<Coordinate>, v: seq<Coordinate>, at: seq<int>)
    requires Vertices(s, v, at)
  {
    forall j :: 0 < j < |v| - 1 ==> at[j] + 1 < |s| && Cross(v[j - 1], v[j], s[at[j] + 1]) < 0
  }

  lemma VerticesOf(s: seq<Coordinate>, c: seq<Coordinate>, kept: seq<int>)
    requires |s| > 1 && Picks(s, |s| - 1, c, kept) && |c| > 1
    ensures Vertices(s, c + [s[|s| - 1]], kept + [|s| - 1])
  {
  }

  lemma NothingBetweenOf(s: seq<Coordinate>, c: seq<Coordinate>, kept: seq<int>, v: seq<Coordinate>, at: seq<int>)
    requires |s| > 1 && Picks(s, |s| - 1, c, kept) && |c| > 1
    requires v == c + [s[|s| - 1]] && at == kept + [|s| - 1] && Vertices(s, v, at)
    requires NoneLost(s, |s| - 1, c, kept) && Leading(s, |s| - 1, c[|c| - 1], kept[|c| - 1])
    ensures NothingBetween(s, v, at)
  {
    forall j, t | 0 < j < |v| && at[j - 1] <= t <= at[j]
      ensures Within(v[j - 1], v[j], s[t])
    {
      if j < |c| {
        assert Within(c[j - 1], c[j], s[t]);
      }
    }
  }

  lemma TurnsAfterOf(s: seq<Coordinate>, c: seq<Coordinate>, kept: seq<int>, v: seq<Coordinate>, at: seq<int>)
    requires |s| > 1 && Picks(s, |s| - 1, c, kept) && |c| > 1
    requires v == c + [s[|s| - 1]] && at == kept + [|s| - 1] && Vertices(s, v, at)
    requires RightTurns(s, |s| - 1, c, kept)
    ensures TurnsAfter(s, v, at)
  {
    forall j | 0 < j < |v| - 1
      ensures at[j] + 1 < |s| && Cross(v[j - 1], v[j], s[at[j] + 1]) < 0
    {
      assert Cross(c[j - 1], c[j], s[kept[j] + 1]) < 0;
    }
  }

  lemma VerticesTurnRight(s: seq<Coordinate>, v: seq<Coordinate>, at: seq<int>, j: nat)
    requires NoLeftTurns(s) && Vertices(s, v, at) && NothingBetween(s, v, at) && TurnsAfter(s, v, at) && 0 < j < |v| - 1
    ensures Cross(v[j - 1], v[j], v[j + 1]) < 0
  {
    assert at[j - 1] < at[j] < at[j + 1];
    assert Within(v[j], v[j + 1], s[at[j] + 1]);
    TurnBeyond(v[j - 1], v[j], v[j + 1], s[at[j] + 1]);
  }

  lemma VerticesRightOf(s: seq<Coordinate>, v: seq<Coordinate>, at: seq<int>, j: nat, t: nat)
    requires NoLeftTurns(s) && Vertices(s, v, at) && NothingBetween(s, v, at) && 0 < j < |v| && t < |s|
    ensures Cross(v[j - 1], v[j], s[t]) <= 0
  {
    forall m | at[j - 1] <= m <= at[j]
      ensures Within(s[at[j - 1]], s[at[j]], s[m])
    {
      assert Within(v[j - 1], v[j], s[m]);
    }
    ChainRightOfJump(s, at[j - 1], at[j], t);
  }

  lemma ClosingEdgeRightOf(s: seq<Coordinate>, t: nat)
    requires NoLeftTurns(s) && t < |s|
    ensures Cross(s[|s| - 1], s[0], s[t]) <= 0
  {
    Turns(s[0], s[t], s[|s| - 1]);
  }

  lemma RingTurnsRight(s: seq<Coordinate>, v: seq<Coordinate>, at: seq<int>)
    requires NoLeftTurns(s) && Vertices(s, v, at) && NothingBetween(s, v, at) && TurnsAfter(s, v, at)
    requires Cross(v[|v| - 2], v[|v| - 1], v[0]) < 0 && Cross(v[|v| - 1], v[0], v[1]) < 0
    ensures TurnsRight(v + [v[0]])
  {
    var ring := v + [v[0]];
    forall i | 0 < i < |ring|
      ensures Cross(ring[i - 1], ring[i], Following(ring, i)) < 0
    {
      if i < |v| - 1 {
        VerticesTurnRight(s, v, at, i);
      }
    }
  }

  lemma RingRightOfEdges(s: seq<Coordinate>, v: seq<Coordinate>, at: seq<int>)
    requires NoLeftTurns(s) && Vertices(s, v, at) && NothingBetween(s, v, at)
    ensures RightOfEdges(v + [v[0]], Points(s))
  {
    var ring := v + [v[0]];
    forall i, p | 0 < i < |ring| && p in Points(s)
      ensures Cross(ring[i - 1], ring[i], p) <= 0
    {
      var t :| 0 <= t < |s| && s[t] == p;
      if i < |v| {
        VerticesRightOf(s, v, at, i, t);
      } else {
        ClosingEdgeRightOf(s, t);
      }
    }
  }

  lemma VerticesDistinct(s: seq<Coordinate>, v: seq<Coordinate>, at: seq<int>)
    requires Distinct(s) && Vertices(s, v, at)
    ensures Distinct(v) && Points(v) <= Points(s)
  {
  }

  lemma RingOfVertices(s: seq<Coordinate>, v: seq<Coordinate>, at: seq<int>)
    requires NoLeftTurns(s) && Distinct(s) && Vertices(s, v, at) && NothingBetween(s, v, at) && TurnsAfter(s, v, at)
    requires Cross(v[|v| - 2], v[|v| - 1], v[0]) < 0 && Cross(v[|v| - 1], v[0], v[1]) < 0
    ensures HullRing(v + [v[0]], Points(s))
  {
    RingTurnsRight(s, v, at);
    RingRightOfEdges(s, v, at);
    VerticesDistinct(s, v, at);
  }

  lemma RingOfChain(s: seq<Coordinate>, c: seq<Coordinate>, kept: seq<int>)
    requires Chain(s) && |s| > 1 && CleanedSoFar(s, |s| - 1, c, kept) && |c| > 1
    ensures HullRing(c + [s[|s| - 1]] + [s[0]], Points(s))
  {
    hide NoLeftTurns, RadialOrder, HullRing, Points, NoneLost, Leading, RightTurns, Vertices, NothingBetween, TurnsAfter, Distinct;
    var v, at := c + [s[|s| - 1]], kept + [|s| - 1];
    VerticesOf(s, c, kept);
    NothingBetweenOf(s, c, kept, v, at);
    TurnsAfterOf(s, c, kept, v, at);
    CleanedEnd(s, c, kept);
    ChainDistinct(s);
    RingOfVertices(s, v, at);
  }

  lemma SegmentOfChain(s: seq<Coordinate>, kept: seq<int>)
    requires RadialOrder(s) && |s| > 1 && CleanedSoFar(s, |s| - 1, [s[0]], kept)
    ensures HullSegment(s[0], s[|s| - 1], Points(s))
  {
    var n := |s| - 1;
    forall h | Holds(h, {s[0], s[n]})
      ensures Holds(h, Points(s))
    {
      forall p | p in Points(s)
        ensures Excess(h, p) <= 0
      {
        var t :| 0 <= t < |s| && s[t] == p;
        assert Within(s[0], s[n], s[t]);
        assert Holds(h, {s[t]});
      }
    }
  }

  /** The cleaner always keeps the last chain point and the closing point. */
  lemma CleanedTail(s: seq<Coordinate>, c: seq<Coordinate>)
    requires |s| > 1 && s[|s| - 1] != s[0] && c == CleanPrefix(s + [s[0]], |s| - 1)
    requires c == [s[0]] || (c != [] && Cross(c[|c| - 1], s[|s| - 1], s[0]) < 0)
    ensures Cleaned(s + [s[0]]) == c + [s[|s| - 1]] + [s[0]]
  {
    var ring, n := s + [s[0]], |s| - 1;
    assert ring[n] == s[n] && ring[n + 1] == s[0];
    assert CleanPrefix(ring, n + 1) == c + [s[n]];
  }

  /** c closes the chain s into its hull: a ring, or a segment there and back. */
  ghost predicate ClosedHull(s: seq<Coordinate>, c: seq<Coordinate>)
    requires s != []
  {
    HullRing(c, Points(s)) || (c == [s[0], s[|s| - 1], s[0]] && HullSegment(s[0], s[|s| - 1], Points(s)))
  }

  lemma HullOfChain(s: seq<Coordinate>, c: seq<Coordinate>, kept: seq<int>)
    requires Chain(s) && |s| > 1 && CleanedSoFar(s, |s| - 1, c, kept)
    ensures ClosedHull(s, c + [s[|s| - 1]] + [s[0]])
  {
    hide NoLeftTurns, RadialOrder, HullRing, HullSegment, Points, NoneLost, Leading, RightTurns;
    if |c| == 1 {
      assert c == [s[0]];
      SegmentOfChain(s, kept);
    } else {
      RingOfChain(s, c, kept);
    }
  }

  lemma CleanedChainEnds(s: seq<Coordinate>, c: seq<Coordinate>, kept: seq<int>)
    requires Chain(s) && |s| > 1 && CleanedSoFar(s, |s| - 1, c, kept)
    ensures c != [] && s[|s| - 1] != s[0]
    ensures c == [s[0]] || Cross(c[|c| - 1], s[|s| - 1], s[0]) < 0
  {
    CleanedEnd(s, c, kept);
    if |c| == 1 {
      assert c == [s[0]];
    }
  }

  /** Cleaning a chain closes it into its hull. */
  lemma CleanedChain(s: seq<Coordinate>)
    requires Chain(s) && |s| > 1
    ensures ClosedHull(s, Cleaned(s + [s[0]]))
  {
    var c, kept := CleanChainPrefix(s, |s| - 1);
    CleanedChainEnds(s, c, kept);
    CleanedTail(s, c);
    HullOfChain(s, c, kept);
  }
}
