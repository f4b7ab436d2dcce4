/** Splitting a path at nodes, and gluing the pieces back together. */
module NodedPaths {
  import opened Coordinates

  /** A node on a path: its coordinate and the segment it lies on, counted from the segment's first vertex. */
  datatype Stop = Stop(coord: Coordinate, segment: int)

  ghost predicate AtVertex(pts: seq<Coordinate>, s: Stop)
    requires 0 <= s.segment < |pts|
  {
    s.coord == pts[s.segment]
  }

  /** The nodes lie on the path in order, at each vertex at most one, and that before all others on the segment. */
  ghost predicate InOrder(pts: seq<Coordinate>, stops: seq<Stop>) {
    && (forall k :: 0 <= k < |stops| ==> 0 <= stops[k].segment < |pts|)
    && (forall j, k :: 0 <= j < k < |stops| ==>
          stops[j].segment <= stops[k].segment && (AtVertex(pts, stops[k]) ==> stops[j].segment < stops[k].segment))
  }

  /** The nodes include the two ends of the path. */
  ghost predicate SpansPath(pts: seq<Coordinate>, stops: seq<Stop>) {
    && pts != [] && stops != []
    && stops[0] == Stop(pts[0], 0) && stops[|stops| - 1] == Stop(pts[|pts| - 1], |pts| - 1)
  }

  // ---------- the path with its nodes inserted ----------

  /** The nodes on segment s other than at its first vertex, in order. */
  ghost function Interior(pts: seq<Coordinate>, stops: seq<Stop>, s: int): seq<Coordinate>
    requires InOrder(pts, stops)
  {
    if stops == [] then []
    else
      var front, last := stops[..|stops| - 1], stops[|stops| - 1];
      Interior(pts, front, s) + if last.segment == s && !AtVertex(pts, last) then [last.coord] else []
  }

  /** The first m vertices, each followed by the nodes on the segment it starts. */
  ghost function Noded(pts: seq<Coordinate>, stops: seq<Stop>, m: nat): seq<Coordinate>
    requires InOrder(pts, stops) && m <= |pts|
  {
    if m == 0 then [] else Noded(pts, stops, m - 1) + [pts[m - 1]] + Interior(pts, stops, m - 1)
  }

  // ---------- the pieces ----------

  /** The stretch from one node to the next: both nodes, and the vertices between them. */
  ghost function Piece(pts: seq<Coordinate>, a: Stop, b: Stop): seq<Coordinate>
    requires 0 <= a.segment <= b.segment < |pts|
  {
    [a.coord] + pts[a.segment + 1..b.segment + 1] + if AtVertex(pts, b) then [] else [b.coord]
  }

  ghost function Pieces(pts: seq<Coordinate>, stops: seq<Stop>): (pieces: seq<seq<Coordinate>>)
    requires InOrder(pts, stops)
    ensures |pieces| == if stops == [] then 0 else |stops| - 1
  {
    if |stops| < 2 then []
    else Pieces(pts, stops[..|stops| - 1]) + [Piece(pts, stops[|stops| - 2], stops[|stops| - 1])]
  }

  /** The pieces joined end to end, each shared point once. */
  ghost function Glued(start: Coordinate, pieces: seq<seq<Coordinate>>): seq<Coordinate>
    requires forall k :: 0 <= k < |pieces| ==> pieces[k] != []
  {
    if pieces == [] then [start] else Glued(start, pieces[..|pieces| - 1]) + pieces[|pieces| - 1][1..]
  }

  lemma PieceEnds(pts: seq<Coordinate>, a: Stop, b: Stop)
    requires 0 <= a.segment <= b.segment < |pts| && (AtVertex(pts, b) ==> a.segment < b.segment)
    ensures var p := Piece(pts, a, b); |p| >= 2 && p[0] == a.coord && p[|p| - 1] == b.coord
  {
  }

  /** Every piece has at least two points, starts at its node and ends at the next. */
  lemma {:induction false} PiecesJoin(pts: seq<Coordinate>, stops: seq<Stop>)
    requires InOrder(pts, stops)
    ensures var pieces := Pieces(pts, stops);
            forall k :: 0 <= k < |pieces| ==>
              |pieces[k]| >= 2 && pieces[k][0] == stops[k].coord && pieces[k][|pieces[k]| - 1] == stops[k + 1].coord
  {
    hide Piece, AtVertex;
    if |stops| >= 2 {
      var front := stops[..|stops| - 1];
      PiecesJoin(pts, front);
      PieceEnds(pts, stops[|stops| - 2], stops[|stops| - 1]);
      assert forall k :: 0 <= k < |front| ==> front[k] == stops[k];
    }
  }

  // ---------- gluing ----------

  lemma {:induction false} InteriorPast(pts: seq<Coordinate>, stops: seq<Stop>, s: int)
    requires InOrder(pts, stops) && forall k :: 0 <= k < |stops| ==> stops[k].segment != s
    ensures Interior(pts, stops, s) == []
  {
    if stops != [] {
      InteriorPast(pts, stops[..|stops| - 1], s);
    }
  }

  /** A node changes nothing before its own segment. */
  lemma {:induction false} NodedBefore(pts: seq<Coordinate>, stops: seq<Stop>, b: Stop, m: nat)
    requires InOrder(pts, stops + [b]) && InOrder(pts, stops) && m <= b.segment < |pts|
    ensures Noded(pts, stops + [b], m) == Noded(pts, stops, m)
  {
    if m > 0 {
      NodedBefore(pts, stops, b, m - 1);
      assert (stops + [b])[..|stops|] == stops;
    }
  }

  /** Past the last node only vertices follow. */
  lemma {:induction false} NodedAfter(pts: seq<Coordinate>, stops: seq<Stop>, n: nat, m: nat)
    requires InOrder(pts, stops) && n <= m <= |pts| && forall k :: 0 <= k < |stops| ==> stops[k].segment < n
    ensures Noded(pts, stops, m) == Noded(pts, stops, n) + pts[n..m]
  {
    hide InOrder, AtVertex, Interior;
    if n < m {
      NodedAfter(pts, stops, n, m - 1);
      InteriorPast(pts, stops, m - 1);
      assert pts[n..m] == pts[n..m - 1] + [pts[m - 1]];
    }
  }

  /** The order, as it concerns a last node. */
  lemma LastInOrder(pts: seq<Coordinate>, stops: seq<Stop>, b: Stop)
    requires InOrder(pts, stops + [b]) && stops != []
    ensures InOrder(pts, stops)
    ensures var a := stops[|stops| - 1];
            0 <= a.segment <= b.segment < |pts| && (AtVertex(pts, b) ==> a.segment < b.segment)
    ensures forall k :: 0 <= k < |stops| ==> stops[k].segment <= stops[|stops| - 1].segment
  {
    var all := stops + [b];
    assert all[|stops| - 1] == stops[|stops| - 1] && all[|stops|] == b;
    forall k | 0 <= k < |stops|
      ensures all[k] == stops[k]
    {
    }
  }

  lemma InteriorPush(pts: seq<Coordinate>, stops: seq<Stop>, b: Stop, s: int)
    requires InOrder(pts, stops + [b]) && InOrder(pts, stops) && 0 <= b.segment < |pts|
    ensures Interior(pts, stops + [b], s)
         == Interior(pts, stops, s) + if b.segment == s && !AtVertex(pts, b) then [b.coord] else []
  {
    assert (stops + [b])[..|stops|] == stops;
  }

  /** What one more node makes of the path up to its own segment. */
  lemma NodedPush(pts: seq<Coordinate>, stops: seq<Stop>, b: Stop)
    requires InOrder(pts, stops + [b]) && InOrder(pts, stops) && 0 <= b.segment < |pts|
    ensures Noded(pts, stops + [b], b.segment + 1) == Noded(pts, stops, b.segment) + [pts[b.segment]]
              + (Interior(pts, stops, b.segment) + if AtVertex(pts, b) then [] else [b.coord])
  {
    hide *;
    NodedLast(pts, stops + [b], b.segment + 1);
    NodedBefore(pts, stops, b, b.segment);
    InteriorPush(pts, stops, b, b.segment);
  }

  /** One more node on a later segment. */
  lemma StepOverVertices(pts: seq<Coordinate>, stops: seq<Stop>, a: Stop, b: Stop)
    requires InOrder(pts, stops + [b]) && InOrder(pts, stops) && 0 <= a.segment < b.segment < |pts|
    requires forall k :: 0 <= k < |stops| ==> stops[k].segment <= a.segment
    ensures Noded(pts, stops + [b], b.segment + 1) == Noded(pts, stops, a.segment + 1) + Piece(pts, a, b)[1..]
  {
    hide *;
    var n := a.segment + 1;
    var tail := if AtVertex(pts, b) then [] else [b.coord];
    calc {
      Noded(pts, stops + [b], b.segment + 1);
    == { NodedPush(pts, stops, b); InteriorPast(pts, stops, b.segment); NodedAfter(pts, stops, n, b.segment); }
      (Noded(pts, stops, n) + pts[n..b.segment]) + [pts[b.segment]] + ([] + tail);
    == { JoinOverVertices(Noded(pts, stops, n), pts[n..b.segment], [pts[b.segment]], tail); }
      Noded(pts, stops, n) + ((pts[n..b.segment] + [pts[b.segment]]) + tail);
    == { SliceLast(pts, n, b.segment); PieceTail(pts, a, b); }
      Noded(pts, stops, n) + Piece(pts, a, b)[1..];
    }
  }

  /** One more node on the segment of the last. */
  lemma StepOnSegment(pts: seq<Coordinate>, stops: seq<Stop>, a: Stop, b: Stop)
    requires InOrder(pts, stops + [b]) && InOrder(pts, stops) && 0 <= a.segment == b.segment < |pts| && !AtVertex(pts, b)
    ensures Noded(pts, stops + [b], b.segment + 1) == Noded(pts, stops, a.segment + 1) + Piece(pts, a, b)[1..]
  {
    hide *;
    calc {
      Noded(pts, stops + [b], b.segment + 1);
    == { NodedPush(pts, stops, b); }
      Noded(pts, stops, b.segment) + [pts[b.segment]] + (Interior(pts, stops, b.segment) + [b.coord]);
    == { JoinOnSegment(Noded(pts, stops, b.segment), [pts[b.segment]], Interior(pts, stops, b.segment), [b.coord]); }
      (Noded(pts, stops, b.segment) + [pts[b.segment]] + Interior(pts, stops, b.segment)) + [b.coord];
    == { NodedLast(pts, stops, b.segment + 1); }
      Noded(pts, stops, b.segment + 1) + [b.coord];
    == { PieceTail(pts, a, b); }
      Noded(pts, stops, b.segment + 1) + Piece(pts, a, b)[1..];
    }
  }

  /** One more node extends the noded path by its piece. */
  lemma NodedStep(pts: seq<Coordinate>, stops: seq<Stop>, a: Stop, b: Stop)
    requires InOrder(pts, stops + [b]) && InOrder(pts, stops)
    requires 0 <= a.segment <= b.segment < |pts| && (AtVertex(pts, b) ==> a.segment < b.segment)
    requires forall k :: 0 <= k < |stops| ==> stops[k].segment <= a.segment
    ensures Noded(pts, stops + [b], b.segment + 1) == Noded(pts, stops, a.segment + 1) + Piece(pts, a, b)[1..]
  {
    hide *;
    if a.segment < b.segment {
      StepOverVertices(pts, stops, a, b);
    } else {
      StepOnSegment(pts, stops, a, b);
    }
  }

  lemma NodedLast(pts: seq<Coordinate>, stops: seq<Stop>, m: nat)
    requires InOrder(pts, stops) && 0 < m <= |pts|
    ensures Noded(pts, stops, m) == Noded(pts, stops, m - 1) + [pts[m - 1]] + Interior(pts, stops, m - 1)
  {
  }

  lemma PieceTail(pts: seq<Coordinate>, a: Stop, b: Stop)
    requires 0 <= a.segment <= b.segment < |pts| && (AtVertex(pts, b) ==> a.segment < b.segment)
    ensures Piece(pts, a, b) != []
    ensures Piece(pts, a, b)[1..] == pts[a.segment + 1..b.segment + 1] + if AtVertex(pts, b) then [] else [b.coord]
    ensures a.segment == b.segment ==> Piece(pts, a, b)[1..] == [b.coord] && !AtVertex(pts, b)
  {
  }

  lemma SliceLast<T>(s: seq<T>, i: nat, j: nat)
    requires i <= j < |s|
    ensures s[i..j + 1] == s[i..j] + [s[j]]
  {
  }

  lemma JoinOverVertices<T>(n: seq<T>, mid: seq<T>, v: seq<T>, tail: seq<T>)
    ensures (n + mid) + v + ([] + tail) == n + ((mid + v) + tail)
  {
  }

  lemma JoinOnSegment<T>(n: seq<T>, v: seq<T>, i: seq<T>, tail: seq<T>)
    ensures n + v + (i + tail) == (n + v + i) + tail
  {
  }

  lemma PiecesLast(pts: seq<Coordinate>, stops: seq<Stop>, b: Stop)
    requires InOrder(pts, stops + [b]) && InOrder(pts, stops) && stops != []
    ensures 0 <= stops[|stops| - 1].segment <= b.segment < |pts|
    ensures Pieces(pts, stops + [b]) == Pieces(pts, stops) + [Piece(pts, stops[|stops| - 1], b)]
  {
    LastInOrder(pts, stops, b);
    assert (stops + [b])[..|stops|] == stops;
  }

  lemma GluedLast(start: Coordinate, pieces: seq<seq<Coordinate>>, p: seq<Coordinate>)
    requires p != [] && forall k :: 0 <= k < |pieces| ==> pieces[k] != []
    ensures forall k :: 0 <= k < |pieces + [p]| ==> (pieces + [p])[k] != []
    ensures Glued(start, pieces + [p]) == Glued(start, pieces) + p[1..]
  {
    assert (pieces + [p])[..|pieces|] == pieces;
  }

  lemma GluedOne(pts: seq<Coordinate>, stop: Stop)
    requires pts != [] && stop == Stop(pts[0], 0)
    ensures InOrder(pts, [stop]) && Pieces(pts, [stop]) == [] && Noded(pts, [stop], 1) == [pts[0]] == Glued(pts[0], [])
  {
    assert [stop][..0] == [];
    assert Interior(pts, [stop], 0) == [];
    assert Noded(pts, [stop], 0) == [];
  }

  lemma {:induction false} GluedPieces(pts: seq<Coordinate>, stops: seq<Stop>)
    requires InOrder(pts, stops) && stops != [] && pts != [] && stops[0] == Stop(pts[0], 0)
    ensures forall k :: 0 <= k < |Pieces(pts, stops)| ==> Pieces(pts, stops)[k] != []
    ensures 0 <= stops[|stops| - 1].segment < |pts|
    ensures Glued(stops[0].coord, Pieces(pts, stops)) == Noded(pts, stops, stops[|stops| - 1].segment + 1)
  {
    hide *;
    if |stops| == 1 {
      assert stops == [stops[0]];
      GluedOne(pts, stops[0]);
    } else {
      var front, last := stops[..|stops| - 1], stops[|stops| - 1];
      assert front + [last] == stops;
      LastInOrder(pts, front, last);
      GluedPieces(pts, front);
      PiecesLast(pts, front, last);
      PieceTail(pts, front[|front| - 1], last);
      GluedLast(stops[0].coord, Pieces(pts, front), Piece(pts, front[|front| - 1], last));
      NodedStep(pts, front, front[|front| - 1], last);
    }
  }

  /** Splitting loses nothing: the pieces glued together are the path with each node inserted once, at its place. */
  lemma SplitLosesNothing(pts: seq<Coordinate>, stops: seq<Stop>)
    requires InOrder(pts, stops) && SpansPath(pts, stops)
    ensures var pieces := Pieces(pts, stops);
            && (forall k :: 0 <= k < |pieces| ==> pieces[k] != [])
            && Glued(pts[0], pieces) == Noded(pts, stops, |pts|)
  {
    GluedPieces(pts, stops);
  }

  // ---------- splitting node by node ----------

  lemma FirstPieces(pts: seq<Coordinate>, stops: seq<Stop>)
    requires InOrder(pts, stops) && stops != []
    ensures InOrder(pts, stops[..1]) && Pieces(pts, stops[..1]) == []
  {
  }

  /** What the next node adds to the pieces. */
  lemma StepPieces(pts: seq<Coordinate>, done: seq<Stop>, b: Stop, list: seq<seq<Coordinate>>)
    requires InOrder(pts, done) && InOrder(pts, done + [b]) && done != []
    ensures 0 <= done[|done| - 1].segment <= b.segment < |pts|
    ensures list + Pieces(pts, done + [b]) == (list + Pieces(pts, done)) + [Piece(pts, done[|done| - 1], b)]
  {
    hide *;
    PiecesLast(pts, done, b);
    JoinOne(list, Pieces(pts, done), Piece(pts, done[|done| - 1], b));
  }

  lemma JoinOne<T>(a: seq<T>, b: seq<T>, x: T)
    ensures a + (b + [x]) == (a + b) + [x]
  {
  }

  lemma PrefixInOrder(pts: seq<Coordinate>, stops: seq<Stop>, k: nat)
    requires InOrder(pts, stops) && k <= |stops|
    ensures InOrder(pts, stops[..k])
    ensures k < |stops| ==> stops[..k + 1] == stops[..k] + [stops[k]]
  {
  }
}
