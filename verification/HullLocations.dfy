/** Points and hull rings: where a point lies, and which way the ring runs, against the ring's edges. */
module HullLocations {
  import opened Coordinates
  import opened HullGeometry
  import opened HullRings
  import opened RayCrossing
  import opened RingOrientation
  import AreaSums
  import ConvexHulls
  import Orientation
  import Paths

  /** Strictly on the inner side of every edge of a clockwise ring. */
  ghost predicate StrictlyRight(p: Coordinate, ring: seq<Coordinate>) {
    forall i :: 0 < i < |ring| ==> Cross(ring[i - 1], ring[i], p) < 0
  }

  /** Inside by the rightward ray. */
  ghost predicate Inside(p: Coordinate, ring: seq<Coordinate>) {
    !OnRing(p, ring) && |Crossings(p, ring)| % 2 == 1
  }

  /** The vertex before vertex i, skipping the repeated end. */
  ghost function Preceding(ring: seq<Coordinate>, i: nat): Coordinate
    requires 0 < i < |ring| && |ring| > 2
  {
    if i > 1 then ring[i - 2] else ring[|ring| - 2]
  }

  lemma EdgesAt(ring: seq<Coordinate>, points: set<Coordinate>, i: nat, q: Coordinate)
    requires HullRing(ring, points) && 0 < i < |ring| && q in points
    ensures Cross(ring[i], HullRings.Following(ring, i), q) <= 0
    ensures Cross(Preceding(ring, i), ring[i - 1], q) <= 0 && Cross(Preceding(ring, i), ring[i - 1], ring[i]) < 0
  {
    var j := if i + 1 < |ring| then i + 1 else 1;
    assert Cross(ring[j - 1], ring[j], q) <= 0;
    var k := if i > 1 then i - 1 else |ring| - 1;
    assert Cross(ring[k - 1], ring[k], q) <= 0 && Cross(ring[k - 1], ring[k], HullRings.Following(ring, k)) < 0;
  }

  // ---------- points in line with an edge ----------

  /** For displacements in line: cross products with a third one keep their ratio. */
  lemma InLine(dx: int, dy: int, ex: int, ey: int, gx: int, gy: int)
    requires dx * ey == dy * ex
    ensures dy * (gx * ey - gy * ex) == ey * (gx * dy - gy * dx)
    ensures dx * (gx * ey - gy * ex) == ex * (gx * dy - gy * dx)
  {
    assert dy * (gx * ey) == gx * (dy * ey) == ey * (gx * dy);
    assert dy * (gy * ex) == gy * (dy * ex) == gy * (dx * ey) == ey * (gy * dx);
    assert dx * (gx * ey) == gx * (dx * ey) == gx * (dy * ex) == ex * (gx * dy);
    assert dx * (gy * ex) == gy * (dx * ex) == ex * (gy * dx);
  }

  lemma SignOfFactor(s: int, e: int, u: int, v: int)
    requires s * u == e * v && s != 0
    ensures s * e > 0 && v > 0 ==> u > 0
    ensures s * e < 0 && v < 0 ==> u > 0
  {
    SignOfProduct(s, u);
    SignOfProduct(e, v);
    SignOfProduct(s, e);
  }

  lemma SignOfProduct(a: int, b: int)
    ensures a * b > 0 <==> (a > 0 && b > 0) || (a < 0 && b < 0)
    ensures a * b < 0 <==> (a > 0 && b < 0) || (a < 0 && b > 0)
  {
  }

  /** Past the end b of an edge after which the ring turns right, a point in line lies left of the next edge. */
  lemma PastEnd(a: Coordinate, b: Coordinate, w: Coordinate, q: Coordinate)
    requires Cross(a, b, w) < 0 && Cross(a, b, q) == 0
    requires (q.x - b.x) * (b.x - a.x) > 0 || (q.y - b.y) * (b.y - a.y) > 0
    ensures Cross(b, w, q) > 0
  {
    var dx, dy, ex, ey, fx, fy := b.x - a.x, b.y - a.y, q.x - b.x, q.y - b.y, w.x - b.x, w.y - b.y;
    assert Cross(a, b, q) == dx * ey - ex * dy;
    assert Cross(a, b, w) == dx * fy - fx * dy;
    CrossAtMiddle(b, w, q);
    InLine(dx, dy, ex, ey, fx, fy);
    var u, v := fx * ey - fy * ex, fx * dy - fy * dx;
    if ex * dx > 0 {
      SignOfFactor(dx, ex, u, v);
    } else {
      SignOfFactor(dy, ey, u, v);
    }
  }

  lemma CrossAtMiddle(b: Coordinate, w: Coordinate, q: Coordinate)
    ensures Cross(b, w, q) == (w.x - b.x) * (q.y - b.y) - (w.y - b.y) * (q.x - b.x)
  {
    var fx, fy, ex, ey := w.x - b.x, w.y - b.y, q.x - b.x, q.y - b.y;
    assert Cross(b, w, q) == fx * (ey - fy) - (ex - fx) * fy;
  }

  /** Before the start a of an edge at which the ring turns right, a point in line lies left of the edge before. */
  lemma BeforeStart(z: Coordinate, a: Coordinate, b: Coordinate, q: Coordinate)
    requires Cross(z, a, b) < 0 && Cross(a, b, q) == 0
    requires (q.x - a.x) * (b.x - a.x) < 0 || (q.y - a.y) * (b.y - a.y) < 0
    ensures Cross(z, a, q) > 0
  {
    var dx, dy, ex, ey, gx, gy := b.x - a.x, b.y - a.y, q.x - a.x, q.y - a.y, a.x - z.x, a.y - z.y;
    CrossAtMiddle(a, b, q);
    assert Cross(z, a, b) == gx * dy - dx * gy;
    assert Cross(z, a, q) == gx * ey - ex * gy;
    InLine(dx, dy, ex, ey, gx, gy);
    var u, v := gx * ey - gy * ex, gx * dy - gy * dx;
    if ex * dx < 0 {
      SignOfFactor(dx, ex, u, v);
    } else {
      SignOfFactor(dy, ey, u, v);
    }
  }

  /** A point of the hull in line with an edge lies on the edge. */
  lemma InLineIsOnEdge(ring: seq<Coordinate>, points: set<Coordinate>, i: nat, q: Coordinate)
    requires HullRing(ring, points) && 0 < i < |ring| && q in points && Cross(ring[i - 1], ring[i], q) == 0
    ensures OnSegment(q, ring[i - 1], ring[i])
  {
    var a, b := ring[i - 1], ring[i];
    if !OnSegment(q, a, b) {
      EdgesAt(ring, points, i, q);
      OffSegment(q, a, b);
      if (q.x - b.x) * (b.x - a.x) > 0 || (q.y - b.y) * (b.y - a.y) > 0 {
        assert Cross(a, b, HullRings.Following(ring, i)) < 0;
        PastEnd(a, b, HullRings.Following(ring, i), q);
      } else {
        BeforeStart(Preceding(ring, i), a, b, q);
      }
      assert false;
    }
  }

  lemma OffSegment(q: Coordinate, a: Coordinate, b: Coordinate)
    requires Cross(a, b, q) == 0 && a != b && !OnSegment(q, a, b)
    ensures || (q.x - b.x) * (b.x - a.x) > 0 || (q.y - b.y) * (b.y - a.y) > 0
            || (q.x - a.x) * (b.x - a.x) < 0 || (q.y - a.y) * (b.y - a.y) < 0
  {
    CrossAtMiddle(a, b, q);
    SignOfProduct(q.x - b.x, b.x - a.x);
    SignOfProduct(q.y - b.y, b.y - a.y);
    SignOfProduct(q.x - a.x, b.x - a.x);
    SignOfProduct(q.y - a.y, b.y - a.y);
    Product(b.x - a.x, q.y - a.y);
    Product(b.y - a.y, q.x - a.x);
  }

  // ---------- the rightward ray of a point inside ----------

  /** The segment comes down through the height of p. */
  ghost predicate Falls(p: Coordinate, a: Coordinate, b: Coordinate) {
    a.y > p.y && b.y <= p.y
  }

  /** From a vertex above p to a later one that is not, some segment falls. */
  lemma {:induction false} SomeFalls(p: Coordinate, ring: seq<Coordinate>, u: nat, l: nat) returns (i: nat)
    requires u < l < |ring| && ring[u].y > p.y && ring[l].y <= p.y
    ensures u < i <= l && Falls(p, ring[i - 1], ring[i])
    decreases l - u
  {
    if ring[u + 1].y > p.y {
      i := SomeFalls(p, ring, u + 1, l);
    } else {
      i := u + 1;
    }
  }

  lemma SomeFallsAround(p: Coordinate, ring: seq<Coordinate>, u: nat, l: nat) returns (i: nat)
    requires Paths.IsClosed(ring) && u < |ring| && l < |ring| && ring[u].y > p.y && ring[l].y <= p.y
    ensures 0 < i < |ring| && Falls(p, ring[i - 1], ring[i])
  {
    if u < l {
      i := SomeFalls(p, ring, u, l);
    } else if ring[0].y > p.y {
      i := SomeFalls(p, ring, 0, l);
    } else {
      i := SomeFalls(p, ring, u, |ring| - 1);
    }
  }

  /** Relations between the four turns of four points. */
  lemma FourTurns(a: Coordinate, b: Coordinate, c: Coordinate, d: Coordinate, y: int)
    ensures Cross(b, c, d) + Cross(d, a, b) == Cross(c, d, a) + Cross(a, b, c)
    ensures Cross(b, c, d) * (a.y - y) + Cross(d, a, b) * (c.y - y) == Cross(c, d, a) * (b.y - y) + Cross(a, b, c) * (d.y - y)
  {
    FourTurnsFrom(a.x, a.y, b.x, b.y, c.x, c.y, d.x, d.y);
    var ta, tb, tc, td := Cross(b, c, d), Cross(c, d, a), Cross(d, a, b), Cross(a, b, c);
    assert ta * (a.y - y) + tc * (c.y - y) - tb * (b.y - y) - td * (d.y - y)
        == ta * a.y + tc * c.y - tb * b.y - td * d.y - y * (ta + tc - tb - td);
  }

  lemma FourTurnsFrom(ax: int, ay: int, bx: int, b_y: int, cx: int, cy: int, dx: int, dy: int)
    ensures var a, b, c, d := Coordinate(ax, ay), Coordinate(bx, b_y), Coordinate(cx, cy), Coordinate(dx, dy);
            && Cross(b, c, d) + Cross(d, a, b) == Cross(c, d, a) + Cross(a, b, c)
            && Cross(b, c, d) * ay + Cross(d, a, b) * cy == Cross(c, d, a) * b_y + Cross(a, b, c) * dy
  {
  }

  /** Two falling segments with all their ends right of both lie in one line. */
  lemma FallingInLine(p: Coordinate, a: Coordinate, b: Coordinate, c: Coordinate, d: Coordinate)
    requires Falls(p, a, b) && Falls(p, c, d)
    requires Cross(a, b, c) <= 0 && Cross(a, b, d) <= 0 && Cross(c, d, a) <= 0 && Cross(c, d, b) <= 0
    ensures Cross(a, b, c) == 0 && Cross(c, d, a) == 0
  {
    Orientation.TurnSymmetry(c, d, b);
    Orientation.TurnSymmetry(a, b, d);
    var ta, tb, tc, td := Cross(b, c, d), Cross(c, d, a), Cross(d, a, b), Cross(a, b, c);
    FourTurns(a, b, c, d, p.y);
    hide Cross;
    Product(ta, a.y - p.y);
    Product(tc, c.y - p.y);
    Product(tb, b.y - p.y);
    Product(td, d.y - p.y);
  }

  /** A hull ring has only one falling segment. */
  lemma OneFalls(p: Coordinate, ring: seq<Coordinate>, points: set<Coordinate>, i: nat, j: nat)
    requires HullRing(ring, points) && 0 < i < |ring| && 0 < j < |ring|
    requires Falls(p, ring[i - 1], ring[i]) && Falls(p, ring[j - 1], ring[j])
    ensures i == j
  {
    hide Cross;
    var a, b, c, d := ring[i - 1], ring[i], ring[j - 1], ring[j];
    RingPointsIn(ring, points, i);
    RingPointsIn(ring, points, j);
    FallingInLine(p, a, b, c, d);
    if i != j {
      assert a != c;
      if c.y > a.y {
        SignOfProduct(c.y - a.y, b.y - a.y);
        EdgesAt(ring, points, i, c);
        BeforeStart(Preceding(ring, i), a, b, c);
      } else if c.y < a.y {
        SignOfProduct(a.y - c.y, d.y - c.y);
        EdgesAt(ring, points, j, a);
        BeforeStart(Preceding(ring, j), c, d, a);
      } else {
        LevelInLine(a, b, c);
      }
      assert false;
    }
  }

  lemma LevelInLine(a: Coordinate, b: Coordinate, c: Coordinate)
    requires Cross(a, b, c) == 0 && a.y == c.y && a.y != b.y
    ensures a == c
  {
    CrossAtMiddle(a, b, c);
    Product(b.y - a.y, c.x - a.x);
  }

  lemma RingPointsIn(ring: seq<Coordinate>, points: set<Coordinate>, i: nat)
    requires HullRing(ring, points) && 0 < i < |ring|
    ensures ring[i - 1] in points && ring[i] in points
    ensures forall q :: q in points ==> Cross(ring[i - 1], ring[i], q) <= 0
  {
    assert ring[i - 1] in Points(ring) && ring[i] in Points(ring);
  }

  /** At an extreme vertex, turning right, a point on its far side is not right of both edges. */
  lemma NotRightOfBoth(u: Coordinate, v: Coordinate, w: Coordinate, p: Coordinate)
    requires Cross(u, v, w) < 0 && Cross(u, v, p) < 0 && Cross(v, w, p) < 0
    ensures u.y >= v.y && w.y >= v.y ==> p.y >= v.y
    ensures u.y <= v.y && w.y <= v.y ==> p.y < v.y
  {
    var dx, dy, fx, fy, ex, ey := v.x - u.x, v.y - u.y, w.x - v.x, w.y - v.y, p.x - v.x, p.y - v.y;
    var de, fe, df := dx * ey - ex * dy, fx * ey - ex * fy, dx * fy - fx * dy;
    assert Cross(u, v, p) == de && Cross(u, v, w) == df;
    CrossAtMiddle(v, w, p);
    assert fy * de - dy * fe == ey * df by {
      Expand(dx, dy, ex, ey, fx, fy);
    }
    hide Cross;
    Product(fy, de); Product(dy, fe); Product(ey, df);
  }

  lemma Expand(dx: int, dy: int, ex: int, ey: int, fx: int, fy: int)
    ensures fy * (dx * ey - ex * dy) - dy * (fx * ey - ex * fy) == ey * (dx * fy - fx * dy)
  {
  }

  /** A place of the ring with the least y, and one with the greatest. */
  lemma {:induction false} LowestAndHighest(ring: seq<Coordinate>, n: nat) returns (l: nat, u: nat)
    requires 1 < n <= |ring|
    ensures 0 < l < n && 0 < u < n && forall i :: 0 < i < n ==> ring[l].y <= ring[i].y <= ring[u].y
  {
    if n == 2 {
      l, u := 1, 1;
    } else {
      l, u := LowestAndHighest(ring, n - 1);
      if ring[n - 1].y < ring[l].y {
        l := n - 1;
      }
      if ring[n - 1].y > ring[u].y {
        u := n - 1;
      }
    }
  }

  /** A point strictly right of all edges is neither above nor below all vertices. */
  lemma VerticesOnBothSides(p: Coordinate, ring: seq<Coordinate>, points: set<Coordinate>) returns (u: nat, l: nat)
    requires HullRing(ring, points) && StrictlyRight(p, ring)
    ensures u < |ring| && l < |ring| && ring[u].y > p.y && ring[l].y <= p.y
  {
    l, u := LowestAndHighest(ring, |ring|);
    ExtremeVertex(p, ring, points, l);
    ExtremeVertex(p, ring, points, u);
  }

  lemma ExtremeVertex(p: Coordinate, ring: seq<Coordinate>, points: set<Coordinate>, m: nat)
    requires HullRing(ring, points) && StrictlyRight(p, ring) && 0 < m < |ring|
    ensures (forall i :: 0 < i < |ring| ==> ring[m].y <= ring[i].y) ==> p.y >= ring[m].y
    ensures (forall i :: 0 < i < |ring| ==> ring[i].y <= ring[m].y) ==> p.y < ring[m].y
  {
    var j := if m + 1 < |ring| then m + 1 else 1;
    var k := if m > 1 then m - 1 else |ring| - 1;
    assert Cross(ring[j - 1], ring[j], p) < 0 && Cross(ring[m - 1], ring[m], p) < 0;
    assert ring[m - 1] == ring[k] && ring[j - 1] == ring[m];
    NotRightOfBoth(ring[k], ring[m], ring[j], p);
  }

  // ---------- the location in a hull ring ----------

  lemma RayMeetsFalling(p: Coordinate, ring: seq<Coordinate>, i: nat)
    requires StrictlyRight(p, ring) && 0 < i < |ring|
    ensures MeetsAt(p, ring, i) <==> Falls(p, ring[i - 1], ring[i])
  {
    MeetsIff(p, ring[i - 1], ring[i]);
  }

  /** A point strictly right of all edges is inside: its ray meets one segment. */
  lemma StrictlyRightIsInside(p: Coordinate, ring: seq<Coordinate>, points: set<Coordinate>)
    requires HullRing(ring, points) && StrictlyRight(p, ring)
    ensures Inside(p, ring)
  {
    hide MeetsAt, Cross, HullRing, Falls;
    var u, l := VerticesOnBothSides(p, ring, points);
    HullIsClosed(ring, points);
    var i := SomeFallsAround(p, ring, u, l);
    forall j | 0 < j < |ring|
      ensures MeetsAt(p, ring, j) <==> j == i
    {
      RayMeetsFalling(p, ring, j);
      if Falls(p, ring[j - 1], ring[j]) {
        OneFalls(p, ring, points, i, j);
      }
    }
    assert Crossings(p, ring) == {i};
    NotOnRing(p, ring);
  }

  lemma HullIsClosed(ring: seq<Coordinate>, points: set<Coordinate>)
    requires HullRing(ring, points)
    ensures Paths.IsClosed(ring) && |ring| >= 4
  {
  }

  lemma NotOnRing(p: Coordinate, ring: seq<Coordinate>)
    requires StrictlyRight(p, ring)
    ensures !OnRing(p, ring)
  {
  }

  lemma HeldBySpan(h: HalfPlane, S: set<Coordinate>, p: Coordinate)
    requires Spans(S, {p}) && Holds(h, S)
    ensures Excess(h, p) <= 0
  {
    assert Holds(h, {p}) && p in {p};
  }

  /** A point beyond some half-plane that holds a ring is outside. */
  lemma BeyondHalfPlane(p: Coordinate, ring: seq<Coordinate>, h: HalfPlane)
    requires Paths.IsClosed(ring) && Holds(h, Points(ring)) && Excess(h, p) > 0
    ensures !OnRing(p, ring) && |Crossings(p, ring)| % 2 == 0
  {
    hide OnRing, Crossings, Excess;
    CrossingsAreCounted(p, ring);
    if LocationBy(RightRay(p), p, ring) != EXTERIOR {
      ConvexHulls.InRingIsSpanned(p, ring);
      HeldBySpan(h, Points(ring), p);
      assert false;
    }
  }

  /** A point inside is strictly right of every edge. */
  lemma InsideIsStrictlyRight(p: Coordinate, ring: seq<Coordinate>, points: set<Coordinate>)
    requires HullRing(ring, points) && Inside(p, ring)
    ensures StrictlyRight(p, ring)
  {
    HullIsClosed(ring, points);
    HullOfOwnPoints(ring, points, p);
    forall i | 0 < i < |ring|
      ensures Cross(ring[i - 1], ring[i], p) < 0
    {
      if Cross(ring[i - 1], ring[i], p) == 0 {
        InLineIsOnEdge(ring, Points(ring) + {p}, i, p);
        assert false;
      }
    }
  }

  /** With a point inside it, a hull ring is the hull ring of its vertices and that point. */
  lemma HullOfOwnPoints(ring: seq<Coordinate>, points: set<Coordinate>, p: Coordinate)
    requires HullRing(ring, points) && Inside(p, ring)
    ensures HullRing(ring, Points(ring) + {p})
  {
    hide Cross, TurnsRight;
    forall i | 0 < i < |ring|
      ensures Cross(ring[i - 1], ring[i], p) <= 0
    {
      var h := RightOf(ring[i - 1], ring[i]);
      RightOfExcess(ring[i - 1], ring[i], p);
      if Excess(h, p) > 0 {
        forall q | q in Points(ring)
          ensures Excess(h, q) <= 0
        {
          RightOfExcess(ring[i - 1], ring[i], q);
        }
        BeyondHalfPlane(p, ring, h);
        assert false;
      }
    }
  }

  /** For a hull ring the point is inside exactly if it is strictly on the inner side of every edge. */
  lemma InsideHullIff(p: Coordinate, ring: seq<Coordinate>, points: set<Coordinate>)
    requires HullRing(ring, points)
    ensures Inside(p, ring) <==> StrictlyRight(p, ring)
  {
    hide HullRing, Inside, StrictlyRight;
    if Inside(p, ring) {
      InsideIsStrictlyRight(p, ring, points);
    }
    if StrictlyRight(p, ring) {
      StrictlyRightIsInside(p, ring, points);
    }
  }

  /** The same in either direction and from any vertex on. */
  lemma InsideHullAnywayIff(p: Coordinate, ring: seq<Coordinate>, points: set<Coordinate>, k: nat)
    requires HullRing(ring, points) && k < |ring|
    ensures Inside(p, Paths.StartingAt(ring, k)) <==> StrictlyRight(p, ring)
    ensures Inside(p, Paths.Reversed(Paths.StartingAt(ring, k))) <==> StrictlyRight(p, ring)
  {
    hide HullRing, StrictlyRight, Crossings, OnRing;
    HullIsClosed(ring, points);
    InsideHullIff(p, ring, points);
    var turned := Paths.StartingAt(ring, k);
    LocationStartingAt(p, ring, k);
    LocationReversed(p, turned);
    CrossingsAreCounted(p, ring);
    CrossingsAreCounted(p, turned);
    CrossingsAreCounted(p, Paths.Reversed(turned));
  }

  // ---------- the direction of a hull ring ----------

  lemma HullNeighbours(ring: seq<Coordinate>, points: set<Coordinate>, h: nat)
    requires HullRing(ring, points) && h < |ring| - 1
    ensures var c := Open(ring); Cross(PrevOf(c, h), c[h], NextOf(c, h)) < 0
  {
    hide Cross, PrevOf, NextOf;
    var n := |ring| - 1;
    var c := Open(ring);
    PrevFound(c, h, if h > 0 then h - 1 else n - 1);
    NextFound(c, h, if h + 1 < n then h + 1 else 0);
    var m := if h > 0 then h else n;
    assert Cross(ring[m - 1], ring[m], HullRings.Following(ring, m)) < 0;
  }

  /** A hull ring is never counter-clockwise, and its reverse always is. */
  lemma HullOrientation(ring: seq<Coordinate>, points: set<Coordinate>)
    requires HullRing(ring, points)
    ensures |ring| >= 4 && !CounterClockwise(ring) && CounterClockwise(Paths.Reversed(ring))
  {
    hide Cross, HullRing, PrevOf, NextOf, Paths.Reversed, Open;
    HullIsClosed(ring, points);
    var c := Open(ring);
    HullNeighbours(ring, points, HighIndex(c));
    HullNeighbours(ring, points, LastHighIndex(c));
    OrientationReversed(ring);
    TurnJudged(PrevOf(c, HighIndex(c)), c[HighIndex(c)], NextOf(c, HighIndex(c)));
    TurnJudged(PrevOf(c, LastHighIndex(c)), c[LastHighIndex(c)], NextOf(c, LastHighIndex(c)));
  }

  lemma TurnJudged(u: Coordinate, v: Coordinate, w: Coordinate)
    requires Cross(u, v, w) < 0
    ensures !CCWAt(u, v, w) && Bends(u, v, w)
  {
  }

  /** A clockwise triangle is a hull ring. */
  lemma TriangleIsHull(a: Coordinate, b: Coordinate, c: Coordinate)
    requires Cross(a, b, c) < 0
    ensures HullRing([a, b, c, a], {a, b, c})
  {
    Orientation.TurnSymmetry(a, b, c);
    NoTurnAtSame(a, b); NoTurnAtSame(b, c); NoTurnAtSame(c, a);
    TriangleDistinct(a, b, c);
    hide Cross;
    var ring := [a, b, c, a];
    assert Points(ring) == {a, b, c};
    assert ring[0] == a && ring[1] == b && ring[2] == c && ring[3] == a;
  }

  lemma NoTurnAtSame(a: Coordinate, b: Coordinate)
    ensures Cross(a, b, a) == 0 && Cross(a, b, b) == 0
  {
  }

  lemma TriangleDistinct(a: Coordinate, b: Coordinate, c: Coordinate)
    requires Cross(a, b, c) != 0
    ensures a != b && b != c && a != c
  {
  }

  /** A triangle is counter-clockwise exactly if it turns left. */
  lemma TriangleOrientation(a: Coordinate, b: Coordinate, c: Coordinate)
    requires Cross(a, b, c) != 0
    ensures CounterClockwise([a, b, c, a]) <==> Cross(a, b, c) > 0
  {
    hide Cross, CounterClockwise, HullRing;
    Orientation.TurnSymmetry(a, b, c);
    if Cross(a, b, c) < 0 {
      TriangleIsHull(a, b, c);
      HullOrientation([a, b, c, a], {a, b, c});
    } else {
      TriangleIsHull(a, c, b);
      HullOrientation([a, c, b, a], {a, c, b});
      assert Paths.Reversed([a, c, b, a]) == [a, b, c, a];
    }
  }

  /** The shoelace sum of a triangle is its turn, and its moments are that times the sum of the corners. */
  lemma TriangleSums(a: Coordinate, b: Coordinate, c: Coordinate)
    ensures Paths.PathSum(AreaSums.Shoelace, [a, b, c, a]) == Cross(a, b, c)
    ensures Paths.PathSum(AreaSums.MomentX, [a, b, c, a]) == Cross(a, b, c) * (a.x + b.x + c.x)
    ensures Paths.PathSum(AreaSums.MomentY, [a, b, c, a]) == Cross(a, b, c) * (a.y + b.y + c.y)
  {
    hide Paths.PathSum, AreaSums.Shoelace, AreaSums.MomentX, AreaSums.MomentY, AreaSums.Area2, Cross;
    SumOfThree(AreaSums.Shoelace, a, b, c);
    SumOfThree(AreaSums.MomentX, a, b, c);
    SumOfThree(AreaSums.MomentY, a, b, c);
    AreaSums.FanTerms(a, b, c);
    TermsNegate(a, b);
  }

  lemma TermsNegate(a: Coordinate, b: Coordinate)
    ensures AreaSums.Shoelace(b, a) == -AreaSums.Shoelace(a, b)
    ensures AreaSums.MomentX(b, a) == -AreaSums.MomentX(a, b) && AreaSums.MomentY(b, a) == -AreaSums.MomentY(a, b)
    ensures forall c :: AreaSums.Area2(a, b, c) == Cross(a, b, c)
  {
    var d := AreaSums.Shoelace(a, b);
    assert AreaSums.Shoelace(b, a) == -d;
    assert -d * (b.x + a.x) == -(d * (a.x + b.x)) && -d * (b.y + a.y) == -(d * (a.y + b.y));
  }

  lemma SumOfThree(f: (Coordinate, Coordinate) -> int, a: Coordinate, b: Coordinate, c: Coordinate)
    ensures Paths.PathSum(f, [a, b, c, a]) == f(a, b) + f(b, c) + f(c, a)
  {
    hide Paths.PathSum;
    var path := [a, b, c, a];
    AreaSums.PathSumPrefix(f, path, 1);
    AreaSums.PathSumPrefix(f, path, 2);
    AreaSums.PathSumPrefix(f, path, 3);
    assert path[..4] == path;
  }

  /** The shoelace sum of a hull ring is negative. */
  lemma HullArea(ring: seq<Coordinate>, points: set<Coordinate>)
    requires HullRing(ring, points)
    ensures Paths.PathSum(AreaSums.Shoelace, ring) < 0
  {
    hide Cross, HullRing, Paths.PathSum, AreaSums.Shoelace, AreaSums.FanArea;
    HullIsClosed(ring, points);
    AreaSums.FanIsShoelace(ring[0], ring);
    FanDescends(ring, points, |ring|);
    assert ring[..|ring|] == ring;
  }

  /** The fan from the first vertex only adds clockwise triangles. */
  lemma {:induction false} FanDescends(ring: seq<Coordinate>, points: set<Coordinate>, n: nat)
    requires HullRing(ring, points) && 2 <= n <= |ring|
    ensures Paths.PathSum(AreaSums.FanArea(ring[0]), ring[..n]) <= if n == 2 then 0 else -1
  {
    hide Cross, HullRing, Paths.PathSum, AreaSums.FanArea;
    HullIsClosed(ring, points);
    AreaSums.PathSumPrefix(AreaSums.FanArea(ring[0]), ring, n - 1);
    FanTermIsTurn(ring[0], ring[n - 2], ring[n - 1]);
    FanTermSign(ring, points, n - 1);
    if n > 2 {
      FanDescends(ring, points, n - 1);
    }
  }

  lemma FanTermIsTurn(base: Coordinate, a: Coordinate, b: Coordinate)
    ensures AreaSums.FanArea(base)(a, b) == Cross(a, b, base)
  {
  }

  lemma FanTermSign(ring: seq<Coordinate>, points: set<Coordinate>, i: nat)
    requires HullRing(ring, points) && 0 < i < |ring|
    ensures Cross(ring[i - 1], ring[i], ring[0]) <= 0
    ensures i == 2 ==> Cross(ring[i - 1], ring[i], ring[0]) < 0
  {
    RingPointsIn(ring, points, 1);
    RingPointsIn(ring, points, i);
    if i == 2 {
      Orientation.TurnSymmetry(ring[0], ring[1], ring[2]);
      assert Cross(ring[0], ring[1], HullRings.Following(ring, 1)) < 0;
    }
  }

  /** So a shell that is a hull ring, run either way, counts with the size of its area. */
  lemma HullContribution(ring: seq<Coordinate>, points: set<Coordinate>)
    requires HullRing(ring, points)
    ensures |ring| >= 4 && AreaSums.Contribution(AreaSums.Shoelace, ring) > 0
    ensures AreaSums.Contribution(AreaSums.Shoelace, Paths.Reversed(ring)) == AreaSums.Contribution(AreaSums.Shoelace, ring)
  {
    hide HullRing, CounterClockwise, Paths.PathSum, Paths.Reversed, AreaSums.Shoelace, AreaSums.MomentX, AreaSums.MomentY;
    HullIsClosed(ring, points);
    HullOrientation(ring, points);
    HullArea(ring, points);
    AreaSums.ReversedSums(ring);
  }
}
