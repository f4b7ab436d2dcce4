/** Facts about turns, half-planes and the radial order that the convex hull rests on. */
module HullGeometry {
  import opened Coordinates

  // ---------- half-planes and what a point set spans ----------

  datatype HalfPlane = HalfPlane(a: int, b: int, c: int)

  /** How far p lies outside the half-plane; at most zero inside. */
  function Excess(h: HalfPlane, p: Coordinate): int {
    h.a * p.x + h.b * p.y - h.c
  }

  ghost predicate Holds(h: HalfPlane, points: set<Coordinate>) {
    forall p :: p in points ==> Excess(h, p) <= 0
  }

  /** Every half-plane that holds S holds T: no point of T lies outside the convex hull of S. */
  ghost predicate Spans(S: set<Coordinate>, T: set<Coordinate>) {
    forall h :: Holds(h, S) ==> Holds(h, T)
  }

  ghost function Points(s: seq<Coordinate>): set<Coordinate> {
    set p | p in s
  }

  /** The points to the right of, or on, the line from a to b. */
  ghost function RightOf(a: Coordinate, b: Coordinate): HalfPlane {
    HalfPlane(a.y - b.y, b.x - a.x, (b.x - a.x) * b.y - (b.y - a.y) * b.x)
  }

  lemma RightOfExcess(a: Coordinate, b: Coordinate, p: Coordinate)
    ensures Excess(RightOf(a, b), p) == Cross(a, b, p)
  {
    assert (b.x - a.x) * (p.y - b.y) == (b.x - a.x) * p.y - (b.x - a.x) * b.y;
    assert (p.x - b.x) * (b.y - a.y) == (b.y - a.y) * p.x - (b.y - a.y) * b.x;
    assert (a.y - b.y) * p.x == -((b.y - a.y) * p.x);
  }

  // ---------- sign reasoning ----------

  lemma NonPositiveFactor(a: int, b: int)
    requires a > 0 && a * b <= 0
    ensures b <= 0
  {
  }

  lemma Product(a: int, b: int)
    ensures a >= 0 && b >= 0 ==> a * b >= 0
    ensures a <= 0 && b <= 0 ==> a * b >= 0
    ensures a >= 0 && b <= 0 ==> a * b <= 0
    ensures a <= 0 && b >= 0 ==> a * b <= 0
    ensures a * b == 0 ==> a == 0 || b == 0
  {
  }

  // ---------- determinants of four and five points ----------

  /** The Pluecker relation between the six turns seen from e. */
  lemma Pluecker(e: Coordinate, a: Coordinate, b: Coordinate, c: Coordinate, d: Coordinate)
    ensures Cross(e, a, b) * Cross(e, c, d) + Cross(e, b, c) * Cross(e, a, d) + Cross(e, c, a) * Cross(e, b, d) == 0
  {
    VectorCross(e, a, b); VectorCross(e, c, d); VectorCross(e, b, c);
    VectorCross(e, a, d); VectorCross(e, c, a); VectorCross(e, b, d);
    VectorPluecker(a.x - e.x, a.y - e.y, b.x - e.x, b.y - e.y, c.x - e.x, c.y - e.y, d.x - e.x, d.y - e.y);
  }

  lemma VectorCross(e: Coordinate, a: Coordinate, b: Coordinate)
    ensures Cross(e, a, b) == (a.x - e.x) * (b.y - e.y) - (b.x - e.x) * (a.y - e.y)
  {
  }

  lemma VectorPluecker(a1: int, a2: int, b1: int, b2: int, c1: int, c2: int, d1: int, d2: int)
    ensures (a1 * b2 - b1 * a2) * (c1 * d2 - d1 * c2) + (b1 * c2 - c1 * b2) * (a1 * d2 - d1 * a2)
            + (c1 * a2 - a1 * c2) * (b1 * d2 - d1 * b2) == 0
  {
  }

  /** Four points are affinely dependent, with the four triangles as coefficients. */
  lemma Affine(h: HalfPlane, o: Coordinate, a: Coordinate, b: Coordinate, r: Coordinate)
    ensures -Cross(o, a, r) * Excess(h, b)
            == Cross(a, b, r) * Excess(h, o) - Cross(o, b, r) * Excess(h, a) - Cross(o, a, b) * Excess(h, r)
    ensures -Cross(o, a, r) == Cross(a, b, r) - Cross(o, b, r) - Cross(o, a, b)
  {
  }

  // ---------- the radial order ----------

  /** p is at or above o, and not to its left when level with it. */
  predicate Above(o: Coordinate, p: Coordinate) {
    p.y > o.y || (p.y == o.y && p.x >= o.x)
  }

  function Distance2(o: Coordinate, p: Coordinate): int {
    (p.x - o.x) * (p.x - o.x) + (p.y - o.y) * (p.y - o.y)
  }

  /** Clockwise about o; on one ray the nearer point comes first. */
  function PolarCompare(o: Coordinate, p: Coordinate, q: Coordinate): int {
    if Cross(o, p, q) > 0 then 1
    else if Cross(o, p, q) < 0 then -1
    else if Distance2(o, p) < Distance2(o, q) then -1
    else if Distance2(o, p) > Distance2(o, q) then 1
    else 0
  }

  predicate RadiallyBefore(o: Coordinate, p: Coordinate, q: Coordinate) {
    PolarCompare(o, p, q) == -1
  }

  /** About a point at or below all others, `PolarCompare` is a total order on coordinates. */
  lemma PolarTotalOrder(o: Coordinate, p: Coordinate, q: Coordinate, r: Coordinate)
    requires Above(o, p) && Above(o, q) && Above(o, r)
    ensures PolarCompare(o, p, q) == -PolarCompare(o, q, p)
    ensures PolarCompare(o, p, q) == 0 <==> p == q
    ensures PolarCompare(o, p, q) <= 0 && PolarCompare(o, q, r) <= 0 ==> PolarCompare(o, p, r) <= 0
  {
    VectorCross(o, p, q); VectorCross(o, q, p); VectorCross(o, q, r); VectorCross(o, p, r);
    var p1, p2, q1, q2, r1, r2 := p.x - o.x, p.y - o.y, q.x - o.x, q.y - o.y, r.x - o.x, r.y - o.y;
    if PolarCompare(o, p, q) == 0 {
      SameRaySameLength(p1, p2, q1, q2);
    }
    if PolarCompare(o, p, q) <= 0 && PolarCompare(o, q, r) <= 0 {
      RadialTransitive(p1, p2, q1, q2, r1, r2);
    }
  }

  /** Two vectors of the upper half-plane on one ray and of one length are the same. */
  lemma SameRaySameLength(p1: int, p2: int, q1: int, q2: int)
    requires p2 > 0 || (p2 == 0 && p1 >= 0)
    requires q2 > 0 || (q2 == 0 && q1 >= 0)
    requires p1 * q2 == q1 * p2 && p1 * p1 + p2 * p2 == q1 * q1 + q2 * q2
    ensures p1 == q1 && p2 == q2
  {
    if p2 == 0 {
      Product(p1, q2);
      SquareOrder(p1, q1);
    } else if q2 == 0 {
      Product(q1, p2);
      SquareOrder(p1, q1);
    } else {
      var n := p1 * p1 + p2 * p2;
      assert (p1 * q2) * (p1 * q2) == (q1 * p2) * (q1 * p2);
      assert n * (q2 * q2) == n * (p2 * p2) by {
        assert (p1 * q2) * (p1 * q2) == (p1 * p1) * (q2 * q2);
        assert (q1 * p2) * (q1 * p2) == (q1 * q1) * (p2 * p2);
      }
      assert n > 0 by { assert p2 * p2 > 0; }
      assert q2 * q2 == p2 * p2;
      SquareOrder(p2, q2);
      assert p2 * (p1 - q1) == 0;
    }
  }

  lemma SquareOrder(a: int, b: int)
    ensures a * a >= 0 && (a * a == 0 <==> a == 0)
    ensures a >= 0 && b >= 0 ==> (a * a < b * b <==> a < b)
  {
    if a >= 0 && b >= 0 {
      assert b * b - a * a == (b - a) * (b + a);
    }
  }

  lemma RadialTransitive(p1: int, p2: int, q1: int, q2: int, r1: int, r2: int)
    requires p2 > 0 || (p2 == 0 && p1 >= 0)
    requires q2 > 0 || (q2 == 0 && q1 >= 0)
    requires r2 > 0 || (r2 == 0 && r1 >= 0)
    requires p1 * q2 - q1 * p2 < 0 || (p1 * q2 - q1 * p2 == 0 && p1 * p1 + p2 * p2 <= q1 * q1 + q2 * q2)
    requires q1 * r2 - r1 * q2 < 0 || (q1 * r2 - r1 * q2 == 0 && q1 * q1 + q2 * q2 <= r1 * r1 + r2 * r2)
    ensures p1 * r2 - r1 * p2 < 0 || (p1 * r2 - r1 * p2 == 0 && p1 * p1 + p2 * p2 <= r1 * r1 + r2 * r2)
  {
    SquareOrder(p1, p1); SquareOrder(p2, p2); SquareOrder(q1, q1);
    SquareOrder(q2, q2); SquareOrder(r1, r1); SquareOrder(r2, r2);
    var pq, qr, pr := p1 * q2 - q1 * p2, q1 * r2 - r1 * q2, p1 * r2 - r1 * p2;
    if q2 > 0 {
      assert q2 * pr == r2 * pq + p2 * qr;
      Product(r2, pq); Product(p2, qr);
      NonPositiveFactor(q2, pr);
      if pr == 0 {
        Product(p1, q2);
        Product(r1, q2);
      }
    } else {
      Product(q1, r2); Product(q1, p2); Product(r1, p2);
      if q1 > 0 { assert r2 == 0; }
    }
  }

  // ---------- chains of turns about a lowest point o ----------

  /** p precedes q clockwise about o, or lies on the same ray nearer to o. */
  ghost predicate Precedes(o: Coordinate, p: Coordinate, q: Coordinate) {
    Above(o, p) && Above(o, q) && p != o && q != o && RadiallyBefore(o, p, q)
  }

  /** If s, a, b and a, b, r turn no left, neither do s, b, r. */
  lemma TurnPastTop(o: Coordinate, s: Coordinate, a: Coordinate, b: Coordinate, r: Coordinate)
    requires Cross(o, a, b) < 0 && Cross(o, s, b) <= 0 && Cross(o, b, r) <= 0
    requires Cross(s, a, b) <= 0 && Cross(a, b, r) <= 0
    ensures Cross(s, b, r) <= 0
  {
    Pluecker(b, a, o, s, r);
    Turns(o, a, b); Turns(o, s, b); Turns(o, b, r); Turns(s, a, b); Turns(a, b, r); Turns(s, b, r);
    Product(Cross(b, o, s), Cross(b, a, r));
    Product(Cross(b, s, a), Cross(b, o, r));
    NonPositiveFactor(Cross(b, a, o), -Cross(b, s, r));
  }

  /** If s, m, b and m, b, r turn no left, neither do s, m, r. */
  lemma TurnBelowTop(o: Coordinate, s: Coordinate, m: Coordinate, b: Coordinate, r: Coordinate)
    requires Cross(o, m, b) < 0 && Cross(o, s, m) <= 0 && Cross(o, m, r) <= 0
    requires Cross(s, m, b) <= 0 && Cross(m, b, r) <= 0
    ensures Cross(s, m, r) <= 0
  {
    Pluecker(m, s, o, b, r);
    Turns(o, m, b); Turns(o, s, m); Turns(o, m, r); Turns(s, m, b); Turns(m, b, r); Turns(s, m, r);
    Product(Cross(m, s, o), Cross(m, b, r));
    Product(Cross(m, b, s), Cross(m, o, r));
    NonPositiveFactor(Cross(m, o, b), -Cross(m, s, r));
  }

  /** The six orders of one triangle. */
  lemma Turns(p: Coordinate, q: Coordinate, r: Coordinate)
    ensures Cross(q, r, p) == Cross(r, p, q) == Cross(p, q, r)
    ensures Cross(q, p, r) == Cross(p, r, q) == Cross(r, q, p) == -Cross(p, q, r)
  {
  }

  /** p and q on one ray from o, p nearer: seen from o, the turns at p and at q are proportional. */
  lemma OneRay(o: Coordinate, p: Coordinate, q: Coordinate, r: Coordinate) returns (n: int, d: int)
    requires Precedes(o, p, q) && Cross(o, p, q) == 0
    ensures 0 < d < n && n * Cross(o, p, r) == d * Cross(o, q, r)
  {
    VectorCross(o, p, q); VectorCross(o, q, r); VectorCross(o, p, r);
    n, d := SameRay(p.x - o.x, p.y - o.y, q.x - o.x, q.y - o.y);
    Proportional(n, d, p.x - o.x, p.y - o.y, q.x - o.x, q.y - o.y, r.x - o.x, r.y - o.y);
  }

  lemma Proportional(n: int, d: int, p1: int, p2: int, q1: int, q2: int, r1: int, r2: int)
    requires n * p1 == d * q1 && n * p2 == d * q2
    ensures n * (p1 * r2 - r1 * p2) == d * (q1 * r2 - r1 * q2)
  {
    assert n * (p1 * r2 - r1 * p2) == (n * p1) * r2 - r1 * (n * p2);
    assert d * (q1 * r2 - r1 * q2) == (d * q1) * r2 - r1 * (d * q2);
  }

  /** p and q on one ray from o, p nearer: turns towards r at q are right turns. */
  lemma SameRayTurn(o: Coordinate, p: Coordinate, q: Coordinate, r: Coordinate)
    requires Precedes(o, p, q) && Cross(o, p, q) == 0 && Cross(o, q, r) <= 0
    ensures Cross(p, q, r) <= 0
  {
    var n, d := OneRay(o, p, q, r);
    FourPoints(o, p, q, r);
    Scaled(n, d, Cross(o, p, r), Cross(o, q, r));
  }

  lemma FourPoints(o: Coordinate, p: Coordinate, q: Coordinate, r: Coordinate)
    ensures Cross(p, q, r) == Cross(o, p, q) + Cross(o, q, r) - Cross(o, p, r)
  {
  }

  lemma Scaled(n: int, d: int, a: int, b: int)
    requires 0 < d < n && n * a == d * b && b <= 0
    ensures b - a <= 0 && a <= 0
    ensures b == 0 <==> b - a == 0
    ensures b == 0 <==> a == 0
  {
    assert n * (b - a) == (n - d) * b;
    Product(n - d, b);
    Product(n, b - a);
    Product(n, a);
    Product(d, b);
    NonPositiveFactor(n, b - a);
    NonPositiveFactor(n, a);
  }

  /** Vectors p, q of one ray of the upper half-plane, p the shorter: n*p == d*q with 0 < d < n. */
  lemma SameRay(p1: int, p2: int, q1: int, q2: int) returns (n: int, d: int)
    requires p2 > 0 || (p2 == 0 && p1 > 0)
    requires q2 > 0 || (q2 == 0 && q1 > 0)
    requires p1 * q2 - q1 * p2 == 0 && p1 * p1 + p2 * p2 < q1 * q1 + q2 * q2
    ensures 0 < d < n && n * p1 == d * q1 && n * p2 == d * q2
  {
    if q2 > 0 {
      n, d := q2, p2;
      Product(p1, q2);
      if p2 >= q2 {
        LongerOnRay(p1, p2, q1, q2);
      }
    } else {
      n, d := q1, p1;
      Product(q1, p2);
      SquareOrder(p1, q1);
    }
  }

  lemma LongerOnRay(p1: int, p2: int, q1: int, q2: int)
    requires p1 * q2 == q1 * p2 && p2 >= q2 > 0
    ensures p1 * p1 >= q1 * q1 && p2 * p2 >= q2 * q2
  {
    var P, Q, u, v := p1 * p1, q1 * q1, p2 * p2, q2 * q2;
    assert u >= v > 0;
    assert P * v == Q * u by {
      assert (p1 * q2) * (p1 * q2) == (q1 * p2) * (q1 * p2);
      assert (p1 * q2) * (p1 * q2) == P * v;
      assert (q1 * p2) * (q1 * p2) == Q * u;
    }
    Compare(P, Q, u, v);
  }

  lemma Compare(P: int, Q: int, u: int, v: int)
    requires P * v == Q * u && u >= v > 0 && Q >= 0
    ensures P >= Q
  {
    assert Q * v <= Q * u;
    assert v * (Q - P) == Q * v - P * v;
    NonPositiveFactor(v, Q - P);
  }

  /** If x, p, q turn no left and p, q share a ray from o, then so does x. */
  lemma RayPropagates(o: Coordinate, x: Coordinate, p: Coordinate, q: Coordinate)
    requires Precedes(o, x, p) && Precedes(o, p, q) && Cross(o, p, q) == 0 && Cross(x, p, q) <= 0
    ensures Cross(o, x, p) == 0 && Cross(o, x, q) == 0
  {
    var n, d := OneRay(o, p, q, x);
    FourPoints(o, x, p, q);
    Turns(o, x, p); Turns(o, x, q);
    var a, b := Cross(o, p, x), Cross(o, q, x);
    assert a >= 0 && b <= a;
    assert d * (b - a) == (n - d) * a;
    Product(d, b - a); Product(n - d, a); Product(d, b);
  }

  /** A point between two points of one ray, in radial order, is on that ray. */
  lemma PinnedToRay(o: Coordinate, p: Coordinate, m: Coordinate, q: Coordinate)
    requires Precedes(o, p, m) && Precedes(o, m, q) && Precedes(o, p, q) && Cross(o, p, q) == 0
    ensures Cross(o, p, m) == 0
  {
    var n, d := OneRay(o, p, q, m);
    Turns(o, m, q);
    Product(d, Cross(o, q, m));
    Product(n, Cross(o, p, m));
  }

  /** A point that makes a left turn inside the fan o, a, r lies in that triangle. */
  lemma PoppedIsSpanned(o: Coordinate, a: Coordinate, b: Coordinate, r: Coordinate)
    requires Cross(o, a, b) <= 0 && Cross(o, b, r) <= 0 && Cross(a, b, r) > 0
    ensures Spans({o, a, r}, {b})
  {
    forall h | Holds(h, {o, a, r})
      ensures Holds(h, {b})
    {
      Affine(h, o, a, b, r);
      Product(Cross(a, b, r), Excess(h, o));
      Product(-Cross(o, b, r), Excess(h, a));
      Product(-Cross(o, a, b), Excess(h, r));
      NonPositiveFactor(-Cross(o, a, r), Excess(h, b));
    }
  }
}
