/** Line segments in the real plane, and the points two of them share. */
module Segments {
  import opened Coordinates

  /** A point with exact real coordinates: where two segments with given ends meet need not be on any grid. */
  datatype Point = Point(x: real, y: real)

  function Exact(c: Coordinate): Point {
    Point(c.x as real, c.y as real)
  }

  /** The point at parameter t on the line from a (t = 0) to b (t = 1). */
  function At(a: Point, b: Point, t: real): Point {
    Point(a.x + t * (b.x - a.x), a.y + t * (b.y - a.y))
  }

  ghost predicate OnSegment(p: Point, a: Point, b: Point) {
    exists t: real :: 0.0 <= t <= 1.0 && p == At(a, b, t)
  }

  /** p comes before q along the segment from a to b. */
  ghost predicate Along(p: Point, q: Point, a: Point, b: Point) {
    exists t: real, u: real :: 0.0 <= t < u <= 1.0 && p == At(a, b, t) && q == At(a, b, u)
  }

  /** On the segment, but not an end of it. */
  ghost predicate InsideSegment(p: Point, a: Point, b: Point) {
    OnSegment(p, a, b) && p != a && p != b
  }

  ghost predicate Shared(p: Point, p1: Point, p2: Point, q1: Point, q2: Point) {
    OnSegment(p, p1, p2) && OnSegment(p, q1, q2)
  }

  /** The side of the line a, b on which p lies, as a signed area. */
  function Side(a: Point, b: Point, p: Point): real {
    (b.x - a.x) * (p.y - b.y) - (p.x - b.x) * (b.y - a.y)
  }

  lemma ExactSide(a: Coordinate, b: Coordinate, p: Coordinate)
    ensures Side(Exact(a), Exact(b), Exact(p)) == Cross(a, b, p) as real
  {
  }

  predicate Between(u: real, v: real, w: real) {
    u <= w <= v || v <= w <= u
  }

  /** The envelope of a, b holds p. */
  predicate InEnvelope(a: Point, b: Point, p: Point) {
    Between(a.x, b.x, p.x) && Between(a.y, b.y, p.y)
  }

  // ---------- along a line ----------

  lemma SideAlong(a: Point, b: Point, c: Point, d: Point, t: real)
    ensures Side(a, b, At(c, d, t)) == Side(a, b, c) + t * (Side(a, b, d) - Side(a, b, c))
  {
  }

  lemma SideSelf(a: Point, b: Point)
    ensures Side(a, b, a) == 0.0 && Side(a, b, b) == 0.0
  {
  }

  lemma Quotient(n: real, d: real)
    requires d != 0.0
    ensures n / d * d == n
  {
  }

  /** A point in line with a and b has a parameter there. */
  lemma Parameter(a: Point, b: Point, p: Point) returns (t: real)
    requires a != b && Side(a, b, p) == 0.0
    ensures p == At(a, b, t)
  {
    var dx, dy, ex, ey := b.x - a.x, b.y - a.y, p.x - a.x, p.y - a.y;
    assert dx * ey == ex * dy;
    if dx != 0.0 {
      t := ex / dx;
      Quotient(ex, dx);
      Proportion(t, dx, dy, ex, ey);
    } else {
      t := ey / dy;
      Quotient(ey, dy);
      Proportion(t, dy, dx, ey, ex);
    }
  }

  lemma Proportion(t: real, dx: real, dy: real, ex: real, ey: real)
    requires dx != 0.0 && t * dx == ex && dx * ey == ex * dy
    ensures t * dy == ey
  {
    assert dx * (t * dy - ey) == 0.0;
  }

  lemma BetweenAffine(c: real, d: real, u: real, v: real, w: real)
    ensures Between(u, v, w) ==> Between(c + u * d, c + v * d, c + w * d)
    ensures d != 0.0 && Between(c + u * d, c + v * d, c + w * d) ==> Between(u, v, w)
  {
    MonotoneIn(d, u, w);
    MonotoneIn(d, w, v);
  }

  lemma MonotoneIn(d: real, u: real, v: real)
    ensures d >= 0.0 && u <= v ==> u * d <= v * d
    ensures d >= 0.0 && v <= u ==> v * d <= u * d
    ensures d <= 0.0 && u <= v ==> u * d >= v * d
    ensures d <= 0.0 && v <= u ==> v * d >= u * d
    ensures d != 0.0 && u != v ==> u * d != v * d
  {
    assert (v - u) * d == v * d - u * d;
    if d >= 0.0 {
      if u <= v { assert (v - u) * d >= 0.0; }
      if v <= u { assert (v - u) * d <= 0.0; }
    }
    if d <= 0.0 {
      if u <= v { assert (v - u) * d <= 0.0; }
      if v <= u { assert (v - u) * d >= 0.0; }
    }
  }

  lemma EnvelopeInLine(a: Point, b: Point, u: real, v: real, w: real)
    requires a != b
    ensures InEnvelope(At(a, b, u), At(a, b, v), At(a, b, w)) <==> Between(u, v, w)
  {
    hide Between;
    var dx, dy := b.x - a.x, b.y - a.y;
    assert dx != 0.0 || dy != 0.0;
    BetweenAffine(a.x, dx, u, v, w);
    BetweenAffine(a.y, dy, u, v, w);
    assert At(a, b, u) == Point(a.x + u * dx, a.y + u * dy);
    assert At(a, b, v) == Point(a.x + v * dx, a.y + v * dy);
    assert At(a, b, w) == Point(a.x + w * dx, a.y + w * dy);
  }

  lemma AtEnds(a: Point, b: Point, t: real)
    ensures At(a, b, 0.0) == a && At(a, b, 1.0) == b
    ensures a != b && (At(a, b, t) == a || At(a, b, t) == b) ==> t == 0.0 || t == 1.0
  {
    if a != b && At(a, b, t) == a {
      assert t * (b.x - a.x) == 0.0 && t * (b.y - a.y) == 0.0;
      NullProduct(t, b.x - a.x, b.y - a.y);
    }
    if a != b && At(a, b, t) == b {
      assert (t - 1.0) * (b.x - a.x) == 0.0 && (t - 1.0) * (b.y - a.y) == 0.0;
      NullProduct(t - 1.0, b.x - a.x, b.y - a.y);
    }
  }

  lemma NullProduct(t: real, u: real, v: real)
    requires t * u == 0.0 && t * v == 0.0
    ensures t == 0.0 || (u == 0.0 && v == 0.0)
  {
  }

  lemma AtIsOn(a: Point, b: Point, t: real)
    ensures Side(a, b, At(a, b, t)) == 0.0
    ensures 0.0 <= t <= 1.0 ==> InEnvelope(a, b, At(a, b, t))
    ensures a != b && InEnvelope(a, b, At(a, b, t)) ==> 0.0 <= t <= 1.0
  {
    SideAlong(a, b, a, b, t);
    SideSelf(a, b);
    AtEnds(a, b, t);
    if a != b {
      EnvelopeInLine(a, b, 0.0, 1.0, t);
    }
  }

  /** On a segment: in line with its ends, and in their envelope. */
  lemma OnSegmentIff(p: Point, a: Point, b: Point)
    ensures OnSegment(p, a, b) <==> Side(a, b, p) == 0.0 && InEnvelope(a, b, p)
  {
    hide Side, At, InEnvelope;
    if OnSegment(p, a, b) {
      var t :| 0.0 <= t <= 1.0 && p == At(a, b, t);
      AtIsOn(a, b, t);
    }
    if Side(a, b, p) == 0.0 && InEnvelope(a, b, p) {
      if a == b {
        EnvelopeOfPoint(p, a);
      } else {
        var t := Parameter(a, b, p);
        AtIsOn(a, b, t);
      }
    }
  }

  lemma EnvelopeOfPoint(p: Point, a: Point)
    requires InEnvelope(a, a, p)
    ensures OnSegment(p, a, a)
  {
    assert p == At(a, a, 0.0);
  }

  // ---------- segments that do not lie in one line ----------

  lemma SameSideApart(p1: Point, p2: Point, q1: Point, q2: Point)
    requires (Side(p1, p2, q1) > 0.0 && Side(p1, p2, q2) > 0.0) || (Side(p1, p2, q1) < 0.0 && Side(p1, p2, q2) < 0.0)
    ensures forall p :: !Shared(p, p1, p2, q1, q2)
  {
    var u, v := Side(p1, p2, q1), Side(p1, p2, q2);
    forall p
      ensures !Shared(p, p1, p2, q1, q2)
    {
      OnSegmentIff(p, p1, p2);
      if OnSegment(p, q1, q2) {
        var t :| 0.0 <= t <= 1.0 && p == At(q1, q2, t);
        SideAlong(p1, p2, q1, q2, t);
        Mixed(u, v, t);
      }
    }
  }

  /** A mean of numbers of one sign has that sign. */
  lemma Mixed(u: real, v: real, t: real)
    requires 0.0 <= t <= 1.0
    ensures u > 0.0 && v > 0.0 ==> u + t * (v - u) > 0.0
    ensures u < 0.0 && v < 0.0 ==> u + t * (v - u) < 0.0
  {
    assert u + t * (v - u) == (1.0 - t) * u + t * v;
    if t < 1.0 {
      if u > 0.0 { assert (1.0 - t) * u > 0.0; }
      if u < 0.0 { assert (1.0 - t) * u < 0.0; }
    }
    if t > 0.0 {
      if v > 0.0 { assert t * v > 0.0; }
      if v < 0.0 { assert t * v < 0.0; }
    }
  }

  /** The directions of the two segments, crossed. */
  function Across(p1: Point, p2: Point, q1: Point, q2: Point): real {
    (p2.x - p1.x) * (q2.y - q1.y) - (q2.x - q1.x) * (p2.y - p1.y)
  }

  lemma AcrossSides(p1: Point, p2: Point, q1: Point, q2: Point)
    ensures Side(p1, p2, q2) == Side(p1, p2, q1) + Across(p1, p2, q1, q2)
    ensures Side(q1, q2, p2) == Side(q1, q2, p1) - Across(p1, p2, q1, q2)
  {
  }

  /** The point where the two lines cross. */
  ghost function Crossing(p1: Point, p2: Point, q1: Point, q2: Point): Point
    requires Across(p1, p2, q1, q2) != 0.0
  {
    At(p1, p2, Side(q1, q2, p1) / Across(p1, p2, q1, q2))
  }

  /** Points in line with both segments coincide with the crossing. */
  lemma CrossingIsOnly(p1: Point, p2: Point, q1: Point, q2: Point, s: real, t: real)
    requires Across(p1, p2, q1, q2) != 0.0 && At(p1, p2, s) == At(q1, q2, t)
    ensures s == Side(q1, q2, p1) / Across(p1, p2, q1, q2)
  {
    var D := Across(p1, p2, q1, q2);
    SideAlong(q1, q2, p1, p2, s);
    SideAlong(q1, q2, q1, q2, t);
    SideSelf(q1, q2);
    AcrossSides(p1, p2, q1, q2);
    assert s * D == Side(q1, q2, p1);
    Quotient(Side(q1, q2, p1), D);
    assert (s - Side(q1, q2, p1) / D) * D == 0.0;
  }

  /** The crossing from the other segment's view. */
  lemma CrossingBothWays(p1: Point, p2: Point, q1: Point, q2: Point)
    requires Across(p1, p2, q1, q2) != 0.0
    ensures Crossing(p1, p2, q1, q2) == At(q1, q2, -Side(p1, p2, q1) / Across(p1, p2, q1, q2))
  {
    hide Across, Side, At;
    var D := Across(p1, p2, q1, q2);
    var s, t := Side(q1, q2, p1) / D, -Side(p1, p2, q1) / D;
    Quotient(Side(q1, q2, p1), D);
    Quotient(-Side(p1, p2, q1), D);
    MeetInX(p1, p2, q1, q2, s, t);
    MeetInY(p1, p2, q1, q2, s, t);
  }

  lemma MeetInY(p1: Point, p2: Point, q1: Point, q2: Point, s: real, t: real)
    requires Across(p1, p2, q1, q2) != 0.0
    requires s * Across(p1, p2, q1, q2) == Side(q1, q2, p1) && t * Across(p1, p2, q1, q2) == -Side(p1, p2, q1)
    ensures At(p1, p2, s).y == At(q1, q2, t).y
  {
    hide Across, Side, At, Turned;
    TurnedSame(p1, p2, q1, q2);
    MeetInX(Turned(p1), Turned(p2), Turned(q1), Turned(q2), s, t);
    TurnedAt(p1, p2, s);
    TurnedAt(q1, q2, t);
  }

  lemma TurnedAt(a: Point, b: Point, t: real)
    ensures At(Turned(a), Turned(b), t).x == At(a, b, t).y
  {
  }

  lemma TurnedSame(p1: Point, p2: Point, q1: Point, q2: Point)
    ensures Across(Turned(p1), Turned(p2), Turned(q1), Turned(q2)) == Across(p1, p2, q1, q2)
    ensures Side(Turned(p1), Turned(p2), Turned(q1)) == Side(p1, p2, q1)
    ensures Side(Turned(q1), Turned(q2), Turned(p1)) == Side(q1, q2, p1)
  {
  }

  function Turned(p: Point): Point {
    Point(p.y, -p.x)
  }

  lemma MeetInX(p1: Point, p2: Point, q1: Point, q2: Point, s: real, t: real)
    requires Across(p1, p2, q1, q2) != 0.0
    requires s * Across(p1, p2, q1, q2) == Side(q1, q2, p1) && t * Across(p1, p2, q1, q2) == -Side(p1, p2, q1)
    ensures At(p1, p2, s).x == At(q1, q2, t).x
  {
    hide Across, Side;
    var D, u, v := Across(p1, p2, q1, q2), p2.x - p1.x, q2.x - q1.x;
    var gap := p1.x + s * u - (q1.x + t * v);
    Spread(D, p1.x, q1.x, s, u, t, v);
    SidesBalance(p1, p2, q1, q2);
    assert D * gap == 0.0;
    NullFactor(D, gap);
  }

  lemma NullFactor(d: real, e: real)
    requires d != 0.0 && d * e == 0.0
    ensures e == 0.0
  {
  }

  lemma Spread(d: real, p: real, q: real, s: real, u: real, t: real, v: real)
    ensures d * (p + s * u - (q + t * v)) == d * (p - q) + (s * d) * u - (t * d) * v
  {
  }

  lemma SidesBalance(p1: Point, p2: Point, q1: Point, q2: Point)
    ensures Across(p1, p2, q1, q2) * (p1.x - q1.x) + Side(q1, q2, p1) * (p2.x - p1.x) + Side(p1, p2, q1) * (q2.x - q1.x) == 0.0
  {
  }

  // ---------- exactly one shared point ----------

  /** Neither segment has both its ends strictly on one side of the other. */
  predicate Straddling(u: real, v: real) {
    !(u > 0.0 && v > 0.0) && !(u < 0.0 && v < 0.0)
  }

  lemma RatioInUnit(n: real, d: real)
    requires d != 0.0 && Straddling(n, n - d)
    ensures 0.0 <= n / d <= 1.0
    ensures n != 0.0 && n - d != 0.0 ==> 0.0 < n / d < 1.0
    ensures n == 0.0 ==> n / d == 0.0
    ensures n - d == 0.0 ==> n / d == 1.0
  {
    var t := n / d;
    Quotient(n, d);
    assert (1.0 - t) * d == d - n;
    ProductSign(t, d);
    ProductSign(1.0 - t, d);
  }

  lemma ProductSign(t: real, d: real)
    ensures t > 0.0 && d > 0.0 ==> t * d > 0.0
    ensures t < 0.0 && d < 0.0 ==> t * d > 0.0
    ensures t > 0.0 && d < 0.0 ==> t * d < 0.0
    ensures t < 0.0 && d > 0.0 ==> t * d < 0.0
    ensures t * d == 0.0 <==> t == 0.0 || d == 0.0
  {
  }

  /** Straddling segments that are not parallel share the crossing and nothing else. */
  lemma SharedIsCrossing(p1: Point, p2: Point, q1: Point, q2: Point)
    requires Across(p1, p2, q1, q2) != 0.0
    requires Straddling(Side(p1, p2, q1), Side(p1, p2, q2)) && Straddling(Side(q1, q2, p1), Side(q1, q2, p2))
    ensures forall p :: Shared(p, p1, p2, q1, q2) <==> p == Crossing(p1, p2, q1, q2)
  {
    hide Side, Across, At;
    var D, X := Across(p1, p2, q1, q2), Crossing(p1, p2, q1, q2);
    AcrossSides(p1, p2, q1, q2);
    CrossingBothWays(p1, p2, q1, q2);
    RatioInUnit(Side(q1, q2, p1), D);
    RatioInUnit(-Side(p1, p2, q1), D);
    assert Shared(X, p1, p2, q1, q2);
    forall p | Shared(p, p1, p2, q1, q2)
      ensures p == X
    {
      var s :| 0.0 <= s <= 1.0 && p == At(p1, p2, s);
      var t :| 0.0 <= t <= 1.0 && p == At(q1, q2, t);
      CrossingIsOnly(p1, p2, q1, q2, s, t);
    }
  }

  /** Where the crossing is: at an end that lies on the other line, or else inside both segments. */
  lemma CrossingEnds(p1: Point, p2: Point, q1: Point, q2: Point)
    requires Across(p1, p2, q1, q2) != 0.0
    requires Straddling(Side(p1, p2, q1), Side(p1, p2, q2)) && Straddling(Side(q1, q2, p1), Side(q1, q2, p2))
    ensures Side(p1, p2, q1) == 0.0 ==> Crossing(p1, p2, q1, q2) == q1
    ensures Side(p1, p2, q2) == 0.0 ==> Crossing(p1, p2, q1, q2) == q2
    ensures Side(q1, q2, p1) == 0.0 ==> Crossing(p1, p2, q1, q2) == p1
    ensures Side(q1, q2, p2) == 0.0 ==> Crossing(p1, p2, q1, q2) == p2
    ensures Side(p1, p2, q1) != 0.0 && Side(p1, p2, q2) != 0.0 && Side(q1, q2, p1) != 0.0 && Side(q1, q2, p2) != 0.0 ==>
            InsideSegment(Crossing(p1, p2, q1, q2), p1, p2) && InsideSegment(Crossing(p1, p2, q1, q2), q1, q2)
  {
    hide Side, Across, At;
    var D := Across(p1, p2, q1, q2);
    var s, t := Side(q1, q2, p1) / D, -Side(p1, p2, q1) / D;
    AcrossSides(p1, p2, q1, q2);
    CrossingBothWays(p1, p2, q1, q2);
    RatioInUnit(Side(q1, q2, p1), D);
    RatioInUnit(-Side(p1, p2, q1), D);
    AcrossProper(p1, p2, q1, q2);
    AtEnds(p1, p2, s);
    AtEnds(q1, q2, t);
  }

  lemma AcrossProper(p1: Point, p2: Point, q1: Point, q2: Point)
    ensures Across(p1, p2, q1, q2) != 0.0 ==> p1 != p2 && q1 != q2
  {
  }

  /** Parallel straddling segments lie in one line. */
  lemma ParallelInLine(p1: Point, p2: Point, q1: Point, q2: Point)
    requires Across(p1, p2, q1, q2) == 0.0
    requires Straddling(Side(p1, p2, q1), Side(p1, p2, q2)) && Straddling(Side(q1, q2, p1), Side(q1, q2, p2))
    ensures InLine(p1, p2, q1, q2)
  {
    hide Side, Across;
    AcrossSides(p1, p2, q1, q2);
  }

  // ---------- segments in one line ----------

  predicate InLine(p1: Point, p2: Point, q1: Point, q2: Point) {
    Side(p1, p2, q1) == 0.0 && Side(p1, p2, q2) == 0.0 && Side(q1, q2, p1) == 0.0 && Side(q1, q2, p2) == 0.0
  }

  /** On one line, being on a segment is being between its parameters. */
  lemma OnSegmentInLine(a: Point, b: Point, u: real, v: real, w: real)
    requires a != b
    ensures OnSegment(At(a, b, w), At(a, b, u), At(a, b, v)) <==> Between(u, v, w)
  {
    hide At, Side, InEnvelope, OnSegment;
    OnSegmentIff(At(a, b, w), At(a, b, u), At(a, b, v));
    SideInLine(a, b, u, v, w);
    EnvelopeInLine(a, b, u, v, w);
  }

  lemma SideInLine(a: Point, b: Point, u: real, v: real, w: real)
    ensures Side(At(a, b, u), At(a, b, v), At(a, b, w)) == 0.0
  {
    var dx, dy := b.x - a.x, b.y - a.y;
    assert ((v - u) * dx) * ((w - v) * dy) == ((w - v) * dx) * ((v - u) * dy);
  }

  /** A line through the four points, which may coincide, and their parameters on it. */
  lemma Base(p1: Point, p2: Point, q1: Point, q2: Point)
      returns (a: Point, b: Point, u1: real, u2: real, v1: real, v2: real)
    requires InLine(p1, p2, q1, q2)
    ensures a != b && p1 == At(a, b, u1) && p2 == At(a, b, u2) && q1 == At(a, b, v1) && q2 == At(a, b, v2)
  {
    a, b := if p1 != p2 then p1 else q1,
            if p1 != p2 then p2 else if q1 != q2 then q2 else if p1 != q1 then p1 else Point(p1.x + 1.0, p1.y);
    SideSelf(a, b);
    u1 := Parameter(a, b, p1);
    u2 := Parameter(a, b, p2);
    v1 := Parameter(a, b, q1);
    v2 := Parameter(a, b, q2);
  }

  /** What two intervals share, by which of them holds which ends of the other. */
  lemma SharedInterval(u1: real, u2: real, v1: real, v2: real, w: real)
    ensures Between(u1, u2, v1) && Between(u1, u2, v2) ==>
            (Between(u1, u2, w) && Between(v1, v2, w) <==> Between(v1, v2, w))
    ensures Between(v1, v2, u1) && Between(v1, v2, u2) ==>
            (Between(u1, u2, w) && Between(v1, v2, w) <==> Between(u1, u2, w))
    ensures Between(u1, u2, v1) && Between(v1, v2, u1) && !Between(u1, u2, v2) && !Between(v1, v2, u2) ==>
            (Between(u1, u2, w) && Between(v1, v2, w) <==> Between(v1, u1, w))
    ensures !(Between(u1, u2, v1) && Between(u1, u2, v2)) && !(Between(v1, v2, u1) && Between(v1, v2, u2))
            && !((Between(u1, u2, v1) || Between(u1, u2, v2)) && (Between(v1, v2, u1) || Between(v1, v2, u2))) ==>
            !(Between(u1, u2, w) && Between(v1, v2, w))
  {
  }
}
