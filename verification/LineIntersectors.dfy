/** Classifying and computing the intersection of two segments. */
module LineIntersectors {
  import opened Coordinates
  import opened Numbers
  import opened Orientation
  import opened Segments

  const NO_INTERSECTION := 0
  const POINT_INTERSECTION := 1
  const COLLINEAR_INTERSECTION := 2

  // ---------- envelopes ----------

  /** Envelope::intersects for a point. */
  predicate EnvelopeHolds(p1: Coordinate, p2: Coordinate, q: Coordinate) {
    && q.x >= Min(p1.x, p2.x) && q.x <= Max(p1.x, p2.x)
    && q.y >= Min(p1.y, p2.y) && q.y <= Max(p1.y, p2.y)
  }

  /** Envelope::intersects for two segments. */
  predicate EnvelopesMeet(p1: Coordinate, p2: Coordinate, q1: Coordinate, q2: Coordinate) {
    && !(Min(p1.x, p2.x) > Max(q1.x, q2.x)) && !(Max(p1.x, p2.x) < Min(q1.x, q2.x))
    && !(Min(p1.y, p2.y) > Max(q1.y, q2.y)) && !(Max(p1.y, p2.y) < Min(q1.y, q2.y))
  }

  lemma EnvelopeHoldsIff(p1: Coordinate, p2: Coordinate, q: Coordinate)
    ensures EnvelopeHolds(p1, p2, q) <==> InEnvelope(Exact(p1), Exact(p2), Exact(q))
  {
  }

  lemma NoLength(p1: Coordinate, p2: Coordinate, q: Coordinate)
    ensures p1 == p2 ==> (EnvelopeHolds(p1, p2, q) <==> q == p1)
    ensures EnvelopeHolds(p1, p2, p1) && EnvelopeHolds(p1, p2, p2)
  {
  }

  lemma EnvelopesApart(p1: Coordinate, p2: Coordinate, q1: Coordinate, q2: Coordinate)
    requires !EnvelopesMeet(p1, p2, q1, q2)
    ensures forall p :: !Shared(p, Exact(p1), Exact(p2), Exact(q1), Exact(q2))
  {
    forall p
      ensures !Shared(p, Exact(p1), Exact(p2), Exact(q1), Exact(q2))
    {
      OnSegmentIff(p, Exact(p1), Exact(p2));
      OnSegmentIff(p, Exact(q1), Exact(q2));
    }
  }

  // ---------- the proper intersection point ----------

  datatype Representable = NotRepresentable | Found(point: Point)

  /** HCoordinate::intersection: the lines' homogeneous cross product. */
  function HIntersection(p1: Point, p2: Point, q1: Point, q2: Point): Representable {
    var px, py, pw := p1.y - p2.y, p2.x - p1.x, p1.x * p2.y - p2.x * p1.y;
    var qx, qy, qw := q1.y - q2.y, q2.x - q1.x, q1.x * q2.y - q2.x * q1.y;
    var x, y, w := py * qw - qy * pw, qx * pw - px * qw, px * qy - qx * py;
    if w == 0.0 then NotRepresentable else Found(Point(x / w, y / w))
  }

  /** The homogeneous computation finds the crossing exactly when the lines are not parallel. */
  lemma HIntersectionIsCrossing(p1: Point, p2: Point, q1: Point, q2: Point)
    ensures if Across(p1, p2, q1, q2) == 0.0 then HIntersection(p1, p2, q1, q2) == NotRepresentable
            else HIntersection(p1, p2, q1, q2) == Found(Crossing(p1, p2, q1, q2))
  {
    var D := Across(p1, p2, q1, q2);
    if D != 0.0 {
      var s := Side(q1, q2, p1) / D;
      Quotient(Side(q1, q2, p1), D);
      HomogeneousX(p1, p2, q1, q2, s);
      HomogeneousY(p1, p2, q1, q2, s);
    }
  }

  lemma HomogeneousX(p1: Point, p2: Point, q1: Point, q2: Point, s: real)
    requires Across(p1, p2, q1, q2) != 0.0 && s * Across(p1, p2, q1, q2) == Side(q1, q2, p1)
    ensures var D := Across(p1, p2, q1, q2);
            ((p2.x - p1.x) * (q1.x * q2.y - q2.x * q1.y) - (q2.x - q1.x) * (p1.x * p2.y - p2.x * p1.y)) / D == At(p1, p2, s).x
  {
    var D := Across(p1, p2, q1, q2);
    var n := (p2.x - p1.x) * (q1.x * q2.y - q2.x * q1.y) - (q2.x - q1.x) * (p1.x * p2.y - p2.x * p1.y);
    assert n == p1.x * D + Side(q1, q2, p1) * (p2.x - p1.x);
    assert n == At(p1, p2, s).x * D;
  }

  lemma HomogeneousY(p1: Point, p2: Point, q1: Point, q2: Point, s: real)
    requires Across(p1, p2, q1, q2) != 0.0 && s * Across(p1, p2, q1, q2) == Side(q1, q2, p1)
    ensures var D := Across(p1, p2, q1, q2);
            ((q1.y - q2.y) * (p1.x * p2.y - p2.x * p1.y) - (p1.y - p2.y) * (q1.x * q2.y - q2.x * q1.y)) / D == At(p1, p2, s).y
  {
    var D := Across(p1, p2, q1, q2);
    var n := (q1.y - q2.y) * (p1.x * p2.y - p2.x * p1.y) - (p1.y - p2.y) * (q1.x * q2.y - q2.x * q1.y);
    assert n == p1.y * D + Side(q1, q2, p1) * (p2.y - p1.y);
    assert n == At(p1, p2, s).y * D;
  }

  function RealMin(a: real, b: real): real {
    if a < b then a else b
  }

  function RealMax(a: real, b: real): real {
    if a > b then a else b
  }

  /** The centre of the intersection of the two segments' envelopes. */
  function EnvCentre(n00: Point, n01: Point, n10: Point, n11: Point): Point {
    var intMinX := RealMax(RealMin(n00.x, n01.x), RealMin(n10.x, n11.x));
    var intMaxX := RealMin(RealMax(n00.x, n01.x), RealMax(n10.x, n11.x));
    var intMinY := RealMax(RealMin(n00.y, n01.y), RealMin(n10.y, n11.y));
    var intMaxY := RealMin(RealMax(n00.y, n01.y), RealMax(n10.y, n11.y));
    Point((intMinX + intMaxX) / 2.0, (intMinY + intMaxY) / 2.0)
  }

  function Minus(p: Point, c: Point): Point {
    Point(p.x - c.x, p.y - c.y)
  }

  function Plus(p: Point, c: Point): Point {
    Point(p.x + c.x, p.y + c.y)
  }

  /** Shifting both segments shifts their crossing. */
  lemma CrossingShifts(p1: Point, p2: Point, q1: Point, q2: Point, c: Point)
    ensures Across(Minus(p1, c), Minus(p2, c), Minus(q1, c), Minus(q2, c)) == Across(p1, p2, q1, q2)
    ensures Across(p1, p2, q1, q2) != 0.0 ==>
            Plus(Crossing(Minus(p1, c), Minus(p2, c), Minus(q1, c), Minus(q2, c)), c) == Crossing(p1, p2, q1, q2)
  {
    assert Side(Minus(q1, c), Minus(q2, c), Minus(p1, c)) == Side(q1, q2, p1);
  }

  /** intersectionWithNormalization: shift to the envelope centre, intersect, shift back. */
  function NormalizedIntersection(p1: Point, p2: Point, q1: Point, q2: Point): Representable {
    var c := EnvCentre(p1, p2, q1, q2);
    match HIntersection(Minus(p1, c), Minus(p2, c), Minus(q1, c), Minus(q2, c))
    case NotRepresentable => NotRepresentable
    case Found(point) => Found(Plus(point, c))
  }

  /** Normalising changes nothing in exact arithmetic. */
  lemma NormalizationIsNeutral(p1: Point, p2: Point, q1: Point, q2: Point)
    ensures NormalizedIntersection(p1, p2, q1, q2) == HIntersection(p1, p2, q1, q2)
  {
    hide Across, Crossing, HIntersection, EnvCentre;
    var c := EnvCentre(p1, p2, q1, q2);
    HIntersectionIsCrossing(p1, p2, q1, q2);
    HIntersectionIsCrossing(Minus(p1, c), Minus(p2, c), Minus(q1, c), Minus(q2, c));
    CrossingShifts(p1, p2, q1, q2, c);
  }

  // ---------- segments in one line ----------

  lemma OverlapOnLine(a: Point, b: Point, u1: real, u2: real, v1: real, v2: real, w: real)
    requires a != b
    ensures Shared(At(a, b, w), At(a, b, u1), At(a, b, u2), At(a, b, v1), At(a, b, v2))
       <==> InOverlap(At(a, b, u1), At(a, b, u2), At(a, b, v1), At(a, b, v2), At(a, b, w))
  {
    hide At, InEnvelope, OnSegment, Between;
    EnvelopeInLine(a, b, u1, u2, v1); EnvelopeInLine(a, b, u1, u2, v2);
    EnvelopeInLine(a, b, v1, v2, u1); EnvelopeInLine(a, b, v1, v2, u2);
    OnSegmentInLine(a, b, u1, u2, w); OnSegmentInLine(a, b, v1, v2, w);
    OnSegmentInLine(a, b, v1, u1, w); OnSegmentInLine(a, b, v1, u2, w);
    OnSegmentInLine(a, b, v2, u1, w); OnSegmentInLine(a, b, v2, u2, w);
    SharedInterval(u1, u2, v1, v2, w); SharedInterval(u2, u1, v1, v2, w);
    SharedInterval(u1, u2, v2, v1, w); SharedInterval(u2, u1, v2, v1, w);
    BetweenEitherWay(u1, u2); BetweenEitherWay(v1, v2);
  }

  lemma BetweenEitherWay(u: real, v: real)
    ensures forall w :: Between(u, v, w) == Between(v, u, w)
  {
  }

  /** What segments in one line share, by which ends lie in the other's envelope: in which segment p lies if it is shared. */
  ghost predicate InOverlap(p1: Point, p2: Point, q1: Point, q2: Point, p: Point) {
    var p1q1p2, p1q2p2, q1p1q2, q1p2q2 :=
      InEnvelope(p1, p2, q1), InEnvelope(p1, p2, q2), InEnvelope(q1, q2, p1), InEnvelope(q1, q2, p2);
    if p1q1p2 && p1q2p2 then OnSegment(p, q1, q2)
    else if q1p1q2 && q1p2q2 then OnSegment(p, p1, p2)
    else if p1q1p2 && q1p1q2 then OnSegment(p, q1, p1)
    else if p1q1p2 && q1p2q2 then OnSegment(p, q1, p2)
    else if p1q2p2 && q1p1q2 then OnSegment(p, q2, p1)
    else if p1q2p2 && q1p2q2 then OnSegment(p, q2, p2)
    else false
  }

  lemma OffLine(a: Point, b: Point, u: real, v: real, p: Point)
    requires Side(a, b, p) != 0.0
    ensures !OnSegment(p, At(a, b, u), At(a, b, v))
  {
    if OnSegment(p, At(a, b, u), At(a, b, v)) {
      var t :| 0.0 <= t <= 1.0 && p == At(At(a, b, u), At(a, b, v), t);
      SideAlong(a, b, At(a, b, u), At(a, b, v), t);
      SideOnLine(a, b, u);
      SideOnLine(a, b, v);
    }
  }

  lemma SideOnLine(a: Point, b: Point, u: real)
    ensures Side(a, b, At(a, b, u)) == 0.0
  {
    SideAlong(a, b, a, b, u);
    SideSelf(a, b);
  }

  lemma OverlapInLine(p1: Point, p2: Point, q1: Point, q2: Point)
    requires InLine(p1, p2, q1, q2)
    ensures forall p :: Shared(p, p1, p2, q1, q2) <==> InOverlap(p1, p2, q1, q2, p)
  {
    hide At, InEnvelope, OnSegment, Side, InLine;
    var a, b, u1, u2, v1, v2 := Base(p1, p2, q1, q2);
    forall p
      ensures Shared(p, p1, p2, q1, q2) <==> InOverlap(p1, p2, q1, q2, p)
    {
      if Side(a, b, p) == 0.0 {
        var w := Parameter(a, b, p);
        OverlapOnLine(a, b, u1, u2, v1, v2, w);
      } else {
        OffLine(a, b, u1, u2, p); OffLine(a, b, v1, v2, p);
        OffLine(a, b, v1, u1, p); OffLine(a, b, v1, u2, p);
        OffLine(a, b, v2, u1, p); OffLine(a, b, v2, u2, p);
      }
    }
  }

  /** The envelope test and the two orientation tests together say whether p is on the segment. */
  lemma OnSegmentTests(p: Coordinate, p1: Coordinate, p2: Coordinate)
    ensures OnSegment(Exact(p), Exact(p1), Exact(p2)) <==> EnvelopeHolds(p1, p2, p) && Turn(p1, p2, p) == 0
    ensures Turn(p1, p2, p) == 0 <==> Turn(p2, p1, p) == 0
  {
    hide OnSegment, InEnvelope, EnvelopeHolds, Side;
    OnSegmentIff(Exact(p), Exact(p1), Exact(p2));
    EnvelopeHoldsIff(p1, p2, p);
    TurnIsSide(p1, p2, p);
    TurnSymmetry(p1, p2, p);
  }

  // ---------- distance along an edge ----------

  function RealAbs(a: real): real {
    if a < 0.0 then -a else a
  }

  /** computeEdgeDistance: a cheap stand-in for the distance of p from p0 along the segment p0, p1. */
  function EdgeDistance(p: Point, p0: Point, p1: Point): real {
    var dx, dy := RealAbs(p1.x - p0.x), RealAbs(p1.y - p0.y);
    if p == p0 then 0.0
    else if p == p1 then (if dx > dy then dx else dy)
    else
      var pdx, pdy := RealAbs(p.x - p0.x), RealAbs(p.y - p0.y);
      var dist := if dx > dy then pdx else pdy;
      if dist == 0.0 then RealMax(pdx, pdy) else dist
  }

  /** On the segment it grows in proportion to the parameter: so it orders the points as the segment does, and only
      the first end has distance zero. */
  lemma EdgeDistanceIsAlong(p0: Point, p1: Point, t: real)
    requires p0 != p1 && 0.0 <= t <= 1.0
    ensures EdgeDistance(At(p0, p1, t), p0, p1) == t * RealMax(RealAbs(p1.x - p0.x), RealAbs(p1.y - p0.y))
    ensures RealMax(RealAbs(p1.x - p0.x), RealAbs(p1.y - p0.y)) > 0.0
  {
    hide At, RealAbs;
    var p, dx, dy := At(p0, p1, t), RealAbs(p1.x - p0.x), RealAbs(p1.y - p0.y);
    AtEnds(p0, p1, t);
    AbsAlong(p0, p1, t);
    AbsPositive(p0, p1);
    if t != 0.0 && t != 1.0 {
      ProductSign(t, RealMax(dx, dy));
    }
  }

  lemma AbsAlong(p0: Point, p1: Point, t: real)
    requires t >= 0.0
    ensures RealAbs(At(p0, p1, t).x - p0.x) == t * RealAbs(p1.x - p0.x)
    ensures RealAbs(At(p0, p1, t).y - p0.y) == t * RealAbs(p1.y - p0.y)
  {
    AbsScaled(t, p1.x - p0.x);
    AbsScaled(t, p1.y - p0.y);
  }

  lemma AbsPositive(p0: Point, p1: Point)
    requires p0 != p1
    ensures RealMax(RealAbs(p1.x - p0.x), RealAbs(p1.y - p0.y)) > 0.0
  {
  }

  lemma AbsScaled(t: real, d: real)
    requires t >= 0.0
    ensures RealAbs(t * d) == t * RealAbs(d)
  {
    ProductSign(t, d);
  }

  // ---------- the classification ----------

  /** The result says which points the segments share: none, x alone, or the segment from x to y. */
  ghost predicate Describes(result: int, x: Point, y: Point, p1: Point, p2: Point, q1: Point, q2: Point) {
    if result == NO_INTERSECTION then forall p :: !Shared(p, p1, p2, q1, q2)
    else if result == POINT_INTERSECTION then forall p :: Shared(p, p1, p2, q1, q2) <==> p == x
    else result == COLLINEAR_INTERSECTION && forall p :: Shared(p, p1, p2, q1, q2) <==> OnSegment(p, x, y)
  }

  /** The intersection is one point, inside both segments. */
  ghost predicate IsProper(result: int, x: Point, p1: Point, p2: Point, q1: Point, q2: Point) {
    result == POINT_INTERSECTION && InsideSegment(x, p1, p2) && InsideSegment(x, q1, q2)
  }

  /** So the result is NO_INTERSECTION exactly when no point is shared. Otherwise it tells one shared point from
      several, except where both ends of the overlap are stored as one point, that is, where a segment without length
      lies on the other. */
  lemma DescribesCounts(result: int, x: Point, y: Point, p1: Point, p2: Point, q1: Point, q2: Point)
    requires Describes(result, x, y, p1, p2, q1, q2)
    ensures result == NO_INTERSECTION <==> !exists p :: Shared(p, p1, p2, q1, q2)
    ensures (result == POINT_INTERSECTION <==> OneShared(p1, p2, q1, q2)) <==> !(result == COLLINEAR_INTERSECTION && x == y)
    ensures (result == COLLINEAR_INTERSECTION <==> SeveralShared(p1, p2, q1, q2))
       <==> !(result == COLLINEAR_INTERSECTION && x == y)
  {
    hide At;
    AtEnds(x, y, 0.0);
    OnlyPoint(x);
    assert OnSegment(x, x, y) && OnSegment(y, x, y);
    if result == POINT_INTERSECTION {
      assert Shared(x, p1, p2, q1, q2);
    } else if result == COLLINEAR_INTERSECTION {
      assert Shared(x, p1, p2, q1, q2) && Shared(y, p1, p2, q1, q2);
    }
  }

  /** The result tells how many points the segments share. */
  ghost predicate Counts(result: int, p1: Point, p2: Point, q1: Point, q2: Point) {
    && (result == NO_INTERSECTION <==> forall p :: !Shared(p, p1, p2, q1, q2))
    && (result == POINT_INTERSECTION <==> OneShared(p1, p2, q1, q2))
    && (result == COLLINEAR_INTERSECTION <==> SeveralShared(p1, p2, q1, q2))
  }

  /** It does so exactly for segments with a length, and for those that share nothing. */
  lemma ResultCountsIff(result: int, x: Point, y: Point, p1: Coordinate, p2: Coordinate, q1: Coordinate, q2: Coordinate)
    requires Describes(result, x, y, Exact(p1), Exact(p2), Exact(q1), Exact(q2))
    requires result == COLLINEAR_INTERSECTION ==> (x != y <==> p1 != p2 && q1 != q2)
    requires result == POINT_INTERSECTION ==> p1 != p2 && q1 != q2
    ensures Counts(result, Exact(p1), Exact(p2), Exact(q1), Exact(q2))
       <==> (p1 != p2 && q1 != q2) || forall p :: !Shared(p, Exact(p1), Exact(p2), Exact(q1), Exact(q2))
  {
    hide Exact, OneShared, SeveralShared, OnSegment;
    DescribesCounts(result, x, y, Exact(p1), Exact(p2), Exact(q1), Exact(q2));
  }

  /** A segment without length on another one: they share one point, but the result is collinear. */
  lemma NoLengthOnSegment(result: int, x: Point, y: Point)
    requires var p, a, b := Exact(Coordinate(1, 0)), Exact(Coordinate(0, 0)), Exact(Coordinate(2, 0));
             Describes(result, x, y, p, p, a, b) && result != POINT_INTERSECTION
    ensures var p, a, b := Exact(Coordinate(1, 0)), Exact(Coordinate(0, 0)), Exact(Coordinate(2, 0));
            OneShared(p, p, a, b) && result == COLLINEAR_INTERSECTION && x == y == p
  {
    hide *;
    Midpoint(Coordinate(1, 0), Coordinate(0, 0), Coordinate(2, 0));
    PointOnSegment(result, x, y, Exact(Coordinate(1, 0)), Exact(Coordinate(0, 0)), Exact(Coordinate(2, 0)));
  }

  lemma Midpoint(p: Coordinate, a: Coordinate, b: Coordinate)
    requires 2 * p.x == a.x + b.x && 2 * p.y == a.y + b.y
    ensures OnSegment(Exact(p), Exact(a), Exact(b))
  {
    assert Exact(p) == At(Exact(a), Exact(b), 0.5);
  }

  lemma PointOnSegment(result: int, x: Point, y: Point, p: Point, a: Point, b: Point)
    requires Describes(result, x, y, p, p, a, b) && result != POINT_INTERSECTION && OnSegment(p, a, b)
    ensures OneShared(p, p, a, b) && result == COLLINEAR_INTERSECTION && x == y == p
  {
    hide At;
    OnlyPoint(p);
    assert Shared(p, p, p, a, b);
    AtEnds(x, y, 0.0);
    assert OnSegment(x, x, y) && OnSegment(y, x, y);
  }

  ghost predicate OneShared(p1: Point, p2: Point, q1: Point, q2: Point) {
    exists p :: Shared(p, p1, p2, q1, q2) && forall q :: Shared(q, p1, p2, q1, q2) ==> q == p
  }

  ghost predicate SeveralShared(p1: Point, p2: Point, q1: Point, q2: Point) {
    exists p, q :: Shared(p, p1, p2, q1, q2) && Shared(q, p1, p2, q1, q2) && p != q
  }

  lemma OnlyPoint(x: Point)
    ensures forall p :: OnSegment(p, x, x) <==> p == x
  {
    forall p
      ensures OnSegment(p, x, x) <==> p == x
    {
      AtEnds(x, x, 0.0);
    }
  }

  // ---------- from orientation tests to sides ----------

  lemma TurnIsSide(p1: Coordinate, p2: Coordinate, q: Coordinate)
    ensures Turn(p1, p2, q) > 0 <==> Side(Exact(p1), Exact(p2), Exact(q)) > 0.0
    ensures Turn(p1, p2, q) < 0 <==> Side(Exact(p1), Exact(p2), Exact(q)) < 0.0
  {
    ExactSide(p1, p2, q);
  }

  predicate SameSide(a: int, b: int) {
    (a > 0 && b > 0) || (a < 0 && b < 0)
  }

  lemma TurnsApart(p1: Coordinate, p2: Coordinate, q1: Coordinate, q2: Coordinate)
    requires SameSide(Turn(p1, p2, q1), Turn(p1, p2, q2))
    ensures forall p :: !Shared(p, Exact(p1), Exact(p2), Exact(q1), Exact(q2))
    ensures forall p :: !Shared(p, Exact(q1), Exact(q2), Exact(p1), Exact(p2))
  {
    hide Side, Exact, OnSegment;
    TurnIsSide(p1, p2, q1);
    TurnIsSide(p1, p2, q2);
    SameSideApart(Exact(p1), Exact(p2), Exact(q1), Exact(q2));
    assert forall p :: Shared(p, Exact(q1), Exact(q2), Exact(p1), Exact(p2)) ==>
      Shared(p, Exact(p1), Exact(p2), Exact(q1), Exact(q2));
  }

  /** No orientation test separates the segments, and they do not lie in one line. */
  ghost predicate NotApart(p1: Coordinate, p2: Coordinate, q1: Coordinate, q2: Coordinate) {
    && !SameSide(Turn(p1, p2, q1), Turn(p1, p2, q2)) && !SameSide(Turn(q1, q2, p1), Turn(q1, q2, p2))
    && !(Turn(p1, p2, q1) == 0 && Turn(p1, p2, q2) == 0 && Turn(q1, q2, p1) == 0 && Turn(q1, q2, p2) == 0)
  }

  ghost predicate AnyEnd(p1: Coordinate, p2: Coordinate, q1: Coordinate, q2: Coordinate) {
    Turn(p1, p2, q1) == 0 || Turn(p1, p2, q2) == 0 || Turn(q1, q2, p1) == 0 || Turn(q1, q2, p2) == 0
  }

  /** Then they share exactly one point, the crossing of their lines. */
  lemma CrossInOne(p1: Coordinate, p2: Coordinate, q1: Coordinate, q2: Coordinate) returns (x: Point)
    requires NotApart(p1, p2, q1, q2)
    ensures Across(Exact(p1), Exact(p2), Exact(q1), Exact(q2)) != 0.0 && p1 != p2 && q1 != q2
    ensures x == Crossing(Exact(p1), Exact(p2), Exact(q1), Exact(q2))
    ensures forall p :: Shared(p, Exact(p1), Exact(p2), Exact(q1), Exact(q2)) <==> p == x
    ensures Turn(p1, p2, q1) == 0 ==> x == Exact(q1)
    ensures Turn(p1, p2, q2) == 0 ==> x == Exact(q2)
    ensures Turn(q1, q2, p1) == 0 ==> x == Exact(p1)
    ensures Turn(q1, q2, p2) == 0 ==> x == Exact(p2)
    ensures !AnyEnd(p1, p2, q1, q2) <==>
            InsideSegment(x, Exact(p1), Exact(p2)) && InsideSegment(x, Exact(q1), Exact(q2))
  {
    hide Side, Exact, OnSegment, Across, Turn, Crossing;
    var a, b, c, d := Exact(p1), Exact(p2), Exact(q1), Exact(q2);
    TurnIsSide(p1, p2, q1); TurnIsSide(p1, p2, q2); TurnIsSide(q1, q2, p1); TurnIsSide(q1, q2, p2);
    if Across(a, b, c, d) == 0.0 {
      ParallelInLine(a, b, c, d);
      assert false;
    }
    x := Crossing(a, b, c, d);
    AcrossProper(a, b, c, d);
    SharedIsCrossing(a, b, c, d);
    CrossingEnds(a, b, c, d);
  }

  lemma EqualEndsShared(p: Coordinate, p1: Coordinate, p2: Coordinate, q1: Coordinate, q2: Coordinate)
    requires (p == p1 || p == p2) && (p == q1 || p == q2)
    ensures Shared(Exact(p), Exact(p1), Exact(p2), Exact(q1), Exact(q2))
  {
    AtEnds(Exact(p1), Exact(p2), 0.0);
    AtEnds(Exact(q1), Exact(q2), 0.0);
  }

  class LineIntersector {
    var inputLines: seq<Coordinate>
    var result: int
    var isProperVar: bool
    const intPt: array<Point>

    ghost predicate Valid()
      reads this
    {
      |inputLines| == 4 && intPt.Length == 2
    }

    constructor ()
      ensures Valid() && fresh(intPt) && result == NO_INTERSECTION && !isProperVar
    {
      var origin := Coordinate(0, 0);
      inputLines := [origin, origin, origin, origin];
      result, isProperVar := NO_INTERSECTION, false;
      intPt := new Point[2](_ => Exact(Coordinate(0, 0)));
    }

    /** computeIntersection of the segments p1, p2 and p3, p4. */
    method ComputeIntersection(p1: Coordinate, p2: Coordinate, p3: Coordinate, p4: Coordinate)
      requires Valid()
      modifies this, intPt
      ensures Valid()
      ensures Describes(result, intPt[0], intPt[1], Exact(p1), Exact(p2), Exact(p3), Exact(p4))
      ensures isProperVar <==> IsProper(result, intPt[0], Exact(p1), Exact(p2), Exact(p3), Exact(p4))
      ensures result == COLLINEAR_INTERSECTION ==> (intPt[0] != intPt[1] <==> p1 != p2 && p3 != p4)
      ensures result == POINT_INTERSECTION ==> p1 != p2 && p3 != p4
      ensures Counts(result, Exact(p1), Exact(p2), Exact(p3), Exact(p4))
         <==> (p1 != p2 && p3 != p4) || forall p :: !Shared(p, Exact(p1), Exact(p2), Exact(p3), Exact(p4))
    {
      inputLines := [p1, p2, p3, p4];
      result := ComputeIntersect(p1, p2, p3, p4);
      ResultCountsIff(result, intPt[0], intPt[1], p1, p2, p3, p4);
    }

    /** computeIntersection of the point p with the segment p1, p2. */
    method ComputePointIntersection(p: Coordinate, p1: Coordinate, p2: Coordinate)
      requires Valid()
      modifies this`result, this`isProperVar, intPt
      ensures result == if OnSegment(Exact(p), Exact(p1), Exact(p2)) then POINT_INTERSECTION else NO_INTERSECTION
      ensures isProperVar <==> InsideSegment(Exact(p), Exact(p1), Exact(p2))
      ensures result == POINT_INTERSECTION ==> intPt[0] == Exact(p)
    {
      hide Turn, Exact, OnSegment, EnvelopeHolds;
      OnSegmentTests(p, p1, p2);
      ExactIsInjective(p, p1); ExactIsInjective(p, p2);
      isProperVar := false;
      if EnvelopeHolds(p1, p2, p) {
        var o1 := OrientationIndex(p1, p2, p);
        var o2 := OrientationIndex(p2, p1, p);
        if o1 == 0 && o2 == 0 {
          isProperVar := true;
          if p == p1 || p == p2 {
            isProperVar := false;
          }
          intPt[0] := Exact(p);
          result := POINT_INTERSECTION;
          return;
        }
      }
      result := NO_INTERSECTION;
    }

    method ComputeIntersect(p1: Coordinate, p2: Coordinate, q1: Coordinate, q2: Coordinate) returns (r: int)
      requires Valid() && inputLines == [p1, p2, q1, q2]
      modifies this`isProperVar, intPt
      ensures Describes(r, intPt[0], intPt[1], Exact(p1), Exact(p2), Exact(q1), Exact(q2))
      ensures isProperVar <==> IsProper(r, intPt[0], Exact(p1), Exact(p2), Exact(q1), Exact(q2))
      ensures r == COLLINEAR_INTERSECTION ==> (intPt[0] != intPt[1] <==> p1 != p2 && q1 != q2)
      ensures r == POINT_INTERSECTION ==> p1 != p2 && q1 != q2
    {
      isProperVar := false;
      if !EnvelopesMeet(p1, p2, q1, q2) {
        EnvelopesApart(p1, p2, q1, q2);
        return NO_INTERSECTION;
      }
      var Pq1 := OrientationIndex(p1, p2, q1);
      var Pq2 := OrientationIndex(p1, p2, q2);
      if (Pq1 > 0 && Pq2 > 0) || (Pq1 < 0 && Pq2 < 0) {
        TurnsApart(p1, p2, q1, q2);
        return NO_INTERSECTION;
      }
      var Qp1 := OrientationIndex(q1, q2, p1);
      var Qp2 := OrientationIndex(q1, q2, p2);
      if (Qp1 > 0 && Qp2 > 0) || (Qp1 < 0 && Qp2 < 0) {
        TurnsApart(q1, q2, p1, p2);
        return NO_INTERSECTION;
      }
      var collinear := Pq1 == 0 && Pq2 == 0 && Qp1 == 0 && Qp2 == 0;
      if collinear {
        r := ComputeCollinearIntersection(p1, p2, q1, q2);
        return;
      }
      ghost var x := CrossInOne(p1, p2, q1, q2);
      if Pq1 == 0 || Pq2 == 0 || Qp1 == 0 || Qp2 == 0 {
        isProperVar := false;
        if p1 == q1 || p1 == q2 {
          EqualEndsShared(p1, p1, p2, q1, q2);
          intPt[0] := Exact(p1);
        } else if p2 == q1 || p2 == q2 {
          EqualEndsShared(p2, p1, p2, q1, q2);
          intPt[0] := Exact(p2);
        } else if Pq1 == 0 {
          intPt[0] := Exact(q1);
        } else if Pq2 == 0 {
          intPt[0] := Exact(q2);
        } else if Qp1 == 0 {
          intPt[0] := Exact(p1);
        } else if Qp2 == 0 {
          intPt[0] := Exact(p2);
        }
      } else {
        isProperVar := true;
        Intersection(p1, p2, q1, q2);
      }
      return POINT_INTERSECTION;
    }

    predicate IsInSegmentEnvelopes(pt: Point)
      requires Valid()
      reads this
    {
      && InEnvelope(Exact(inputLines[0]), Exact(inputLines[1]), pt)
      && InEnvelope(Exact(inputLines[2]), Exact(inputLines[3]), pt)
    }

    /** intersection: in exact arithmetic neither fallback to the nearest end point is ever taken. */
    method Intersection(p1: Coordinate, p2: Coordinate, q1: Coordinate, q2: Coordinate)
      requires Valid() && inputLines == [p1, p2, q1, q2]
      requires Across(Exact(p1), Exact(p2), Exact(q1), Exact(q2)) != 0.0
      requires Shared(Crossing(Exact(p1), Exact(p2), Exact(q1), Exact(q2)), Exact(p1), Exact(p2), Exact(q1), Exact(q2))
      modifies intPt
      ensures intPt[0] == Crossing(Exact(p1), Exact(p2), Exact(q1), Exact(q2))
    {
      hide Across, Crossing, NormalizedIntersection, HIntersection, OnSegment, InEnvelope, Side;
      NormalizationIsNeutral(Exact(p1), Exact(p2), Exact(q1), Exact(q2));
      HIntersectionIsCrossing(Exact(p1), Exact(p2), Exact(q1), Exact(q2));
      match NormalizedIntersection(Exact(p1), Exact(p2), Exact(q1), Exact(q2)) {
        case NotRepresentable => assert false;
        case Found(point) => intPt[0] := point;
      }
      OnSegmentIff(intPt[0], Exact(p1), Exact(p2));
      OnSegmentIff(intPt[0], Exact(q1), Exact(q2));
      if !IsInSegmentEnvelopes(intPt[0]) {
        assert false;
      }
    }

    method ComputeCollinearIntersection(p1: Coordinate, p2: Coordinate, q1: Coordinate, q2: Coordinate) returns (r: int)
      requires Valid() && Turn(p1, p2, q1) == 0 && Turn(p1, p2, q2) == 0 && Turn(q1, q2, p1) == 0 && Turn(q1, q2, p2) == 0
      modifies intPt
      ensures Describes(r, intPt[0], intPt[1], Exact(p1), Exact(p2), Exact(q1), Exact(q2))
      ensures !IsProper(r, intPt[0], Exact(p1), Exact(p2), Exact(q1), Exact(q2))
      ensures r == COLLINEAR_INTERSECTION ==> (intPt[0] != intPt[1] <==> p1 != p2 && q1 != q2)
      ensures r == POINT_INTERSECTION ==> p1 != p2 && q1 != q2
    {
      hide OnSegment, InEnvelope, Exact, EnvelopeHolds, Turn, Shared;
      TurnsInLine(p1, p2, q1, q2);
      OverlapInLine(Exact(p1), Exact(p2), Exact(q1), Exact(q2));
      EnvelopeHoldsIff(p1, p2, q1); EnvelopeHoldsIff(p1, p2, q2);
      EnvelopeHoldsIff(q1, q2, p1); EnvelopeHoldsIff(q1, q2, p2);
      NoLength(p1, p2, q1); NoLength(p1, p2, q2); NoLength(q1, q2, p1); NoLength(q1, q2, p2);
      OnlyPoint(Exact(p1)); OnlyPoint(Exact(p2));
      ExactIsInjective(p1, p2); ExactIsInjective(q1, q2);
      ExactIsInjective(q1, p1); ExactIsInjective(q1, p2); ExactIsInjective(q2, p1); ExactIsInjective(q2, p2);
      var p1q1p2 := EnvelopeHolds(p1, p2, q1);
      var p1q2p2 := EnvelopeHolds(p1, p2, q2);
      var q1p1q2 := EnvelopeHolds(q1, q2, p1);
      var q1p2q2 := EnvelopeHolds(q1, q2, p2);
      if p1q1p2 && p1q2p2 {
        intPt[0] := Exact(q1);
        intPt[1] := Exact(q2);
        return COLLINEAR_INTERSECTION;
      }
      if q1p1q2 && q1p2q2 {
        intPt[0] := Exact(p1);
        intPt[1] := Exact(p2);
        return COLLINEAR_INTERSECTION;
      }
      if p1q1p2 && q1p1q2 {
        intPt[0] := Exact(q1);
        intPt[1] := Exact(p1);
        return if q1 == p1 && !p1q2p2 && !q1p2q2 then POINT_INTERSECTION else COLLINEAR_INTERSECTION;
      }
      if p1q1p2 && q1p2q2 {
        intPt[0] := Exact(q1);
        intPt[1] := Exact(p2);
        return if q1 == p2 && !p1q2p2 && !q1p1q2 then POINT_INTERSECTION else COLLINEAR_INTERSECTION;
      }
      if p1q2p2 && q1p1q2 {
        intPt[0] := Exact(q2);
        intPt[1] := Exact(p1);
        return if q2 == p1 && !p1q1p2 && !q1p2q2 then POINT_INTERSECTION else COLLINEAR_INTERSECTION;
      }
      if p1q2p2 && q1p2q2 {
        intPt[0] := Exact(q2);
        intPt[1] := Exact(p2);
        return if q2 == p2 && !p1q1p2 && !q1p1q2 then POINT_INTERSECTION else COLLINEAR_INTERSECTION;
      }
      return NO_INTERSECTION;
    }
  }

  lemma TurnsInLine(p1: Coordinate, p2: Coordinate, q1: Coordinate, q2: Coordinate)
    requires Turn(p1, p2, q1) == 0 && Turn(p1, p2, q2) == 0 && Turn(q1, q2, p1) == 0 && Turn(q1, q2, p2) == 0
    ensures InLine(Exact(p1), Exact(p2), Exact(q1), Exact(q2))
  {
    hide Side, Exact;
    TurnIsSide(p1, p2, q1); TurnIsSide(p1, p2, q2); TurnIsSide(q1, q2, p1); TurnIsSide(q1, q2, p2);
  }

  lemma ExactIsInjective(a: Coordinate, b: Coordinate)
    ensures Exact(a) == Exact(b) <==> a == b
  {
  }
}
