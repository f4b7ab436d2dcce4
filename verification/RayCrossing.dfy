/** Point-in-ring by counting the ring segments that cross a ray. */
module RayCrossing {
  import opened Coordinates
  import opened Orientation
  import opened Paths
  import RobustDeterminant
  import Segments

  /** p lies on the closed segment from a to b. */
  ghost predicate OnSegment(p: Coordinate, a: Coordinate, b: Coordinate) {
    && Cross(a, b, p) == 0
    && (a.x <= p.x <= b.x || b.x <= p.x <= a.x)
    && (a.y <= p.y <= b.y || b.y <= p.y <= a.y)
  }

  ghost predicate OnRing(p: Coordinate, ring: seq<Coordinate>) {
    exists i :: 0 < i < |ring| && OnSegment(p, ring[i - 1], ring[i])
  }

  /** The segment spans the horizontal line through p, lower end included and upper end excluded. */
  ghost predicate Straddles(p: Coordinate, a: Coordinate, b: Coordinate) {
    (a.y > p.y) != (b.y > p.y)
  }

  /** The segment meets the horizontal line through p strictly to the right of p. */
  ghost predicate CrossesRight(p: Coordinate, a: Coordinate, b: Coordinate) {
    Straddles(p, a, b) && (if b.y < a.y then Cross(a, b, p) < 0 else Cross(a, b, p) > 0)
  }

  /** The segment meets the horizontal line through p strictly to the left of p. */
  ghost predicate CrossesLeft(p: Coordinate, a: Coordinate, b: Coordinate) {
    Straddles(p, a, b) && (if b.y < a.y then Cross(a, b, p) > 0 else Cross(a, b, p) < 0)
  }

  ghost function RightRay(p: Coordinate): (Coordinate, Coordinate) -> int {
    (a, b) => if CrossesRight(p, a, b) then 1 else 0
  }

  ghost function LeftRay(p: Coordinate): (Coordinate, Coordinate) -> int {
    (a, b) => if CrossesLeft(p, a, b) then 1 else 0
  }

  ghost function Spanning(p: Coordinate): (Coordinate, Coordinate) -> int {
    (a, b) => if Straddles(p, a, b) then 1 else 0
  }

  ghost function Holding(p: Coordinate): (Coordinate, Coordinate) -> int {
    (a, b) => if OnSegment(p, a, b) then 1 else 0
  }

  /** The location of p by a ray: on a segment, or else inside iff an odd number of segments cross. */
  ghost function LocationBy(ray: (Coordinate, Coordinate) -> int, p: Coordinate, ring: seq<Coordinate>): Location {
    if OnRing(p, ring) then BOUNDARY
    else if PathSum(ray, ring) % 2 == 1 then INTERIOR
    else EXTERIOR
  }

  /** What one segment does to the counter; see `SegmentCases` for why the shortcuts are sound. */
  ghost predicate Flags(p: Coordinate, a: Coordinate, b: Coordinate) {
    OnSegment(p, a, b) && !(p == a && b.y < a.y)
  }

  class RayCrossingCounter {
    const point: Coordinate
    var crossingCount: nat
    var isPointOnSegment: bool

    constructor (p: Coordinate)
      ensures point == p && crossingCount == 0 && !isPointOnSegment
    {
      point := p;
      crossingCount, isPointOnSegment := 0, false;
    }

    /** Adds one segment. The flag misses the start point of a downward segment, and nothing else. */
    method CountSegment(p1: Coordinate, p2: Coordinate)
      modifies this
      ensures isPointOnSegment == (old(isPointOnSegment) || Flags(point, p1, p2))
      ensures crossingCount == old(crossingCount) + RightRay(point)(p1, p2)
    {
      SegmentCases(point, p1, p2);
      if p1.x < point.x && p2.x < point.x {
        return;
      }
      if point.x == p2.x && point.y == p2.y {
        isPointOnSegment := true;
        return;
      }
      if p1.y == point.y && p2.y == point.y {
        var minx := p1.x;
        var maxx := p2.x;
        if minx > maxx {
          minx := p2.x;
          maxx := p1.x;
        }
        if point.x >= minx && point.x <= maxx {
          isPointOnSegment := true;
        }
        return;
      }
      if (p1.y > point.y && p2.y <= point.y) || (p2.y > point.y && p1.y <= point.y) {
        var sign := OrientationIndex(p1, p2, point);
        if sign == 0 {
          isPointOnSegment := true;
          return;
        }
        if p2.y < p1.y {
          sign := -sign;
        }
        if sign > 0 {
          crossingCount := crossingCount + 1;
        }
      }
    }

    method GetLocation() returns (location: Location)
      ensures location == if isPointOnSegment then BOUNDARY
                          else if crossingCount % 2 == 1 then INTERIOR else EXTERIOR
    {
      if isPointOnSegment {
        return BOUNDARY;
      }
      if crossingCount % 2 == 1 {
        return INTERIOR;
      }
      return EXTERIOR;
    }
  }

  /** For a closed ring: on the boundary, or else inside iff the rightward ray meets an odd number of segments. */
  method LocatePointInRing(p: Coordinate, ring: seq<Coordinate>) returns (location: Location)
    requires IsClosed(ring)
    ensures location == LocationBy(RightRay(p), p, ring)
    ensures location == BOUNDARY <==> OnRing(p, ring)
    ensures location == INTERIOR <==> !OnRing(p, ring) && |Crossings(p, ring)| % 2 == 1
    ensures location == EXTERIOR <==> !OnRing(p, ring) && |Crossings(p, ring)| % 2 == 0
  {
    hide Crossings, OnSegment;
    CrossingsAreCounted(p, ring);
    var rcc := new RayCrossingCounter(p);
    var i := 1;
    while i < |ring|
      invariant 1 <= i && (ring != [] ==> i <= |ring|)
      invariant !rcc.isPointOnSegment
      invariant forall j :: 0 < j < i && j < |ring| ==> !Flags(p, ring[j - 1], ring[j])
      invariant rcc.crossingCount == if ring == [] then 0 else PathSum(RightRay(p), ring[..i])
    {
      rcc.CountSegment(ring[i - 1], ring[i]);
      assert ring[..i + 1][..i] == ring[..i];
      if rcc.isPointOnSegment {
        location := rcc.GetLocation();
        return;
      }
      i := i + 1;
    }
    assert ring != [] ==> ring[..i] == ring;
    FlagsSuffice(p, ring);
    location := rcc.GetLocation();
  }

  /** CGAlgorithms::isPointInRing: the boundary counts as inside. */
  method IsPointInRing(p: Coordinate, ring: seq<Coordinate>) returns (inside: bool)
    requires IsClosed(ring)
    ensures inside == (LocationBy(RightRay(p), p, ring) != EXTERIOR)
    ensures inside <==> OnRing(p, ring) || |Crossings(p, ring)| % 2 == 1
  {
    var location := LocatePointInRing(p, ring);
    inside := location != EXTERIOR;
  }

  /** The shortcuts of `CountSegment` agree with the geometric reading of the segment. */
  lemma SegmentCases(p: Coordinate, a: Coordinate, b: Coordinate)
    ensures a.x < p.x && b.x < p.x ==> !OnSegment(p, a, b) && !CrossesRight(p, a, b)
    ensures p == b ==> Flags(p, a, b) && !CrossesRight(p, a, b)
    ensures a.y == p.y == b.y ==> Cross(a, b, p) == 0 && !Straddles(p, a, b)
    ensures Straddles(p, a, b) && Cross(a, b, p) == 0 ==> OnSegment(p, a, b)
    ensures OnSegment(p, a, b) && !Straddles(p, a, b) && !(a.y == p.y == b.y) ==> p == b || (p == a && b.y < a.y)
  {
    var dx, dy, ex, ey := b.x - a.x, b.y - a.y, p.x - b.x, p.y - b.y;
    assert Cross(a, b, p) == dx * ey - ex * dy;
    assert (a.x - p.x) == -(dx + ex) && a.y - p.y == -(dy + ey);
    if Straddles(p, a, b) {
      StraddleSide(dx, dy, ex, ey);
    }
    if OnSegment(p, a, b) && !Straddles(p, a, b) && !(a.y == p.y == b.y) {
      if p.y == b.y {
        assert ex * dy == 0;
      } else {
        assert p.y == a.y;
        assert (dx + ex) * dy == 0;
      }
    }
  }

  /** For a segment vector (dx, dy) and an offset (ex, ey) from its end whose height is spanned by it:
      the sign of the cross product says on which side the offset lies, and zero puts it between the ends. */
  lemma StraddleSide(dx: int, dy: int, ex: int, ey: int)
    requires (dy < 0 && 0 <= ey < -dy) || (dy > 0 && -dy <= ey < 0)
    ensures ex > 0 && dx + ex > 0 && dy < 0 ==> dx * ey - ex * dy > 0
    ensures ex > 0 && dx + ex > 0 && dy > 0 ==> dx * ey - ex * dy < 0
    ensures ex < 0 && dx + ex < 0 ==> dx * ey - ex * dy != 0
    ensures dx * ey - ex * dy == 0 ==> (ex == 0 || dx + ex == 0 || (ex > 0) != (dx + ex > 0))
  {
    assert dx * ey - ex * dy == (dx + ex) * ey - ex * (dy + ey);
    RobustDeterminant.ProductSign(dx + ex, ey);
    RobustDeterminant.ProductSign(ex, dy + ey);
  }

  // ---------- what the sign tests mean ----------

  /** The point at parameter t of the segment is level with p, and strictly to its right; or to its left. */
  ghost predicate LevelRight(p: Coordinate, a: Coordinate, b: Coordinate, t: real) {
    var q := Segments.At(Segments.Exact(a), Segments.Exact(b), t);
    0.0 <= t <= 1.0 && q.y == p.y as real && q.x > p.x as real
  }

  ghost predicate LevelLeft(p: Coordinate, a: Coordinate, b: Coordinate, t: real) {
    var q := Segments.At(Segments.Exact(a), Segments.Exact(b), t);
    0.0 <= t <= 1.0 && q.y == p.y as real && q.x < p.x as real
  }

  /** The segment spans the height of p, lower end included and upper end excluded, and is there right of p. */
  ghost predicate MeetsRightRay(p: Coordinate, a: Coordinate, b: Coordinate) {
    (a.y <= p.y < b.y || b.y <= p.y < a.y) && exists t :: LevelRight(p, a, b, t)
  }

  /** The segments of the ring that the rightward ray meets. */
  ghost function Crossings(p: Coordinate, ring: seq<Coordinate>): set<int> {
    set i | 0 < i < |ring| && MeetsAt(p, ring, i)
  }

  ghost predicate MeetsAt(p: Coordinate, ring: seq<Coordinate>, i: int)
    requires 0 < i < |ring|
  {
    MeetsRightRay(p, ring[i - 1], ring[i])
  }

  lemma {:induction false} CrossingsAreCounted(p: Coordinate, ring: seq<Coordinate>)
    ensures PathSum(RightRay(p), ring) == |Crossings(p, ring)|
  {
    hide MeetsRightRay, CrossesRight, MeetsAt, Crossings;
    if |ring| >= 2 {
      var n, front := |ring| - 1, ring[..|ring| - 1];
      CrossingsAreCounted(p, front);
      MeetsIff(p, ring[n - 1], ring[n]);
      CrossingsPush(p, ring);
    } else {
      NoCrossings(p, ring);
    }
  }

  lemma NoCrossings(p: Coordinate, ring: seq<Coordinate>)
    requires |ring| < 2
    ensures Crossings(p, ring) == {}
  {
  }

  lemma CrossingsPush(p: Coordinate, ring: seq<Coordinate>)
    requires |ring| >= 2
    ensures var n, front := |ring| - 1, ring[..|ring| - 1];
            |Crossings(p, ring)| == |Crossings(p, front)| + if MeetsRightRay(p, ring[n - 1], ring[n]) then 1 else 0
  {
    hide MeetsRightRay;
    var n, front := |ring| - 1, ring[..|ring| - 1];
    forall i | 0 < i < n
      ensures MeetsAt(p, front, i) == MeetsAt(p, ring, i)
    {
    }
    assert Crossings(p, ring) == Crossings(p, front) + if MeetsAt(p, ring, n) then {n} else {};
  }

  lemma MeetsIff(p: Coordinate, a: Coordinate, b: Coordinate)
    ensures MeetsRightRay(p, a, b) <==> CrossesRight(p, a, b)
  {
    hide CrossesRight, LevelRight;
    CrossesIff(p, a, b);
  }

  /** Membership in a segment, by turns and ranges, is that of the points between its ends. */
  lemma OnSegmentIff(p: Coordinate, a: Coordinate, b: Coordinate)
    ensures OnSegment(p, a, b) <==> Segments.OnSegment(Segments.Exact(p), Segments.Exact(a), Segments.Exact(b))
  {
    hide Cross, Segments.Side;
    Segments.OnSegmentIff(Segments.Exact(p), Segments.Exact(a), Segments.Exact(b));
    Segments.ExactSide(a, b, p);
  }

  /** A segment crosses a ray exactly if it spans the height of p, and its point there lies strictly on that side. */
  lemma CrossesIff(p: Coordinate, a: Coordinate, b: Coordinate)
    ensures CrossesRight(p, a, b) <==> Straddles(p, a, b) && exists t :: LevelRight(p, a, b, t)
    ensures CrossesLeft(p, a, b) <==> Straddles(p, a, b) && exists t :: LevelLeft(p, a, b, t)
  {
    hide Cross;
    if Straddles(p, a, b) {
      var d, h := (b.y - a.y) as real, (p.y - a.y) as real;
      var t := h / d;
      LevelParameter(d, h);
      LevelGap(p, a, b, t);
      if CrossesRight(p, a, b) {
        assert LevelRight(p, a, b, t);
      }
      if CrossesLeft(p, a, b) {
        assert LevelLeft(p, a, b, t);
      }
      forall s: real | LevelRight(p, a, b, s) || LevelLeft(p, a, b, s)
        ensures s == t
      {
        OneParameter(d, h, s);
      }
    }
  }

  /** The parameter of a height h above one end of a segment that rises by d. */
  lemma LevelParameter(d: real, h: real)
    requires 0.0 <= h < d || d <= h < 0.0
    ensures d != 0.0 && 0.0 <= h / d <= 1.0 && (h / d) * d == h
  {
    var t := h / d;
    assert t * d == h;
    Segments.ProductSign(t, d);
    Segments.ProductSign(t - 1.0, d);
  }

  lemma OneParameter(d: real, h: real, s: real)
    requires d != 0.0 && s * d == h
    ensures s == h / d
  {
  }

  /** How far the segment's point level with p lies from p, against the sign test. */
  lemma LevelGap(p: Coordinate, a: Coordinate, b: Coordinate, t: real)
    requires a.y != b.y && t * (b.y - a.y) as real == (p.y - a.y) as real
    ensures var gap := Segments.At(Segments.Exact(a), Segments.Exact(b), t).x - p.x as real;
            && gap * (b.y - a.y) as real == Cross(a, b, p) as real
            && (b.y > a.y ==> (gap > 0.0 <==> Cross(a, b, p) > 0) && (gap < 0.0 <==> Cross(a, b, p) < 0))
            && (b.y < a.y ==> (gap > 0.0 <==> Cross(a, b, p) < 0) && (gap < 0.0 <==> Cross(a, b, p) > 0))
  {
    var gap := Segments.At(Segments.Exact(a), Segments.Exact(b), t).x - p.x as real;
    GapTimes(t, a.x as real, b.x as real, p.x as real, (b.y - a.y) as real);
    CrossFromStart(p, a, b);
    assert gap * (b.y - a.y) as real == Cross(a, b, p) as real by {
      Products((a.x - p.x), b.y - a.y, p.y - a.y, b.x - a.x);
    }
    Segments.ProductSign(gap, (b.y - a.y) as real);
  }

  lemma GapTimes(t: real, ax: real, bx: real, px: real, d: real)
    ensures (ax + t * (bx - ax) - px) * d == (ax - px) * d + (t * d) * (bx - ax)
  {
  }

  lemma CrossFromStart(p: Coordinate, a: Coordinate, b: Coordinate)
    ensures Cross(a, b, p) == (a.x - p.x) * (b.y - a.y) + (p.y - a.y) * (b.x - a.x)
  {
  }

  lemma Products(u: int, d: int, h: int, w: int)
    ensures (u * d + h * w) as real == (u as real) * (d as real) + (h as real) * (w as real)
  {
  }

  /** On a closed ring the one point a segment can miss is caught by the segment that ends there. */
  lemma FlagsSuffice(p: Coordinate, ring: seq<Coordinate>)
    requires IsClosed(ring)
    requires forall j :: 0 < j < |ring| ==> !Flags(p, ring[j - 1], ring[j])
    ensures !OnRing(p, ring)
  {
    forall i | 0 < i < |ring|
      ensures !OnSegment(p, ring[i - 1], ring[i])
    {
      if OnSegment(p, ring[i - 1], ring[i]) {
        assert !Flags(p, ring[i - 1], ring[i]);
        assert p == ring[i - 1];
        var j := if i == 1 then |ring| - 1 else i - 1;
        SegmentCases(p, ring[j - 1], ring[j]);
        assert false;
      }
    }
  }

  lemma RingPredicates(p: Coordinate, ring: seq<Coordinate>)
    ensures OnRing(p, ring) <==> PathSum(Holding(p), ring) > 0
  {
    PathSumPositive(Holding(p), ring);
    if OnRing(p, ring) {
      var i :| 0 < i < |ring| && OnSegment(p, ring[i - 1], ring[i]);
      assert Holding(p)(ring[i - 1], ring[i]) > 0;
    }
  }

  /** Reversing the ring changes no location. */
  lemma LocationReversed(p: Coordinate, ring: seq<Coordinate>)
    ensures LocationBy(RightRay(p), p, Reversed(ring)) == LocationBy(RightRay(p), p, ring)
  {
    forall a, b
      ensures RightRay(p)(a, b) == RightRay(p)(b, a) && Holding(p)(a, b) == Holding(p)(b, a)
    {
      TurnSymmetry(a, b, p);
    }
    PathSumReversed(RightRay(p), RightRay(p), ring);
    PathSumReversed(Holding(p), Holding(p), ring);
    RingPredicates(p, ring);
    RingPredicates(p, Reversed(ring));
  }

  /** Starting the ring at another of its vertices changes no location. */
  lemma LocationStartingAt(p: Coordinate, ring: seq<Coordinate>, k: nat)
    requires IsClosed(ring) && k < |ring|
    ensures LocationBy(RightRay(p), p, StartingAt(ring, k)) == LocationBy(RightRay(p), p, ring)
  {
    PathSumStartingAt(RightRay(p), ring, k);
    PathSumStartingAt(Holding(p), ring, k);
    RingPredicates(p, ring);
    RingPredicates(p, StartingAt(ring, k));
  }

  /** A path spans a height an even number of times iff it ends on the side where it began. */
  lemma {:induction false} SpanningParity(p: Coordinate, path: seq<Coordinate>)
    requires path != []
    ensures PathSum(Spanning(p), path) % 2 == 0 <==> (path[0].y > p.y) == (path[|path| - 1].y > p.y)
  {
    if |path| >= 2 {
      SpanningParity(p, path[..|path| - 1]);
    }
  }

  /** A spanning segment that misses the point crosses exactly one of the two rays. */
  lemma OneRay(p: Coordinate, a: Coordinate, b: Coordinate)
    requires !OnSegment(p, a, b)
    ensures Spanning(p)(a, b) == RightRay(p)(a, b) + LeftRay(p)(a, b)
  {
    hide Cross;
    SegmentCases(p, a, b);
  }

  /** Off the ring, the two rays share out the spanning segments. */
  lemma SpanningSplits(p: Coordinate, ring: seq<Coordinate>)
    requires IsClosed(ring) && !OnRing(p, ring)
    ensures (PathSum(RightRay(p), ring) + PathSum(LeftRay(p), ring)) % 2 == 0
  {
    hide PathSum, Spanning, RightRay, LeftRay, OnSegment;
    forall i | 0 < i < |ring|
      ensures Spanning(p)(ring[i - 1], ring[i]) == RightRay(p)(ring[i - 1], ring[i]) + LeftRay(p)(ring[i - 1], ring[i])
    {
      OneRay(p, ring[i - 1], ring[i]);
    }
    PathSumAdd(RightRay(p), LeftRay(p), Spanning(p), ring);
    if ring == [] {
      NoSegments(RightRay(p));
      NoSegments(LeftRay(p));
    } else {
      SpanningParity(p, ring);
    }
  }

  lemma NoSegments(f: (Coordinate, Coordinate) -> int)
    ensures PathSum(f, []) == 0
  {
  }

  /** Counting the crossings of the leftward ray gives the same location. */
  lemma LocationByLeftRay(p: Coordinate, ring: seq<Coordinate>)
    requires IsClosed(ring)
    ensures LocationBy(LeftRay(p), p, ring) == LocationBy(RightRay(p), p, ring)
  {
    if !OnRing(p, ring) {
      SpanningSplits(p, ring);
    }
  }

  /** A point inside a ring has ring segments crossing the ray on both of its sides. */
  lemma InteriorHasBothSides(p: Coordinate, ring: seq<Coordinate>) returns (right: nat, left: nat)
    requires IsClosed(ring) && LocationBy(RightRay(p), p, ring) == INTERIOR
    ensures 0 < right < |ring| && CrossesRight(p, ring[right - 1], ring[right])
    ensures 0 < left < |ring| && CrossesLeft(p, ring[left - 1], ring[left])
  {
    LocationByLeftRay(p, ring);
    right := Witness(RightRay(p), ring);
    left := Witness(LeftRay(p), ring);
  }

  lemma Witness(f: (Coordinate, Coordinate) -> int, path: seq<Coordinate>) returns (i: nat)
    requires forall a, b :: f(a, b) >= 0
    requires PathSum(f, path) % 2 == 1
    ensures 0 < i < |path| && f(path[i - 1], path[i]) > 0
  {
    PathSumPositive(f, path);
    i :| 0 < i < |path| && f(path[i - 1], path[i]) > 0;
  }
}
