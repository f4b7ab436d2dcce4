/** The signed area of a ring and the triangle fan behind the centroid: two forms of one sum. */
module AreaSums {
  import opened Coordinates
  import opened Paths
  import opened RingOrientation

  // ---------- sums over closed rings ----------

  /** Twice the signed area of the triangle from the origin over the segment a, b. */
  function Shoelace(a: Coordinate, b: Coordinate): int {
    a.x * b.y - b.x * a.y
  }

  /** Six times the first moments of that triangle. */
  function MomentX(a: Coordinate, b: Coordinate): int {
    Shoelace(a, b) * (a.x + b.x)
  }

  function MomentY(a: Coordinate, b: Coordinate): int {
    Shoelace(a, b) * (a.y + b.y)
  }

  /** The change of h along the segment. */
  ghost function Change(h: Coordinate -> int): (Coordinate, Coordinate) -> int {
    (a, b) => h(b) - h(a)
  }

  lemma {:induction false} ChangesCancel(h: Coordinate -> int, path: seq<Coordinate>)
    requires path != []
    ensures PathSum(Change(h), path) == h(path[|path| - 1]) - h(path[0])
  {
    if |path| >= 2 {
      ChangesCancel(h, path[..|path| - 1]);
    }
  }

  /** Terms that differ by the change of some h along each segment have the same sum over a closed ring. */
  lemma SameOnRing(f: (Coordinate, Coordinate) -> int, g: (Coordinate, Coordinate) -> int, h: Coordinate -> int,
                   ring: seq<Coordinate>)
    requires IsClosed(ring) && forall a, b :: f(a, b) == g(a, b) + (h(b) - h(a))
    ensures PathSum(f, ring) == PathSum(g, ring)
  {
    if ring != [] {
      PathSumAdd(g, Change(h), f, ring);
      ChangesCancel(h, ring);
    }
  }

  lemma {:induction false} PathSumNegated(f: (Coordinate, Coordinate) -> int, g: (Coordinate, Coordinate) -> int,
                                          path: seq<Coordinate>)
    requires forall a, b :: g(a, b) == -f(a, b)
    ensures PathSum(g, path) == -PathSum(f, path)
  {
    if |path| >= 2 {
      PathSumNegated(f, g, path[..|path| - 1]);
    }
  }

  /** Reversing a path negates every sum of terms that change sign with the direction of the segment. */
  lemma ReversedNegates(f: (Coordinate, Coordinate) -> int, path: seq<Coordinate>)
    requires forall a, b :: f(b, a) == -f(a, b)
    ensures PathSum(f, Reversed(path)) == -PathSum(f, path)
  {
    var g := (a: Coordinate, b: Coordinate) => f(b, a);
    PathSumReversed(f, g, path);
    PathSumNegated(f, g, path);
  }

  lemma ReversedSums(path: seq<Coordinate>)
    ensures PathSum(Shoelace, Reversed(path)) == -PathSum(Shoelace, path)
    ensures PathSum(MomentX, Reversed(path)) == -PathSum(MomentX, path)
    ensures PathSum(MomentY, Reversed(path)) == -PathSum(MomentY, path)
  {
    ReversedNegates(Shoelace, path);
    ReversedNegates(MomentX, path);
    ReversedNegates(MomentY, path);
  }

  // ---------- the one-pass signed area ----------

  /** The shoelace term with x counted from x0. */
  ghost function ShiftedShoelace(x0: int): (Coordinate, Coordinate) -> int {
    (a: Coordinate, b: Coordinate) => (a.x - x0) * b.y - (b.x - x0) * a.y
  }

  lemma ShiftIsNeutral(x0: int, ring: seq<Coordinate>)
    requires IsClosed(ring)
    ensures PathSum(ShiftedShoelace(x0), ring) == PathSum(Shoelace, ring)
  {
    var h := (p: Coordinate) => -x0 * p.y;
    forall a, b
      ensures ShiftedShoelace(x0)(a, b) == Shoelace(a, b) + (h(b) - h(a))
    {
      ShiftedTerm(x0, a, b);
    }
    SameOnRing(ShiftedShoelace(x0), Shoelace, h, ring);
  }

  lemma ShiftedTerm(x0: int, a: Coordinate, b: Coordinate)
    ensures (a.x - x0) * b.y - (b.x - x0) * a.y == Shoelace(a, b) + (-x0 * b.y - (-x0 * a.y))
  {
  }

  /** signedArea: minus half the shoelace sum, so positive for a clockwise ring. */
  method SignedArea(ring: seq<Coordinate>) returns (area: real)
    requires IsClosed(ring)
    ensures area == -(PathSum(Shoelace, ring) as real) / 2.0
  {
    var npts := |ring|;
    if npts < 3 {
      return 0.0;
    }
    var ppY := 0;
    var cp, np := ring[0], ring[1];
    var x0 := cp.x;
    np := Coordinate(np.x - x0, np.y);
    var sum := 0;
    ghost var f := ShiftedShoelace(x0);
    var i := 1;
    while i < npts
      invariant 1 <= i <= npts
      invariant cp.y == ring[if i <= 2 then i - 1 else i - 2].y
      invariant np == if i == 1 then Coordinate(ring[1].x - x0, ring[1].y) else Coordinate(ring[i - 1].x - x0, ring[i - 1].y)
      invariant i == 1 ==> sum == 0
      invariant i == 2 ==> sum == (ring[1].x - x0) * (ring[1].y - ring[0].y)
      invariant i > 2 ==> sum == PathSum(f, ring[..i]) + (ring[i - 1].x - x0) * ring[i - 2].y
    {
      ppY := cp.y;
      cp := Coordinate(np.x, np.y);
      np := ring[i];
      np := Coordinate(np.x - x0, np.y);
      sum := sum + cp.x * (np.y - ppY);
      AreaStep(ring, i);
      i := i + 1;
    }
    assert ring[..npts] == ring;
    ShiftIsNeutral(x0, ring);
    return -(sum as real) / 2.0;
  }

  /** What the sum over the first i points becomes with one more. */
  lemma AreaStep(ring: seq<Coordinate>, i: nat)
    requires 1 <= i < |ring|
    ensures var f := ShiftedShoelace(ring[0].x);
            PathSum(f, ring[..i + 1]) == (if i < 2 then 0 else PathSum(f, ring[..i])) + f(ring[i - 1], ring[i])
  {
    assert ring[..i + 1][..i] == ring[..i];
  }

  // ---------- the triangle fan ----------

  /** Twice the signed area of a triangle. */
  function Area2(p1: Coordinate, p2: Coordinate, p3: Coordinate): int {
    (p2.x - p1.x) * (p3.y - p1.y) - (p3.x - p1.x) * (p2.y - p1.y)
  }

  /** The fan terms of one segment, seen from the base point. */
  ghost function FanArea(base: Coordinate): (Coordinate, Coordinate) -> int {
    (a, b) => Area2(base, a, b)
  }

  ghost function FanX(base: Coordinate): (Coordinate, Coordinate) -> int {
    (a: Coordinate, b: Coordinate) => Area2(base, a, b) * (base.x + a.x + b.x)
  }

  ghost function FanY(base: Coordinate): (Coordinate, Coordinate) -> int {
    (a: Coordinate, b: Coordinate) => Area2(base, a, b) * (base.y + a.y + b.y)
  }

  lemma FanTerms(base: Coordinate, a: Coordinate, b: Coordinate)
    ensures Area2(base, a, b) == Shoelace(a, b) + (Shoelace(b, base) - Shoelace(a, base))
    ensures Area2(base, a, b) * (base.x + a.x + b.x) == MomentX(a, b) + (MomentX(b, base) - MomentX(a, base))
    ensures Area2(base, a, b) * (base.y + a.y + b.y) == MomentY(a, b) + (MomentY(b, base) - MomentY(a, base))
  {
  }

  /** Whatever the base point, the triangle fan over a closed ring sums to the ring's own area and moments. */
  lemma FanIsShoelace(base: Coordinate, ring: seq<Coordinate>)
    requires IsClosed(ring)
    ensures PathSum(FanArea(base), ring) == PathSum(Shoelace, ring)
    ensures PathSum(FanX(base), ring) == PathSum(MomentX, ring)
    ensures PathSum(FanY(base), ring) == PathSum(MomentY, ring)
  {
    hide *;
    FanAreaTerms(base);
    FanXTerms(base);
    FanYTerms(base);
    FanSum(base, ring, FanArea(base), Shoelace);
    FanSum(base, ring, FanX(base), MomentX);
    FanSum(base, ring, FanY(base), MomentY);
  }

  /** A fan term is a term of f, up to a part that cancels round a ring. */
  ghost predicate Telescopes(base: Coordinate, fan: (Coordinate, Coordinate) -> int, f: (Coordinate, Coordinate) -> int) {
    forall a, b :: fan(a, b) == f(a, b) + (f(b, base) - f(a, base))
  }

  lemma FanAreaTerms(base: Coordinate)
    ensures Telescopes(base, FanArea(base), Shoelace)
  {
    hide Shoelace, Area2;
    forall a, b {
      FanTerms(base, a, b);
    }
  }

  lemma FanXTerms(base: Coordinate)
    ensures Telescopes(base, FanX(base), MomentX)
  {
    hide MomentX, Area2;
    forall a, b {
      FanTerms(base, a, b);
    }
  }

  lemma FanYTerms(base: Coordinate)
    ensures Telescopes(base, FanY(base), MomentY)
  {
    hide MomentY, Area2;
    forall a, b {
      FanTerms(base, a, b);
    }
  }

  lemma FanSum(base: Coordinate, ring: seq<Coordinate>, fan: (Coordinate, Coordinate) -> int,
               f: (Coordinate, Coordinate) -> int)
    requires IsClosed(ring) && Telescopes(base, fan, f)
    ensures PathSum(fan, ring) == PathSum(f, ring)
  {
    SameOnRing(fan, f, p => f(p, base), ring);
  }

  datatype BasePoint = NoBase | Base(point: Coordinate)

  /** The running sums of an areal centroid. */
  class Centroid {
    var areaBasePt: BasePoint
    var cg3x: int
    var cg3y: int
    var areasum2: int

    constructor ()
      ensures areaBasePt == NoBase && cg3x == 0 && cg3y == 0 && areasum2 == 0
    {
      areaBasePt, cg3x, cg3y, areasum2 := NoBase, 0, 0, 0;
    }

    method SetBasePoint(basePt: Coordinate)
      modifies this`areaBasePt
      ensures areaBasePt == if old(areaBasePt) == NoBase then Base(basePt) else old(areaBasePt)
    {
      if areaBasePt == NoBase {
        areaBasePt := Base(basePt);
      }
    }

    method AddTriangle(p0: Coordinate, p1: Coordinate, p2: Coordinate, isPositiveArea: bool)
      modifies this`cg3x, this`cg3y, this`areasum2
      ensures var sign := if isPositiveArea then 1 else -1;
              && areasum2 == old(areasum2) + sign * Area2(p0, p1, p2)
              && cg3x == old(cg3x) + sign * (Area2(p0, p1, p2) * (p0.x + p1.x + p2.x))
              && cg3y == old(cg3y) + sign * (Area2(p0, p1, p2) * (p0.y + p1.y + p2.y))
    {
      var sign := if isPositiveArea then 1 else -1;
      var cx, cy := p0.x + p1.x + p2.x, p0.y + p1.y + p2.y;
      var a2 := Area2(p0, p1, p2);
      cg3x := cg3x + sign * a2 * cx;
      cg3y := cg3y + sign * a2 * cy;
      areasum2 := areasum2 + sign * a2;
    }

    /** The triangles from the base point over the segments of a ring, counted positively or negatively. */
    method AddFan(pts: seq<Coordinate>, isPositiveArea: bool)
      requires areaBasePt.Base? && pts != [] && IsClosed(pts)
      modifies this`cg3x, this`cg3y, this`areasum2
      ensures var sign := if isPositiveArea then 1 else -1;
              && areasum2 == old(areasum2) + sign * PathSum(Shoelace, pts)
              && cg3x == old(cg3x) + sign * PathSum(MomentX, pts)
              && cg3y == old(cg3y) + sign * PathSum(MomentY, pts)
    {
      hide Area2, Shoelace, MomentX, MomentY;
      var base := areaBasePt.point;
      ghost var sign := if isPositiveArea then 1 else -1;
      ghost var f, fx, fy := FanArea(base), FanX(base), FanY(base);
      var i := 0;
      while i < |pts| - 1
        invariant 0 <= i <= |pts| - 1
        invariant areasum2 == old(areasum2) + sign * PathSum(f, pts[..i + 1])
        invariant cg3x == old(cg3x) + sign * PathSum(fx, pts[..i + 1])
        invariant cg3y == old(cg3y) + sign * PathSum(fy, pts[..i + 1])
      {
        AddTriangle(base, pts[i], pts[i + 1], isPositiveArea);
        assert pts[..i + 2][..i + 1] == pts[..i + 1];
        i := i + 1;
      }
      assert pts[..i + 1] == pts;
      FanIsShoelace(base, pts);
    }

    /** addShell: a shell counts as negative doubled area; fails where its orientation cannot be told. */
    method AddShell(pts: seq<Coordinate>) returns (ok: bool)
      requires pts != [] && IsClosed(pts)
      modifies this
      ensures areaBasePt == if old(areaBasePt) == NoBase then Base(pts[0]) else old(areaBasePt)
      ensures ok == (|pts| >= 4)
      ensures areasum2 == old(areasum2) - if ok then Contribution(Shoelace, pts) else 0
      ensures cg3x == old(cg3x) - if ok then Contribution(MomentX, pts) else 0
      ensures cg3y == old(cg3y) - if ok then Contribution(MomentY, pts) else 0
    {
      SetBasePoint(pts[0]);
      var isCCW;
      ok, isCCW := IsCCW(pts);
      if ok {
        var isPositiveArea := !isCCW;
        AddFan(pts, isPositiveArea);
      }
    }

    /** addHole: a hole counts the other way. */
    method AddHole(pts: seq<Coordinate>) returns (ok: bool)
      requires areaBasePt.Base? && pts != [] && IsClosed(pts)
      modifies this`cg3x, this`cg3y, this`areasum2
      ensures ok == (|pts| >= 4)
      ensures areasum2 == old(areasum2) + if ok then Contribution(Shoelace, pts) else 0
      ensures cg3x == old(cg3x) + if ok then Contribution(MomentX, pts) else 0
      ensures cg3y == old(cg3y) + if ok then Contribution(MomentY, pts) else 0
    {
      var isPositiveArea;
      ok, isPositiveArea := IsCCW(pts);
      if ok {
        AddFan(pts, isPositiveArea);
      }
    }
  }

  // ---------- what a ring contributes ----------

  /** The sum over a ring, taken for the ring run counter-clockwise. */
  ghost function Contribution(f: (Coordinate, Coordinate) -> int, ring: seq<Coordinate>): int
    requires |ring| >= 2
  {
    if CounterClockwise(ring) then PathSum(f, ring) else -PathSum(f, ring)
  }

  ghost predicate SameContribution(a: seq<Coordinate>, b: seq<Coordinate>)
    requires |a| >= 2 && |b| >= 2
  {
    && Contribution(Shoelace, a) == Contribution(Shoelace, b)
    && Contribution(MomentX, a) == Contribution(MomentX, b)
    && Contribution(MomentY, a) == Contribution(MomentY, b)
  }

  ghost predicate Null(ring: seq<Coordinate>) {
    PathSum(Shoelace, ring) == PathSum(MomentX, ring) == PathSum(MomentY, ring) == 0
  }

  /** What a ring contributes does not depend on its direction exactly when its peaks agree, or it has no area. */
  lemma ContributionReversedIff(ring: seq<Coordinate>)
    requires |ring| >= 2 && IsClosed(ring)
    ensures SameContribution(Reversed(ring), ring) <==> PeaksAgree(Open(ring)) || Null(ring)
  {
    hide PathSum, Shoelace, MomentX, MomentY, CounterClockwise, PeaksAgree, Reversed;
    ReversedSums(ring);
    ReversalFlipsIff(ring);
  }

  /** It does not depend on where the ring starts exactly when the judgement at the highest vertex met first is the
      same from there, or it has no area. */
  lemma ContributionStartingIff(ring: seq<Coordinate>, k: nat)
    requires |ring| >= 2 && IsClosed(ring) && k < |ring| - 1
    ensures var c := Open(ring);
            SameContribution(StartingAt(ring, k), ring) <==> JudgedAt(c, HighFrom(c, k)) == JudgedAt(c, HighIndex(c)) || Null(ring)
  {
    hide PathSum, Shoelace, MomentX, MomentY, JudgedAt;
    PathSumStartingAt(Shoelace, ring, k);
    PathSumStartingAt(MomentX, ring, k);
    PathSumStartingAt(MomentY, ring, k);
    OrientationStartingAt(ring, k);
  }

  /** A ring with a spike at its highest vertex. */
  ghost function Spike(): seq<Coordinate> {
    [Coordinate(0, 0), Coordinate(4, 0), Coordinate(2, 2), Coordinate(2, 5), Coordinate(2, 2), Coordinate(0, 0)]
  }

  /** It has an area, and contributes it with either sign. */
  lemma SpikeContributesEitherSign()
    ensures |Spike()| == 6 && IsClosed(Spike())
    ensures Contribution(Shoelace, Spike()) == -8 && Contribution(Shoelace, Reversed(Spike())) == 8
  {
    hide *;
    SpikePeak();
    SpikeArea();
    SpikeSigns(Spike());
  }

  lemma SpikeSigns(ring: seq<Coordinate>)
    requires |ring| >= 2 && IsClosed(ring) && FirstHighest(Open(ring), 3) && LastHighest(Open(ring), 3)
    requires PrevOf(Open(ring), 3) == NextOf(Open(ring), 3)
    ensures Contribution(Shoelace, ring) == -PathSum(Shoelace, ring)
    ensures Contribution(Shoelace, Reversed(ring)) == PathSum(Shoelace, ring)
  {
    hide Reversed, PathSum, Shoelace, PeaksAgree, FirstHighest, LastHighest, CounterClockwise, PrevOf, NextOf, Open;
    OrientationAt(ring, 3);
    OnePeakAgreesIff(Open(ring), 3);
    ReversalFlipsIff(ring);
    ReversedSums(ring);
  }

  lemma SpikePeak()
    ensures |Spike()| == 6 && IsClosed(Spike())
    ensures FirstHighest(Open(Spike()), 3) && LastHighest(Open(Spike()), 3)
    ensures PrevOf(Open(Spike()), 3) == NextOf(Open(Spike()), 3)
  {
    hide PrevOf, NextOf;
    var c := Open(Spike());
    PrevFound(c, 3, 2);
    NextFound(c, 3, 4);
  }

  lemma SpikeArea()
    ensures PathSum(Shoelace, Spike()) == 8
  {
    hide PathSum, Spike, Shoelace;
    SpikePoints();
    SumOfFive(Shoelace, Spike());
    SpikeTerms();
  }

  lemma SpikePoints()
    ensures |Spike()| == 6 && Spike()[0] == Spike()[5] == Coordinate(0, 0) && Spike()[1] == Coordinate(4, 0)
    ensures Spike()[2] == Spike()[4] == Coordinate(2, 2) && Spike()[3] == Coordinate(2, 5)
  {
  }

  lemma SpikeTerms()
    ensures Shoelace(Coordinate(0, 0), Coordinate(4, 0)) == 0 && Shoelace(Coordinate(4, 0), Coordinate(2, 2)) == 8
    ensures Shoelace(Coordinate(2, 2), Coordinate(2, 5)) == -Shoelace(Coordinate(2, 5), Coordinate(2, 2))
    ensures Shoelace(Coordinate(2, 2), Coordinate(0, 0)) == 0
  {
    hide Shoelace;
    ShoelaceOf(0, 0, 4, 0);
    ShoelaceOf(4, 0, 2, 2);
    ShoelaceOf(2, 2, 2, 5);
    ShoelaceOf(2, 5, 2, 2);
    ShoelaceOf(2, 2, 0, 0);
  }

  lemma ShoelaceOf(a: int, b: int, c: int, d: int)
    ensures Shoelace(Coordinate(a, b), Coordinate(c, d)) == a * d - c * b
  {
  }

  lemma SumOfFive(f: (Coordinate, Coordinate) -> int, path: seq<Coordinate>)
    requires |path| == 6
    ensures PathSum(f, path) == f(path[0], path[1]) + f(path[1], path[2]) + f(path[2], path[3]) + f(path[3], path[4]) + f(path[4], path[5])
  {
    hide PathSum;
    PathSumPrefix(f, path, 1);
    PathSumPrefix(f, path, 2);
    PathSumPrefix(f, path, 3);
    PathSumPrefix(f, path, 4);
    PathSumPrefix(f, path, 5);
    assert path[..6] == path;
  }

  lemma PathSumPrefix(f: (Coordinate, Coordinate) -> int, path: seq<Coordinate>, n: nat)
    requires 1 <= n < |path|
    ensures PathSum(f, path[..n + 1]) == (if n == 1 then 0 else PathSum(f, path[..n])) + f(path[n - 1], path[n])
  {
    assert path[..n + 1][..n] == path[..n];
  }
}
