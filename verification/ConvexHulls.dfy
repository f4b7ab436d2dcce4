/** The convex hull of a point set: octagon reduction, radial sort, Graham scan and ring clean-up. */
module ConvexHulls {
  import opened Coordinates
  import opened Orientation
  import opened HullGeometry
  import opened HullChains
  import opened HullRings
  import RayCrossing
  import OrderedSets
  import Paths

  /** The geometry a hull is returned as. */
  datatype Hull =
    | EmptyHull
    | PointHull(p: Coordinate)
    | LineHull(a: Coordinate, b: Coordinate)
    | PolygonHull(ring: seq<Coordinate>)

  ghost predicate Collinear(points: set<Coordinate>) {
    forall p, q, r :: p in points && q in points && r in points ==> Cross(p, q, r) == 0
  }

  /** The hull of a point set. */
  ghost predicate IsHull(hull: Hull, points: set<Coordinate>) {
    match hull
    case EmptyHull => points == {}
    case PointHull(p) => points == {p}
    case LineHull(a, b) => HullSegment(a, b, points)
    case PolygonHull(ring) => HullRing(ring, points)
  }

  // ---------- sorting ----------

  ghost predicate RadiallySorted(o: Coordinate, s: seq<Coordinate>) {
    forall i, j :: 0 <= i < j < |s| ==> PolarCompare(o, s[i], s[j]) <= 0
  }

  ghost predicate Lowest(o: Coordinate, s: seq<Coordinate>) {
    forall p :: p in s ==> Above(o, p)
  }

  /** std::sort under the radial order, as an insertion sort; see `SortIsUnique`. */
  function SortInsert(o: Coordinate, s: seq<Coordinate>, p: Coordinate): (r: seq<Coordinate>)
    ensures multiset(r) == multiset(s) + multiset{p}
  {
    if s == [] || RadiallyBefore(o, p, s[0]) then [p] + s
    else
      assert s == [s[0]] + s[1..];
      [s[0]] + SortInsert(o, s[1..], p)
  }

  function RadialSort(o: Coordinate, s: seq<Coordinate>): (r: seq<Coordinate>)
    ensures multiset(r) == multiset(s)
  {
    if s == [] then []
    else
      assert s == s[..|s| - 1] + [s[|s| - 1]];
      SortInsert(o, RadialSort(o, s[..|s| - 1]), s[|s| - 1])
  }

  lemma {:induction false} SortInsertSorted(o: Coordinate, s: seq<Coordinate>, p: Coordinate)
    requires RadiallySorted(o, s) && Lowest(o, s) && Above(o, p)
    ensures RadiallySorted(o, SortInsert(o, s, p))
  {
    if s == [] {
    } else if RadiallyBefore(o, p, s[0]) {
      forall j | 0 <= j < |s|
        ensures PolarCompare(o, p, s[j]) <= 0
      {
        PolarTotalOrder(o, p, s[0], s[j]);
      }
    } else {
      SortInsertSorted(o, s[1..], p);
      var r := SortInsert(o, s[1..], p);
      forall j | 0 <= j < |r|
        ensures PolarCompare(o, s[0], r[j]) <= 0
      {
        assert r[j] in multiset(r);
        PolarTotalOrder(o, s[0], p, p);
      }
    }
  }

  lemma {:induction false} RadialSortSorted(o: Coordinate, s: seq<Coordinate>)
    requires Lowest(o, s)
    ensures RadiallySorted(o, RadialSort(o, s))
  {
    if s != [] {
      var front := s[..|s| - 1];
      RadialSortSorted(o, front);
      forall p | p in RadialSort(o, front)
        ensures Above(o, p)
      {
        assert p in multiset(RadialSort(o, front));
        assert p in multiset(front);
      }
      SortInsertSorted(o, RadialSort(o, front), s[|s| - 1]);
    }
  }

  lemma SameFirst(o: Coordinate, s: seq<Coordinate>, t: seq<Coordinate>)
    requires Lowest(o, s) && RadiallySorted(o, s) && RadiallySorted(o, t) && multiset(s) == multiset(t)
    requires s != [] && t != []
    ensures s[0] == t[0]
  {
    assert s[0] in multiset(t);
    assert t[0] in multiset(s);
    var i :| 0 <= i < |t| && t[i] == s[0];
    var j :| 0 <= j < |s| && s[j] == t[0];
    PolarTotalOrder(o, s[0], t[0], t[0]);
  }

  lemma WithoutFirst(s: seq<Coordinate>)
    requires s != []
    ensures multiset(s[1..]) == multiset(s) - multiset{s[0]}
  {
    assert s == [s[0]] + s[1..];
  }

  /** Any two sorted arrangements of the same points are equal, so the sorting algorithm is immaterial. */
  lemma {:induction false} SortIsUnique(o: Coordinate, s: seq<Coordinate>, t: seq<Coordinate>)
    requires Lowest(o, s) && RadiallySorted(o, s) && RadiallySorted(o, t) && multiset(s) == multiset(t)
    ensures s == t
  {
    assert |s| == |multiset(s)| == |multiset(t)| == |t|;
    if s != [] {
      SameFirst(o, s, t);
      WithoutFirst(s);
      WithoutFirst(t);
      SortIsUnique(o, s[1..], t[1..]);
      assert s == [s[0]] + s[1..] && t == [t[0]] + t[1..];
    }
  }

  // ---------- the octagon ----------

  /** The eight directions in which `ComputeOctPts` looks for extreme points. */
  function OctKey(k: nat, p: Coordinate): int {
    match k
    case 0 => -p.x
    case 1 => p.y - p.x
    case 2 => p.y
    case 3 => p.x + p.y
    case 4 => p.x
    case 5 => p.x - p.y
    case 6 => -p.y
    case _ => -(p.x + p.y)
  }

  /** s[a] is the first of the n foremost points to attain their largest value in direction k. */
  ghost predicate FirstExtreme(k: nat, s: seq<Coordinate>, n: nat, a: nat) {
    && a < n <= |s|
    && (forall j :: 0 <= j < n ==> OctKey(k, s[j]) <= OctKey(k, s[a]))
    && (forall j :: 0 <= j < a ==> OctKey(k, s[j]) < OctKey(k, s[a]))
  }

  ghost predicate OctPtsAt(s: seq<Coordinate>, n: nat, pts: seq<Coordinate>, at: seq<nat>) {
    |pts| == |at| == 8 && forall k :: 0 <= k < 8 ==> FirstExtreme(k, s, n, at[k]) && pts[k] == s[at[k]]
  }

  /** One slot of the scan: the challenger takes it only if it is strictly further out. */
  ghost predicate Challenged(k: nat, p: Coordinate, i: nat, q: Coordinate, a: nat, q': Coordinate, a': nat) {
    if OctKey(k, p) > OctKey(k, q) then q' == p && a' == i else q' == q && a' == a
  }

  /** The first m slots have met the challenger, the others are as before. */
  ghost predicate ScannedTo(m: nat, p: Coordinate, i: nat, pts: seq<Coordinate>, at: seq<nat>,
                            pts': seq<Coordinate>, at': seq<nat>)
  {
    && |pts| == |at| == |pts'| == |at'| == 8
    && (forall k :: 0 <= k < 8 && k < m ==> Challenged(k, p, i, pts[k], at[k], pts'[k], at'[k]))
    && (forall k :: m <= k < 8 ==> pts'[k] == pts[k] && at'[k] == at[k])
  }

  lemma OctPtsStep(s: seq<Coordinate>, n: nat, pts: seq<Coordinate>, at: seq<nat>, pts': seq<Coordinate>, at': seq<nat>)
    requires n < |s| && OctPtsAt(s, n, pts, at) && ScannedTo(8, s[n], n, pts, at, pts', at')
    ensures OctPtsAt(s, n + 1, pts', at')
  {
    forall k | 0 <= k < 8
      ensures FirstExtreme(k, s, n + 1, at'[k]) && pts'[k] == s[at'[k]]
    {
      assert Challenged(k, s[n], n, pts[k], at[k], pts'[k], at'[k]);
      assert FirstExtreme(k, s, n, at[k]);
    }
  }

  /** Lets p take slot k when it wins there. */
  method Challenge(k: nat, wins: bool, p: Coordinate, ghost i: nat, pts: seq<Coordinate>, ghost at: seq<nat>,
                   ghost pts0: seq<Coordinate>, ghost at0: seq<nat>) returns (pts': seq<Coordinate>, ghost at': seq<nat>)
    requires k < 8 && ScannedTo(k, p, i, pts0, at0, pts, at)
    requires wins == (OctKey(k, p) > OctKey(k, pts[k]))
    ensures ScannedTo(k + 1, p, i, pts0, at0, pts', at')
  {
    pts', at' := pts, at;
    if wins {
      pts', at' := pts[k := p], at[k := i];
    }
  }

  /** The leftmost, topmost, rightmost and lowest of the eight points bound p, and those between them along the diagonals. */
  ghost predicate WithinOctagon(pts: seq<Coordinate>, p: Coordinate)
    requires |pts| == 8
  {
    && pts[0].x <= p.x <= pts[4].x && pts[6].y <= p.y <= pts[2].y
    && pts[1].x - pts[1].y <= p.x - p.y <= pts[5].x - pts[5].y
    && pts[7].x + pts[7].y <= p.x + p.y <= pts[3].x + pts[3].y
  }

  lemma ExtremesBound(s: seq<Coordinate>, p: Coordinate)
    requires s != [] && p in s
    ensures WithinOctagon(OctPts(s), p)
  {
    var pts := OctPts(s);
    OctPtsExtreme(s);
    assert forall k :: 0 <= k < 8 ==> OctKey(k, p) <= OctKey(k, pts[k]);
    assert OctKey(0, p) <= OctKey(0, pts[0]) && OctKey(1, p) <= OctKey(1, pts[1]) && OctKey(2, p) <= OctKey(2, pts[2]);
    assert OctKey(3, p) <= OctKey(3, pts[3]) && OctKey(4, p) <= OctKey(4, pts[4]) && OctKey(5, p) <= OctKey(5, pts[5]);
    assert OctKey(6, p) <= OctKey(6, pts[6]) && OctKey(7, p) <= OctKey(7, pts[7]);
  }

  /** The first extreme points in the eight directions. */
  method ComputeOctPts(inputPts: seq<Coordinate>) returns (pts: seq<Coordinate>)
    requires inputPts != []
    ensures pts == OctPts(inputPts)
    ensures |pts| == 8 && Points(pts) <= Points(inputPts) && forall p :: p in inputPts ==> WithinOctagon(pts, p)
  {
    ghost var at: seq<nat>;
    pts := seq(8, _ => inputPts[0]);
    at := seq(8, _ => 0);
    for i := 1 to |inputPts|
      invariant OctPtsAt(inputPts, i, pts, at)
    {
      var p := inputPts[i];
      ghost var pts0, at0 := pts, at;
      pts, at := Challenge(0, p.x < pts[0].x, p, i, pts, at, pts0, at0);
      pts, at := Challenge(1, p.x - p.y < pts[1].x - pts[1].y, p, i, pts, at, pts0, at0);
      pts, at := Challenge(2, p.y > pts[2].y, p, i, pts, at, pts0, at0);
      pts, at := Challenge(3, p.x + p.y > pts[3].x + pts[3].y, p, i, pts, at, pts0, at0);
      pts, at := Challenge(4, p.x > pts[4].x, p, i, pts, at, pts0, at0);
      pts, at := Challenge(5, p.x - p.y > pts[5].x - pts[5].y, p, i, pts, at, pts0, at0);
      pts, at := Challenge(6, p.y < pts[6].y, p, i, pts, at, pts0, at0);
      pts, at := Challenge(7, p.x + p.y < pts[7].x + pts[7].y, p, i, pts, at, pts0, at0);
      OctPtsStep(inputPts, i, pts0, at0, pts, at);
    }
    OctPtsUnique(inputPts, pts, at);
    OctPtsExtreme(inputPts);
    forall p | p in inputPts {
      ExtremesBound(inputPts, p);
    }
  }

  /** The place of the first extreme point among the n foremost, in direction k. */
  ghost function OctIndex(k: nat, s: seq<Coordinate>, n: nat): (a: nat)
    requires 0 < n <= |s|
    ensures FirstExtreme(k, s, n, a)
  {
    if n == 1 then 0
    else
      var a := OctIndex(k, s, n - 1);
      if OctKey(k, s[n - 1]) > OctKey(k, s[a]) then n - 1 else a
  }

  ghost function OctPts(s: seq<Coordinate>): (pts: seq<Coordinate>)
    requires s != []
    ensures |pts| == 8
  {
    seq(8, k requires 0 <= k < 8 => s[OctIndex(k, s, |s|)])
  }

  lemma OctPtsUnique(s: seq<Coordinate>, pts: seq<Coordinate>, at: seq<nat>)
    requires s != [] && OctPtsAt(s, |s|, pts, at)
    ensures pts == OctPts(s)
  {
    forall k | 0 <= k < 8
      ensures pts[k] == OctPts(s)[k]
    {
      assert FirstExtreme(k, s, |s|, at[k]) && FirstExtreme(k, s, |s|, OctIndex(k, s, |s|));
    }
  }

  lemma OctPtsExtreme(s: seq<Coordinate>)
    requires s != []
    ensures Points(OctPts(s)) <= Points(s)
    ensures forall k, p :: 0 <= k < 8 && p in s ==> OctKey(k, p) <= OctKey(k, OctPts(s)[k])
  {
    forall k | 0 <= k < 8
      ensures OctPts(s)[k] in s && forall p :: p in s ==> OctKey(k, p) <= OctKey(k, OctPts(s)[k])
    {
      assert FirstExtreme(k, s, |s|, OctIndex(k, s, |s|));
    }
  }

  /** The octagon through the extreme points, closed; empty when fewer than three corners are left. */
  ghost function OctRing(s: seq<Coordinate>): (ring: seq<Coordinate>)
    requires s != []
    ensures ring != [] ==> Paths.IsClosed(ring) && |ring| >= 4 && ring[0] != ring[1]
    ensures ring != [] ==> Points(ring) == Points(OctPts(s))
  {
    var corners := Unique(OctPts(s));
    if |corners| < 3 then [] else corners + [corners[0]]
  }

  /** std::unique on pointers of distinct coordinates: drops an element equal to the one before it. */
  function Unique(s: seq<Coordinate>): (u: seq<Coordinate>)
    ensures forall p :: p in u <==> p in s
    ensures forall i :: 0 < i < |u| ==> u[i - 1] != u[i]
    ensures s != [] ==> u != [] && u[|u| - 1] == s[|s| - 1]
  {
    if |s| < 2 then s
    else
      var front := Unique(s[..|s| - 1]);
      assert s == s[..|s| - 1] + [s[|s| - 1]];
      if s[|s| - 2] == s[|s| - 1] then front else front + [s[|s| - 1]]
  }

  method ComputeOctRing(inputPts: seq<Coordinate>) returns (ok: bool, dest: seq<Coordinate>)
    requires inputPts != []
    ensures ok == (OctRing(inputPts) != []) && (ok ==> dest == OctRing(inputPts))
  {
    dest := ComputeOctPts(inputPts);
    dest := Unique(dest);
    if |dest| < 3 {
      return false, dest;
    }
    dest := dest + [dest[0]];
    return true, dest;
  }

  // ---------- what the reduction may drop ----------

  /** The excess at p against the excesses at the ends of a segment that spans its height. */
  lemma CrossingBalance(h: HalfPlane, p: Coordinate, a: Coordinate, b: Coordinate)
    ensures (a.y - b.y) * Excess(h, p)
            == (a.y - p.y) * Excess(h, b) + (p.y - b.y) * Excess(h, a) + h.a * Cross(a, b, p)
  {
    hide Cross, Excess;
    CrossParts(p, a, b);
    ExcessStep(h, p, a);
    ExcessStep(h, p, b);
    Balance(h.a, h.b, a.y - p.y, p.y - b.y, p.x - b.x, p.x - a.x, Excess(h, p), Excess(h, b), Excess(h, a));
  }

  lemma CrossParts(p: Coordinate, a: Coordinate, b: Coordinate)
    ensures Cross(a, b, p) == (a.y - p.y) * (p.x - b.x) + (p.y - b.y) * (p.x - a.x)
  {
  }

  lemma ExcessStep(h: HalfPlane, p: Coordinate, q: Coordinate)
    ensures Excess(h, q) == Excess(h, p) - h.a * (p.x - q.x) - h.b * (p.y - q.y)
    ensures Excess(h, q) == Excess(h, p) - h.a * (p.x - q.x) + h.b * (q.y - p.y)
  {
  }

  lemma Balance(a: int, b: int, u: int, v: int, s: int, t: int, e: int, eb: int, ea: int)
    requires eb == e - a * s - b * v && ea == e - a * t + b * u
    ensures (u + v) * e == u * eb + v * ea + a * (u * s + v * t)
  {
    assert u * (e - a * s - b * v) == u * e - a * (u * s) - b * (u * v);
    assert v * (e - a * t + b * u) == v * e - a * (v * t) + b * (u * v);
  }

  /** A ring segment on the side to which the half-plane opens keeps p inside it. */
  lemma CrossingHolds(h: HalfPlane, p: Coordinate, a: Coordinate, b: Coordinate)
    requires RayCrossing.Straddles(p, a, b) && Excess(h, a) <= 0 && Excess(h, b) <= 0
    requires if h.a >= 0 then RayCrossing.CrossesRight(p, a, b) else RayCrossing.CrossesLeft(p, a, b)
    ensures Excess(h, p) <= 0
  {
    Turns(a, b, p);
    var hi, lo := if a.y > b.y then a else b, if a.y > b.y then b else a;
    CrossingBalance(h, p, hi, lo);
    Product(hi.y - p.y, Excess(h, lo));
    Product(p.y - lo.y, Excess(h, hi));
    Product(h.a, Cross(hi, lo, p));
    NonPositiveFactor(hi.y - lo.y, Excess(h, p));
  }

  /** A point in or on a ring is a combination of ring points: odd parity puts ring segments on both of its sides. */
  lemma InRingIsSpanned(p: Coordinate, ring: seq<Coordinate>)
    requires Paths.IsClosed(ring)
    requires RayCrossing.LocationBy(RayCrossing.RightRay(p), p, ring) != EXTERIOR
    ensures Spans(Points(ring), {p})
  {
    if RayCrossing.OnRing(p, ring) {
      var i :| 0 < i < |ring| && RayCrossing.OnSegment(p, ring[i - 1], ring[i]);
      OnSegmentIsSpanned(p, ring[i - 1], ring[i]);
      assert forall h :: Holds(h, Points(ring)) ==> Holds(h, {ring[i - 1], ring[i]});
    } else {
      var right, left := RayCrossing.InteriorHasBothSides(p, ring);
      forall h | Holds(h, Points(ring))
        ensures Holds(h, {p})
      {
        var i := if h.a >= 0 then right else left;
        assert ring[i - 1] in Points(ring) && ring[i] in Points(ring);
        CrossingHolds(h, p, ring[i - 1], ring[i]);
      }
    }
  }

  lemma OnSegmentIsSpanned(p: Coordinate, a: Coordinate, b: Coordinate)
    requires RayCrossing.OnSegment(p, a, b)
    ensures Spans({a, b}, {p})
  {
    Turns(a, b, p);
    if a == b {
      assert p == a;
    } else {
      BetweenIsSpanned(a, p, b);
    }
  }

  // ---------- the point sets the scan may meet ----------

  /** Two points padded to three by repeating the first. */
  ghost predicate Padded(s: seq<Coordinate>) {
    |s| == 3 && s[0] != s[1] && s[2] == s[0]
  }

  const CoordinateLess: (Coordinate, Coordinate) -> bool := (a, b) => CompareCoordinates(a, b) < 0

  lemma CoordinateLessOrders(dom: set<Coordinate>)
    ensures OrderedSets.StrictWeakOrder(CoordinateLess, dom)
    ensures forall a, b :: OrderedSets.Equivalent(CoordinateLess, a, b) ==> a == b
  {
  }

  /** Adding a point to a sorted set of coordinates. */
  lemma InsertCoordinate(s: seq<Coordinate>, p: Coordinate)
    requires OrderedSets.Sorted(CoordinateLess, s)
    ensures OrderedSets.Sorted(CoordinateLess, OrderedSets.Insert(CoordinateLess, s, p))
    ensures Points(OrderedSets.Insert(CoordinateLess, s, p)) == Points(s) + {p}
  {
    CoordinateLessOrders(OrderedSets.Elements(s) + {p});
    OrderedSets.InsertKeepsSorted(CoordinateLess, s, p);
  }

  lemma SortedIsDistinct(s: seq<Coordinate>)
    requires OrderedSets.Sorted(CoordinateLess, s)
    ensures Distinct(s)
  {
    forall i, j | 0 <= i < j < |s|
      ensures s[i] != s[j]
    {
      assert CoordinateLess(s[i], s[j]);
    }
  }

  /** The points of the list that the ring leaves outside. */
  ghost function Outside(s: seq<Coordinate>, ring: seq<Coordinate>): set<Coordinate> {
    set p | p in s && RayCrossing.LocationBy(RayCrossing.RightRay(p), p, ring) == EXTERIOR
  }

  /** Keeping the ring and the points outside it loses nothing. */
  lemma ReductionSpans(s: seq<Coordinate>, ring: seq<Coordinate>)
    requires Paths.IsClosed(ring)
    ensures Spans(Points(ring) + Outside(s, ring), Points(s))
  {
    forall h | Holds(h, Points(ring) + Outside(s, ring))
      ensures Holds(h, Points(s))
    {
      forall p | p in s
        ensures Excess(h, p) <= 0
      {
        if p !in Outside(s, ring) {
          InRingIsSpanned(p, ring);
          assert Holds(h, Points(ring));
          assert Holds(h, {p});
        }
      }
    }
  }

  lemma TwoPoints(s: seq<Coordinate>, p: Coordinate, q: Coordinate)
    requires p in Points(s) && q in Points(s) && p != q
    ensures |s| >= 2
  {
    assert p in s && q in s;
  }

  lemma PointsPush(s: seq<Coordinate>, p: Coordinate)
    ensures Points(s + [p]) == Points(s) + {p}
  {
  }

  lemma OutsidePush(s: seq<Coordinate>, p: Coordinate, ring: seq<Coordinate>)
    ensures Outside(s + [p], ring) == Outside(s, ring) +
              (if RayCrossing.LocationBy(RayCrossing.RightRay(p), p, ring) == EXTERIOR then {p} else {})
  {
  }

  class ConvexHull {
    var inputPts: seq<Coordinate>

    /** Collects the distinct coordinates of the input in the order they are first met. */
    constructor (coordinates: seq<Coordinate>)
      ensures Distinct(inputPts) && Points(inputPts) == Points(coordinates)
    {
      var pts := [];
      var i := 0;
      while i < |coordinates|
        invariant 0 <= i <= |coordinates|
        invariant Distinct(pts) && Points(pts) == Points(coordinates[..i])
      {
        assert coordinates[..i + 1] == coordinates[..i] + [coordinates[i]];
        PointsPush(coordinates[..i], coordinates[i]);
        PointsPush(pts, coordinates[i]);
        if coordinates[i] !in pts {
          pts := pts + [coordinates[i]];
        }
        i := i + 1;
      }
      assert coordinates[..i] == coordinates;
      inputPts := pts;
    }

    /** Drops the points inside the octagon of extreme points, if there is one. */
    method Reduce()
      requires inputPts != [] && Distinct(inputPts)
      modifies this
      ensures OctRing(old(inputPts)) == [] ==> inputPts == old(inputPts)
      ensures OctRing(old(inputPts)) != [] ==>
                Points(inputPts) == Points(OctRing(old(inputPts))) + Outside(old(inputPts), OctRing(old(inputPts)))
      ensures OctRing(old(inputPts)) != [] ==> |inputPts| >= 3 && (Padded(inputPts) || OrderedSets.Sorted(CoordinateLess, inputPts))
      ensures (Distinct(inputPts) || Padded(inputPts)) && Points(inputPts) <= Points(old(inputPts))
      ensures Spans(Points(inputPts), Points(old(inputPts)))
    {
      hide OctRing, OctPts;
      var ok, polyPts := ComputeOctRing(inputPts);
      if !ok {
        return;
      }
      var reducedSet := ReducedSet(inputPts, polyPts);
      OctPtsExtreme(inputPts);
      ReductionSpans(inputPts, polyPts);
      TwoPoints(reducedSet, polyPts[0], polyPts[1]);
      assert Points(reducedSet) <= Points(inputPts);
      inputPts := reducedSet;
      if |inputPts| < 3 {
        PadArray3();
        assert Padded(inputPts);
      }
    }

    /** The ring points and the points outside the ring, as a set in coordinate order. */
    static method ReducedSet(pts: seq<Coordinate>, polyPts: seq<Coordinate>) returns (reducedSet: seq<Coordinate>)
      requires Paths.IsClosed(polyPts)
      ensures OrderedSets.Sorted(CoordinateLess, reducedSet) && Distinct(reducedSet)
      ensures Points(reducedSet) == Points(polyPts) + Outside(pts, polyPts)
    {
      reducedSet := [];
      var i := 0;
      while i < |polyPts|
        invariant 0 <= i <= |polyPts|
        invariant OrderedSets.Sorted(CoordinateLess, reducedSet)
        invariant Points(reducedSet) == Points(polyPts[..i])
      {
        InsertCoordinate(reducedSet, polyPts[i]);
        PointsPush(polyPts[..i], polyPts[i]);
        assert polyPts[..i + 1] == polyPts[..i] + [polyPts[i]];
        reducedSet := OrderedSets.Insert(CoordinateLess, reducedSet, polyPts[i]);
        i := i + 1;
      }
      assert polyPts[..i] == polyPts;
      i := 0;
      while i < |pts|
        invariant 0 <= i <= |pts|
        invariant OrderedSets.Sorted(CoordinateLess, reducedSet)
        invariant Points(reducedSet) == Points(polyPts) + Outside(pts[..i], polyPts)
      {
        var inside := RayCrossing.IsPointInRing(pts[i], polyPts);
        OutsidePush(pts[..i], pts[i], polyPts);
        assert pts[..i + 1] == pts[..i] + [pts[i]];
        if !inside {
          InsertCoordinate(reducedSet, pts[i]);
          reducedSet := OrderedSets.Insert(CoordinateLess, reducedSet, pts[i]);
        }
        i := i + 1;
      }
      assert pts[..i] == pts;
      SortedIsDistinct(reducedSet);
    }

    /** Repeats the first point until there are three. */
    method PadArray3()
      requires inputPts != []
      modifies this
      ensures |old(inputPts)| <= |inputPts| && inputPts[..|old(inputPts)|] == old(inputPts)
      ensures |inputPts| == if |old(inputPts)| < 3 then 3 else |old(inputPts)|
      ensures Points(inputPts) == Points(old(inputPts))
      ensures |old(inputPts)| >= 3 ==> inputPts == old(inputPts)
      ensures |old(inputPts)| == 2 && Distinct(old(inputPts)) ==> Padded(inputPts)
      ensures forall i :: |old(inputPts)| <= i < |inputPts| ==> inputPts[i] == old(inputPts[0])
    {
      var i := |inputPts|;
      while i < 3
        invariant i == |inputPts| >= |old(inputPts)| && (|old(inputPts)| < 3 ==> i <= 3)
        invariant |old(inputPts)| >= 3 ==> i == |old(inputPts)|
        invariant inputPts[..|old(inputPts)|] == old(inputPts) && Points(inputPts) == Points(old(inputPts))
        invariant forall j :: |old(inputPts)| <= j < |inputPts| ==> inputPts[j] == old(inputPts[0])
      {
        PointsPush(inputPts, inputPts[0]);
        inputPts := inputPts + [inputPts[0]];
        i := i + 1;
      }
    }

    /** Puts the lowest, then leftmost, point first and sorts the rest clockwise around it. */
    method PreSort()
      requires inputPts != []
      modifies this
      ensures multiset(inputPts) == multiset(old(inputPts))
      ensures inputPts != [] && Lowest(inputPts[0], inputPts) && RadiallySorted(inputPts[0], inputPts)
    {
      var i := 1;
      while i < |inputPts|
        invariant 1 <= i <= |inputPts| && |inputPts| == |old(inputPts)|
        invariant multiset(inputPts) == multiset(old(inputPts))
        invariant forall j :: 0 <= j < i ==> Above(inputPts[0], inputPts[j])
      {
        var p0, pi := inputPts[0], inputPts[i];
        if pi.y < p0.y || (pi.y == p0.y && pi.x < p0.x) {
          inputPts := inputPts[0 := pi][i := p0];
        }
        i := i + 1;
      }
      var o := inputPts[0];
      FocalPointFirst(o, inputPts);
      inputPts := RadialSort(o, inputPts);
    }

    /** The hull of the input, as the geometry its shape calls for. */
    method GetConvexHull() returns (hull: Hull)
      requires Distinct(inputPts)
      modifies this
      ensures IsHull(hull, Points(old(inputPts)))
    {
      hide OctRing, OctPts, Outside, Unique, RadialOrder, Chain, Cleaned, Spans, Padded, HullRing, HullSegment;
      var nInputPts := |inputPts|;
      if nInputPts == 0 {
        return EmptyHull;
      }
      if nInputPts == 1 {
        return PointHull(inputPts[0]);
      }
      if nInputPts == 2 {
        TwoPointHull(inputPts);
        return LineHull(inputPts[0], inputPts[1]);
      }
      if nInputPts > 50 {
        Reduce();
      }
      ghost var reduced := inputPts;
      PreSort();
      SortedForScan(reduced, inputPts);
      var cHS := GrahamScan(inputPts);
      ghost var scanned := cHS[..|cHS| - 1];
      assert cHS == scanned + [inputPts[0]];
      ScannedSpans(inputPts, scanned);
      ClosedScanHull(cHS);
      hull := LineOrPolygon(cHS);
      HullOfReduced(hull, Points(scanned), Points(inputPts));
      HullOfReduced(hull, Points(inputPts), Points(old(inputPts)));
    }
  }

  // ---------- the scan ----------

  /** The stack after the first n points: a chain of them that spans them. */
  ghost predicate Scanned(c: seq<Coordinate>, n: nat, ps: seq<Coordinate>) {
    && 2 <= |ps| && 0 < n <= |c| && ps[0] == c[0] && Chain(ps)
    && Points(ps) <= Points(c[..n]) && Spans(Points(ps), Points(c[..n]))
  }

  /** The stack while point n is being placed: with that point it still spans the points before it. */
  ghost predicate Scanning(c: seq<Coordinate>, n: nat, ps: seq<Coordinate>) {
    && 2 <= |ps| && n < |c| && ps[0] == c[0] && Chain(ps)
    && Points(ps) <= Points(c[..n]) && Spans(Points(ps) + {c[n]}, Points(c[..n]))
  }

  lemma PrecedesNext(c: seq<Coordinate>, n: nat, p: Coordinate)
    requires RadialOrder(c) && 0 < n < |c| && p in Points(c[..n]) && p != c[0]
    ensures Precedes(c[0], p, c[n])
  {
    var k :| 0 <= k < n && c[k] == p;
    assert Precedes(c[0], c[k], c[n]);
  }

  lemma ScanStart(c: seq<Coordinate>)
    requires RadialOrder(c) && |c| >= 3
    ensures Scanned(c, 3, [c[0], c[1], c[2]])
  {
    assert Precedes(c[0], c[1], c[2]);
    assert c[..3] == [c[0], c[1], c[2]];
  }

  lemma ScanOpens(c: seq<Coordinate>, n: nat, ps: seq<Coordinate>)
    requires n < |c| && Scanned(c, n, ps)
    ensures Scanning(c, n, ps)
  {
    forall h | Holds(h, Points(ps) + {c[n]})
      ensures Holds(h, Points(c[..n]))
    {
      assert Holds(h, Points(ps));
    }
  }

  /** At the bottom of the stack nothing turns left. */
  lemma BottomTurnsRight(c: seq<Coordinate>, n: nat, ps: seq<Coordinate>)
    requires RadialOrder(c) && 0 < n && Scanning(c, n, ps) && |ps| == 2
    ensures Cross(ps[0], ps[1], c[n]) <= 0
  {
    PrecedesNext(c, n, ps[1]);
  }

  lemma ScanningTwo(c: seq<Coordinate>, n: nat, ps: seq<Coordinate>)
    requires Scanning(c, n, ps)
    ensures |ps| >= 2
  {
  }

  /** Popping a point at which the way to point n turns left. */
  lemma ScanPop(c: seq<Coordinate>, n: nat, ps: seq<Coordinate>)
    requires RadialOrder(c) && 0 < n && Scanning(c, n, ps)
    requires Cross(ps[|ps| - 2], ps[|ps| - 1], c[n]) > 0
    ensures Scanning(c, n, ps[..|ps| - 1])
  {
    if |ps| == 2 {
      BottomTurnsRight(c, n, ps);
      assert false;
    }
    var o, a, b, r := c[0], ps[|ps| - 2], ps[|ps| - 1], c[n];
    var rest := ps[..|ps| - 1];
    ChainPrefix(ps, |ps| - 1);
    assert Precedes(o, a, b);
    PrecedesNext(c, n, b);
    PoppedIsSpanned(o, a, b, r);
    forall h | Holds(h, Points(rest) + {r})
      ensures Holds(h, Points(c[..n]))
    {
      PoppedIsHeld(h, ps, r);
    }
  }

  lemma PoppedIsHeld(h: HalfPlane, ps: seq<Coordinate>, r: Coordinate)
    requires |ps| >= 3 && Spans({ps[0], ps[|ps| - 2], r}, {ps[|ps| - 1]}) && Holds(h, Points(ps[..|ps| - 1]) + {r})
    ensures Holds(h, Points(ps) + {r})
  {
    hide Excess;
    var rest := ps[..|ps| - 1];
    assert rest[0] in Points(rest) && rest[|rest| - 1] in Points(rest);
    assert Holds(h, {ps[0], ps[|ps| - 2], r});
    assert Holds(h, {ps[|ps| - 1]});
    assert forall p :: p in Points(ps) ==> p in Points(rest) || p == ps[|ps| - 1];
  }

  /** Pushing point n where it makes no left turn. */
  lemma ScanPush(c: seq<Coordinate>, n: nat, ps: seq<Coordinate>)
    requires RadialOrder(c) && 0 < n && Scanning(c, n, ps)
    requires Cross(ps[|ps| - 2], ps[|ps| - 1], c[n]) <= 0
    ensures Scanned(c, n + 1, ps + [c[n]])
  {
    var t := ps + [c[n]];
    forall k | 0 < k < |ps|
      ensures Precedes(ps[0], ps[k], c[n])
    {
      PrecedesNext(c, n, ps[k]);
    }
    ExtendChain(ps, c[n]);
    assert c[..n + 1] == c[..n] + [c[n]];
    PointsPush(ps, c[n]);
    PointsPush(c[..n], c[n]);
  }

  /** Backs up to a point from which c[i] is no left turn, for each point in turn, and closes the ring. */
  method GrahamScan(c: seq<Coordinate>) returns (ps: seq<Coordinate>)
    requires |c| >= 3
    ensures ps != [] && ps[|ps| - 1] == c[0]
    ensures |c| == 3 ==> ps == c + [c[0]]
    ensures RadialOrder(c) ==> Scanned(c, |c|, ps[..|ps| - 1])
  {
    hide RadialOrder, Scanned, Scanning, Chain, Points, Spans, Cross;
    ps := [c[0], c[1], c[2]];
    if RadialOrder(c) {
      ScanStart(c);
    }
    var i := 3;
    while i < |c|
      invariant 3 <= i <= |c| && ps != [] && (|c| == 3 ==> ps == c)
      invariant RadialOrder(c) ==> Scanned(c, i, ps)
    {
      if RadialOrder(c) {
        ScanOpens(c, i, ps);
      }
      ghost var stack := ps;
      var p := ps[|ps| - 1];
      ps := ps[..|ps| - 1];
      while true
        invariant stack == ps + [p]
        invariant RadialOrder(c) ==> Scanning(c, i, stack)
        decreases |ps|
      {
        if RadialOrder(c) {
          ScanningTwo(c, i, stack);
        }
        if ps == [] {
          break;
        }
        var turn := OrientationIndex(ps[|ps| - 1], p, c[i]);
        if turn <= 0 {
          break;
        }
        if RadialOrder(c) {
          ScanPop(c, i, stack);
        }
        stack := ps;
        p := ps[|ps| - 1];
        ps := ps[..|ps| - 1];
      }
      if RadialOrder(c) {
        ScanPush(c, i, stack);
        assert ps + [p] + [c[i]] == stack + [c[i]];
      }
      ps := ps + [p];
      ps := ps + [c[i]];
      i := i + 1;
    }
    assert (ps + [c[0]])[..|ps|] == ps;
    ps := ps + [c[0]];
  }

  method CleanRing(original: seq<Coordinate>) returns (cleaned: seq<Coordinate>)
    requires original != [] && original[0] == original[|original| - 1]
    ensures cleaned == Cleaned(original)
  {
    var npts := |original|;
    var last := original[npts - 1];
    cleaned := [];
    var i := 0;
    while i < npts - 1
      invariant 0 <= i <= npts - 1
      invariant cleaned == CleanPrefix(original, i)
    {
      var curr := original[i];
      var next := original[i + 1];
      if curr != next {
        if cleaned == [] || !IsBetween(cleaned[|cleaned| - 1], curr, next) {
          cleaned := cleaned + [curr];
        }
      }
      i := i + 1;
    }
    cleaned := cleaned + [last];
  }

  /** Cleans the ring that the scan left and takes it for a line there and back, or for a polygon: the hull of what
      was scanned. */
  method LineOrPolygon(input: seq<Coordinate>) returns (hull: Hull)
    requires |input| > 2 && input[0] == input[|input| - 1] && |Cleaned(input)| >= 2
    ensures hull.LineHull? || hull.PolygonHull?
    ensures var scanned := input[..|input| - 1]; Chain(scanned) || PaddedSorted(scanned) ==> IsHull(hull, Points(scanned))
  {
    ClosedScanHull(input);
    var cleaned := CleanRing(input);
    if |cleaned| == 3 {
      hull := LineHull(cleaned[0], cleaned[1]);
    } else {
      hull := PolygonHull(cleaned);
    }
  }

  // ---------- putting the steps together ----------

  lemma TwoPointHull(s: seq<Coordinate>)
    requires |s| == 2 && Distinct(s)
    ensures HullSegment(s[0], s[1], Points(s))
  {
    assert Points(s) == {s[0], s[1]};
  }

  /** A radially sorted arrangement: of distinct points it is in strict radial order, of a padded pair
      it is the pair with one of the two repeated. */
  lemma SortedForScan(s: seq<Coordinate>, c: seq<Coordinate>)
    requires multiset(c) == multiset(s) && |s| >= 3 && (Distinct(s) || Padded(s))
    requires c != [] && Lowest(c[0], c) && RadiallySorted(c[0], c)
    ensures |c| >= 3 && Points(c) == Points(s)
    ensures RadialOrder(c) || PaddedSorted(c)
  {
    assert |c| == |multiset(c)| == |s|;
    SamePoints(s, c);
    if Distinct(s) {
      DistinctMultiset(s, c);
      forall i, j | 0 < i < j < |c|
        ensures Precedes(c[0], c[i], c[j])
      {
        assert c[0] in c && c[i] in c && c[j] in c;
        PolarTotalOrder(c[0], c[i], c[j], c[j]);
      }
    } else {
      PaddedSort(s, c);
    }
  }

  ghost predicate PaddedSorted(c: seq<Coordinate>) {
    |c| == 3 && c[0] != c[2] && (c[1] == c[0] || c[1] == c[2])
  }

  lemma SamePoints(s: seq<Coordinate>, c: seq<Coordinate>)
    requires multiset(c) == multiset(s)
    ensures Points(c) == Points(s)
  {
    forall p
      ensures p in c <==> p in s
    {
      assert p in c <==> p in multiset(c);
      assert p in s <==> p in multiset(s);
    }
  }

  lemma DistinctMultiset(s: seq<Coordinate>, c: seq<Coordinate>)
    requires Distinct(s) && multiset(c) == multiset(s)
    ensures Distinct(c)
  {
    forall i, j | 0 <= i < j < |c|
      ensures c[i] != c[j]
    {
      if c[i] == c[j] {
        TwoOccurrences(c, i, j);
        OneOccurrence(s, c[i]);
      }
    }
  }

  lemma TwoOccurrences(c: seq<Coordinate>, i: nat, j: nat)
    requires i < j < |c| && c[i] == c[j]
    ensures multiset(c)[c[i]] >= 2
  {
    assert c == c[..j] + [c[j]] + c[j + 1..];
    assert c[i] in multiset(c[..j]) by {
      assert c[..j][i] == c[i];
    }
  }

  lemma {:induction false} OneOccurrence(s: seq<Coordinate>, p: Coordinate)
    requires Distinct(s)
    ensures multiset(s)[p] <= 1
  {
    if s != [] {
      var front, last := s[..|s| - 1], s[|s| - 1];
      assert s == front + [last];
      OneOccurrence(front, p);
      if p == last {
        assert p !in front;
        assert p !in multiset(front);
      }
    }
  }

  lemma PaddedSort(s: seq<Coordinate>, c: seq<Coordinate>)
    requires Padded(s) && multiset(c) == multiset(s) && |c| == 3
    requires Lowest(c[0], c) && RadiallySorted(c[0], c)
    ensures PaddedSorted(c)
  {
    SamePoints(s, c);
    assert c[0] in Points(s) && c[1] in Points(s) && c[2] in Points(s);
    assert s[0] in Points(c) && s[1] in Points(c);
    if c[2] == c[0] {
      LevelWithFocal(c[0], c[1]);
    }
  }

  lemma LevelWithFocal(o: Coordinate, p: Coordinate)
    requires Above(o, p) && PolarCompare(o, p, o) <= 0
    ensures p == o
  {
    NoTurnBack(o, p);
    SquareSum(p.x - o.x, p.y - o.y);
    hide Cross;
    assert Distance2(o, o) == 0;
  }

  lemma NoTurnBack(o: Coordinate, p: Coordinate)
    ensures Cross(o, p, o) == 0
  {
  }

  lemma SquareSum(u: int, v: int)
    ensures u * u + v * v >= 0 && (u * u + v * v == 0 ==> u == 0 && v == 0)
  {
    assert u * u >= 0 && v * v >= 0;
    assert u != 0 ==> u * u > 0;
    assert v != 0 ==> v * v > 0;
  }

  /** What the scan leaves is a chain, or the padded pair, and spans the points scanned. */
  lemma ScannedSpans(c: seq<Coordinate>, chain: seq<Coordinate>)
    requires |c| >= 3 && (RadialOrder(c) ==> Scanned(c, |c|, chain)) && (|c| == 3 ==> chain == c)
    requires RadialOrder(c) || PaddedSorted(c)
    ensures |chain| > 1 && (Chain(chain) || PaddedSorted(chain))
    ensures Points(chain) <= Points(c) && Spans(Points(chain), Points(c))
  {
    hide RadialOrder, Chain;
    assert c[..|c|] == c;
  }

  /** What the cleaned ring of a chain, or of a padded pair, is. */
  lemma ClosedScanHull(input: seq<Coordinate>)
    requires |input| > 2 && input[0] == input[|input| - 1]
    ensures var s, cleaned := input[..|input| - 1], Cleaned(input);
            Chain(s) || PaddedSorted(s) ==>
              && |cleaned| >= 3
              && if |cleaned| == 3 then HullSegment(cleaned[0], cleaned[1], Points(s)) else HullRing(cleaned, Points(s))
  {
    hide Chain, Cleaned, HullSegment, Points;
    var s := input[..|input| - 1];
    assert input == s + [s[0]];
    if Chain(s) {
      CleanedChain(s);
    } else if PaddedSorted(s) {
      PaddedClean(s);
    }
  }

  lemma PaddedCleaned(ring: seq<Coordinate>)
    requires |ring| == 4 && PaddedSorted(ring[..3]) && ring[3] == ring[0]
    ensures Cleaned(ring) == [ring[0], ring[2], ring[0]]
  {
    hide IsBetween, Cross;
    assert CleanPrefix(ring, 0) == [];
    assert CleanPrefix(ring, 1) == if ring[1] == ring[0] then [] else [ring[0]];
    assert CleanPrefix(ring, 2) == [ring[0]];
    NotBetweenSame(ring[0], ring[2]);
    assert CleanPrefix(ring, 3) == [ring[0], ring[2]];
  }

  lemma NotBetweenSame(a: Coordinate, b: Coordinate)
    ensures !IsBetween(a, b, a)
  {
  }

  lemma PaddedClean(c: seq<Coordinate>)
    requires PaddedSorted(c)
    ensures Cleaned(c + [c[0]]) == [c[0], c[2], c[0]]
    ensures HullSegment(c[0], c[2], Points(c))
  {
    PaddedCleaned(c + [c[0]]);
    assert Points(c) == {c[0], c[2]};
  }

  /** The hull of the kept points is the hull of all points. */
  lemma HullOfReduced(hull: Hull, kept: set<Coordinate>, points: set<Coordinate>)
    requires IsHull(hull, kept) && (hull.LineHull? || hull.PolygonHull?)
    requires kept <= points && Spans(kept, points)
    ensures IsHull(hull, points)
  {
    if hull.PolygonHull? {
      HullRingOfSpanned(hull.ring, kept, points);
    }
  }

  /** The hull is a polygon exactly when the points do not all lie on one line. */
  lemma PolygonIffNotCollinear(hull: Hull, points: set<Coordinate>)
    requires IsHull(hull, points)
    ensures hull.PolygonHull? <==> !Collinear(points)
  {
    match hull
    case EmptyHull =>
    case PointHull(p) =>
    case LineHull(a, b) =>
      forall p, q, r | p in points && q in points && r in points
        ensures Cross(p, q, r) == 0
      {
        SegmentIsCollinear(a, b, points, p, q, r);
      }
    case PolygonHull(ring) =>
      assert Cross(ring[0], ring[1], Following(ring, 1)) < 0;
      assert ring[0] in Points(ring) && ring[1] in Points(ring) && ring[2] in Points(ring);
  }

  lemma SortKeepsLowest(o: Coordinate, s: seq<Coordinate>)
    requires Lowest(o, s)
    ensures Lowest(o, RadialSort(o, s))
  {
    forall p | p in RadialSort(o, s)
      ensures Above(o, p)
    {
      assert p in multiset(RadialSort(o, s));
      assert p in multiset(s);
    }
  }

  lemma LowestFirst(o: Coordinate, r: seq<Coordinate>)
    requires o in r && Lowest(o, r) && RadiallySorted(o, r)
    ensures r[0] == o
  {
    PolarTotalOrder(o, r[0], o, o);
    assert PolarCompare(o, o, r[0]) <= 0;
  }

  lemma FocalPointFirst(o: Coordinate, s: seq<Coordinate>)
    requires o in s && Lowest(o, s)
    ensures RadialSort(o, s) != [] && RadialSort(o, s)[0] == o
    ensures Lowest(o, RadialSort(o, s)) && RadiallySorted(o, RadialSort(o, s))
  {
    RadialSortSorted(o, s);
    SortKeepsLowest(o, s);
    assert o in multiset(s);
    assert o in multiset(RadialSort(o, s));
    LowestFirst(o, RadialSort(o, s));
  }
}
