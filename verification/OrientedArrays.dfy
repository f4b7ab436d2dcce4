/** Coordinate arrays compared without regard to their direction. */
module OrientedArrays {
  import opened Coordinates
  import opened Paths

  // ---------- the reference: lexicographic order of canonical forms ----------

  /** Lexicographic order of lists, a proper prefix first. */
  ghost function LexCompare(a: seq<Coordinate>, b: seq<Coordinate>): (c: int)
    ensures -1 <= c <= 1
    ensures c == 0 <==> a == b
  {
    if a == [] then (if b == [] then 0 else -1)
    else if b == [] then 1
    else if CompareCoordinates(a[0], b[0]) != 0 then CompareCoordinates(a[0], b[0])
    else
      assert a == [a[0]] + a[1..] && b == [b[0]] + b[1..];
      LexCompare(a[1..], b[1..])
  }

  /** The lists agree up to place k, and there the first ends, or has the lesser coordinate. */
  ghost predicate LessAt(a: seq<Coordinate>, b: seq<Coordinate>, k: int) {
    && 0 <= k <= |a| && k < |b| && a[..k] == b[..k]
    && (k < |a| ==> Before(a[k], b[k]))
  }

  /** The first place where two lists differ decides, and a proper prefix comes first. */
  lemma {:induction false} LexIsFirstDifference(a: seq<Coordinate>, b: seq<Coordinate>)
    ensures LexCompare(a, b) < 0 <==> exists k :: LessAt(a, b, k)
    ensures LexCompare(a, b) > 0 <==> exists k :: LessAt(b, a, k)
  {
    if a == [] || b == [] {
      assert b != [] ==> LessAt([], b, 0);
      assert a != [] ==> LessAt([], a, 0);
    } else if a[0] != b[0] {
      assert Before(a[0], b[0]) ==> LessAt(a, b, 0);
      assert Before(b[0], a[0]) ==> LessAt(b, a, 0);
      FirstDiffers(a, b);
      FirstDiffers(b, a);
    } else {
      LexIsFirstDifference(a[1..], b[1..]);
      LessAtTails(a, b);
      LessAtTails(b, a);
    }
  }

  lemma FirstDiffers(a: seq<Coordinate>, b: seq<Coordinate>)
    requires a != [] && b != [] && a[0] != b[0]
    ensures forall k :: LessAt(a, b, k) ==> k == 0
  {
    forall k | LessAt(a, b, k)
      ensures k == 0
    {
      if k > 0 {
        SamePrefix(a, b, k);
      }
    }
  }

  lemma SamePrefix(a: seq<Coordinate>, b: seq<Coordinate>, k: nat)
    requires 0 < k <= |a| && k <= |b| && a[..k] == b[..k]
    ensures a[0] == b[0]
  {
    assert a[..k][0] == b[..k][0];
  }

  lemma LessAtTails(a: seq<Coordinate>, b: seq<Coordinate>)
    requires a != [] && b != [] && a[0] == b[0]
    ensures (exists k :: LessAt(a, b, k)) <==> exists k :: LessAt(a[1..], b[1..], k)
  {
    if k :| LessAt(a, b, k) {
      if k == 0 {
        assert false;
      } else {
        assert a[1..][..k - 1] == a[..k][1..] && b[1..][..k - 1] == b[..k][1..];
        assert LessAt(a[1..], b[1..], k - 1);
      }
    }
    if k :| LessAt(a[1..], b[1..], k) {
      assert a[..k + 1] == [a[0]] + a[1..][..k] && b[..k + 1] == [b[0]] + b[1..][..k];
      assert LessAt(a, b, k + 1);
    }
  }

  lemma CoordinateOrder(a: Coordinate, b: Coordinate, c: Coordinate)
    ensures CompareCoordinates(a, b) == -CompareCoordinates(b, a)
    ensures CompareCoordinates(a, b) <= 0 && CompareCoordinates(b, c) <= 0 ==> CompareCoordinates(a, c) <= 0
  {
  }

  lemma {:induction false} LexAntisymmetric(a: seq<Coordinate>, b: seq<Coordinate>)
    ensures LexCompare(a, b) == -LexCompare(b, a)
  {
    if a != [] && b != [] {
      CoordinateOrder(a[0], b[0], a[0]);
      LexAntisymmetric(a[1..], b[1..]);
    }
  }

  lemma {:induction false} LexTransitive(a: seq<Coordinate>, b: seq<Coordinate>, c: seq<Coordinate>)
    requires LexCompare(a, b) <= 0 && LexCompare(b, c) <= 0
    ensures LexCompare(a, c) <= 0
  {
    if a != [] && b != [] && c != [] {
      CoordinateOrder(a[0], b[0], c[0]);
      if a[0] == b[0] == c[0] {
        LexTransitive(a[1..], b[1..], c[1..]);
      }
    }
  }

  // ---------- orientation ----------

  /** Which end decides the direction: the first of the outermost pairs of different points, counted from i. */
  ghost function DirectionFrom(pts: seq<Coordinate>, i: nat): (d: int)
    ensures -1 <= d <= 1 && d != 0
    decreases |pts| - i
  {
    if i >= |pts| / 2 then 1
    else
      var comp := CompareCoordinates(pts[i], pts[|pts| - 1 - i]);
      if comp != 0 then comp else DirectionFrom(pts, i + 1)
  }

  ghost predicate Forward(pts: seq<Coordinate>) {
    DirectionFrom(pts, 0) == 1
  }

  /** Places i and |pts| - 1 - i are the outermost that hold different points. */
  ghost predicate OutermostDifference(pts: seq<Coordinate>, i: int) {
    && 0 <= i < |pts| / 2 && pts[i] != pts[|pts| - 1 - i]
    && forall k :: 0 <= k < i ==> pts[k] == pts[|pts| - 1 - k]
  }

  /** 1 if the greater point of the outermost different pair comes first, or if there is none; -1 if it comes last. */
  method IncreasingDirection(pts: seq<Coordinate>) returns (direction: int)
    ensures direction == DirectionFrom(pts, 0)
    ensures direction == 1 || direction == -1
    ensures direction == -1 <==> exists i :: OutermostDifference(pts, i) && Before(pts[i], pts[|pts| - 1 - i])
  {
    var ptsize := |pts|;
    var i := 0;
    while i < ptsize / 2
      invariant 0 <= i <= ptsize / 2 && DirectionFrom(pts, 0) == DirectionFrom(pts, i)
      invariant forall k :: 0 <= k < i ==> pts[k] == pts[ptsize - 1 - k]
    {
      var j := ptsize - 1 - i;
      var comp := CompareCoordinates(pts[i], pts[j]);
      if comp != 0 {
        assert OutermostDifference(pts, i);
        return comp;
      }
      i := i + 1;
    }
    return 1;
  }

  /** The array read in its own direction. */
  ghost function Canonical(pts: seq<Coordinate>): seq<Coordinate> {
    if Forward(pts) then pts else Reversed(pts)
  }

  /** Equal, or each other's reverse. */
  ghost predicate SamePoints(a: seq<Coordinate>, b: seq<Coordinate>) {
    a == b || a == Reversed(b)
  }

  lemma ReversedTwice(pts: seq<Coordinate>)
    ensures Reversed(Reversed(pts)) == pts
  {
  }

  /** Reversing changes the direction, unless the array is a palindrome. */
  lemma {:induction false} DirectionOfReversed(pts: seq<Coordinate>, i: nat)
    requires forall k :: 0 <= k < i && k < |pts| / 2 ==> pts[k] == pts[|pts| - 1 - k]
    ensures DirectionFrom(Reversed(pts), i) == -DirectionFrom(pts, i)
         || (DirectionFrom(pts, i) == DirectionFrom(Reversed(pts), i) == 1 && Reversed(pts) == pts)
    decreases |pts| - i
  {
    var n, r := |pts|, Reversed(pts);
    if i >= n / 2 {
      forall k | 0 <= k < n
        ensures r[k] == pts[k]
      {
        assert pts[if k < n / 2 then k else n - 1 - k] == pts[if k < n / 2 then n - 1 - k else k];
      }
    } else {
      CoordinateOrder(pts[i], pts[n - 1 - i], pts[i]);
      if pts[i] == pts[n - 1 - i] {
        DirectionOfReversed(pts, i + 1);
      }
    }
  }

  /** Two arrays have one canonical form exactly when they are equal or each other's reverse. */
  lemma CanonicalIff(a: seq<Coordinate>, b: seq<Coordinate>)
    ensures Canonical(a) == Canonical(b) <==> SamePoints(a, b)
  {
    ReversedTwice(a);
    ReversedTwice(b);
    DirectionOfReversed(a, 0);
    DirectionOfReversed(b, 0);
  }

  // ---------- oriented arrays ----------

  datatype OrientedCoordinateArray = OrientedCoordinateArray(pts: seq<Coordinate>, orientation: bool)

  /** The array is not empty, and has the orientation its constructor gives it. */
  ghost predicate IsOriented(oca: OrientedCoordinateArray) {
    oca.pts != [] && oca.orientation == Forward(oca.pts)
  }

  method NewOriented(pts: seq<Coordinate>) returns (oca: OrientedCoordinateArray)
    requires pts != []
    ensures oca.pts == pts && IsOriented(oca)
  {
    var direction := IncreasingDirection(pts);
    oca := OrientedCoordinateArray(pts, direction == 1);
  }

  /** The order of oriented arrays: that of their canonical forms. */
  ghost function CompareArrays(a: OrientedCoordinateArray, b: OrientedCoordinateArray): int {
    LexCompare(Canonical(a.pts), Canonical(b.pts))
  }

  /** The points read forward or backward. */
  ghost function Along(pts: seq<Coordinate>, forward: bool): (p: seq<Coordinate>)
    ensures |p| == |pts|
    ensures forall k :: 0 <= k < |p| ==> p[k] == pts[if forward then k else |p| - 1 - k]
  {
    if forward then pts else Reversed(pts)
  }

  lemma LexStep(p: seq<Coordinate>, q: seq<Coordinate>, k: nat)
    requires k < |p| && k < |q|
    ensures LexCompare(p[k..], q[k..]) ==
            if CompareCoordinates(p[k], q[k]) != 0 then CompareCoordinates(p[k], q[k])
            else if k + 1 == |p| && k + 1 < |q| then -1
            else if k + 1 < |p| && k + 1 == |q| then 1
            else if k + 1 == |p| && k + 1 == |q| then 0
            else LexCompare(p[k + 1..], q[k + 1..])
  {
    assert p[k..][1..] == p[k + 1..] && q[k..][1..] == q[k + 1..];
  }

  /** Walks both arrays, each in its given direction. */
  method CompareOriented(pts1: seq<Coordinate>, orientation1: bool, pts2: seq<Coordinate>, orientation2: bool)
      returns (comp: int)
    requires pts1 != [] && pts2 != []
    ensures comp == LexCompare(Along(pts1, orientation1), Along(pts2, orientation2))
  {
    hide LexCompare, CompareCoordinates, Along;
    var dir1 := if orientation1 then 1 else -1;
    var dir2 := if orientation2 then 1 else -1;
    var limit1 := if orientation1 then |pts1| else -1;
    var limit2 := if orientation2 then |pts2| else -1;
    var i1 := if orientation1 then 0 else |pts1| - 1;
    var i2 := if orientation2 then 0 else |pts2| - 1;
    ghost var p, q := Along(pts1, orientation1), Along(pts2, orientation2);
    assert p[0..] == p && q[0..] == q;
    ghost var k := 0;
    while true
      invariant 0 <= k < |p| && k < |q|
      invariant i1 == (if orientation1 then k else |p| - 1 - k) && i2 == if orientation2 then k else |q| - 1 - k
      invariant LexCompare(p, q) == LexCompare(p[k..], q[k..])
      decreases |p| - k
    {
      var compPt := CompareCoordinates(pts1[i1], pts2[i2]);
      LexStep(p, q, k);
      if compPt != 0 {
        return compPt;
      }
      i1 := i1 + dir1;
      i2 := i2 + dir2;
      k := k + 1;
      var done1 := i1 == limit1;
      var done2 := i2 == limit2;
      if done1 && !done2 {
        return -1;
      }
      if !done1 && done2 {
        return 1;
      }
      if done1 && done2 {
        return 0;
      }
    }
  }

  method CompareTo(a: OrientedCoordinateArray, b: OrientedCoordinateArray) returns (comp: int)
    requires IsOriented(a) && IsOriented(b)
    ensures comp == CompareArrays(a, b)
  {
    comp := CompareOriented(a.pts, a.orientation, b.pts, b.orientation);
  }

  /** The comparison is a total preorder, and gives 0 exactly for arrays that are equal or each other's reverse. */
  lemma CompareArraysIsPreorder(a: OrientedCoordinateArray, b: OrientedCoordinateArray, c: OrientedCoordinateArray)
    ensures CompareArrays(a, b) == -CompareArrays(b, a)
    ensures CompareArrays(a, b) <= 0 && CompareArrays(b, c) <= 0 ==> CompareArrays(a, c) <= 0
    ensures CompareArrays(a, b) == 0 <==> SamePoints(a.pts, b.pts)
  {
    LexAntisymmetric(Canonical(a.pts), Canonical(b.pts));
    if CompareArrays(a, b) <= 0 && CompareArrays(b, c) <= 0 {
      LexTransitive(Canonical(a.pts), Canonical(b.pts), Canonical(c.pts));
    }
    CanonicalIff(a.pts, b.pts);
  }
}
