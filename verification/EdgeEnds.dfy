/** The angular order of the edge ends that leave one node. */
module EdgeEnds {
  import opened Coordinates
  import opened Orientation
  import HullGeometry
  import RobustDeterminant

  const NE := 0
  const NW := 1
  const SW := 2
  const SE := 3

  /** An edge end: a node and the next point along the edge. */
  datatype EdgeEnd = EdgeEnd(p0: Coordinate, p1: Coordinate) {
    function Dx(): int {
      p1.x - p0.x
    }

    function Dy(): int {
      p1.y - p0.y
    }

    predicate Proper() {
      p0 != p1
    }
  }

  function Quadrant(dx: int, dy: int): (q: int)
  {
    if dx >= 0 then
      if dy >= 0 then NE else SE
    else
      if dy >= 0 then NW else SW
  }

  function CompareDirection(a: EdgeEnd, e: EdgeEnd): int {
    if a.Dx() == e.Dx() && a.Dy() == e.Dy() then 0
    else
      var qa, qe := Quadrant(a.Dx(), a.Dy()), Quadrant(e.Dx(), e.Dy());
      if qa > qe then 1
      else if qa < qe then -1
      else Turn(e.p0, e.p1, a.p1)
  }

  // ---------- the reference: angle from the positive x axis ----------

  function VectorCross(ax: int, ay: int, bx: int, b_y: int): int {
    ax * b_y - bx * ay
  }

  /** The direction lies in the half-open upper half-plane, at an angle in [0, pi). */
  predicate UpperHalf(dx: int, dy: int) {
    dy > 0 || (dy == 0 && dx > 0)
  }

  /** a has the smaller angle, counted counter-clockwise from the positive x axis in [0, 2 pi). */
  predicate SmallerAngle(ax: int, ay: int, bx: int, b_y: int) {
    if UpperHalf(ax, ay) != UpperHalf(bx, b_y) then UpperHalf(ax, ay)
    else VectorCross(ax, ay, bx, b_y) > 0
  }

  /** a and b point along the same ray. */
  predicate SameRay(ax: int, ay: int, bx: int, b_y: int) {
    VectorCross(ax, ay, bx, b_y) == 0 && ax * bx + ay * b_y > 0
  }

  /** East, north, west and south, and the diagonals between them, in this order. */
  lemma AnglesOfCompass()
    ensures SmallerAngle(1, 0, 1, 1) && SmallerAngle(1, 1, 0, 1) && SmallerAngle(0, 1, -1, 1) && SmallerAngle(-1, 1, -1, 0)
    ensures SmallerAngle(-1, 0, -1, -1) && SmallerAngle(-1, -1, 0, -1) && SmallerAngle(0, -1, 1, -1)
    ensures !SmallerAngle(1, -1, 1, 0) && !SmallerAngle(1, 0, 2, 0)
  {
    hide SmallerAngle;
    AngleTest(1, 0, 1, 1); AngleTest(1, 1, 0, 1); AngleTest(0, 1, -1, 1); AngleTest(-1, 1, -1, 0);
    AngleTest(-1, 0, -1, -1); AngleTest(-1, -1, 0, -1); AngleTest(0, -1, 1, -1);
    AngleTest(1, -1, 1, 0); AngleTest(1, 0, 2, 0);
  }

  lemma AngleTest(ax: int, ay: int, bx: int, b_y: int)
    ensures var a, b := ay > 0 || (ay == 0 && ax > 0), b_y > 0 || (b_y == 0 && bx > 0);
            SmallerAngle(ax, ay, bx, b_y) <==> if a != b then a else ax * b_y - bx * ay > 0
  {
  }

  ghost predicate AngleBefore(a: EdgeEnd, b: EdgeEnd) {
    SmallerAngle(a.Dx(), a.Dy(), b.Dx(), b.Dy())
  }

  lemma AngleAsymmetric(a: EdgeEnd, b: EdgeEnd)
    requires AngleBefore(a, b)
    ensures !AngleBefore(b, a)
  {
  }

  /** Turning counter-clockwise from a one meets g before b; all round if a and b point the same way. */
  ghost predicate StrictlyBetween(a: EdgeEnd, g: EdgeEnd, b: EdgeEnd) {
    if AngleBefore(a, b) then AngleBefore(a, g) && AngleBefore(g, b) else AngleBefore(a, g) || AngleBefore(g, b)
  }

  /** For two edge ends at one node the comparison is the order of their angles. */
  lemma CompareIsAngleOrder(a: EdgeEnd, b: EdgeEnd)
    requires a.Proper() && b.Proper() && a.p0 == b.p0
    ensures CompareDirection(a, b) < 0 <==> SmallerAngle(a.Dx(), a.Dy(), b.Dx(), b.Dy())
    ensures CompareDirection(a, b) == 0 <==> SameRay(a.Dx(), a.Dy(), b.Dx(), b.Dy())
    ensures CompareDirection(a, b) == -CompareDirection(b, a)
  {
    var ax, ay, bx, b_y := a.Dx(), a.Dy(), b.Dx(), b.Dy();
    HullGeometry.VectorCross(b.p0, b.p1, a.p1);
    HullGeometry.VectorCross(a.p0, a.p1, b.p1);
    RobustDeterminant.ProductSign(ax, b_y); RobustDeterminant.ProductSign(bx, ay);
    RobustDeterminant.ProductSign(ax, bx); RobustDeterminant.ProductSign(ay, b_y);
  }

  lemma CompareWeaklyTransitive(a: EdgeEnd, b: EdgeEnd, c: EdgeEnd)
    requires a.Proper() && b.Proper() && c.Proper() && a.p0 == b.p0 == c.p0
    requires CompareDirection(a, b) <= 0 && CompareDirection(b, c) <= 0
    ensures CompareDirection(a, c) <= 0
  {
    assert !SmallerAngle(b.Dx(), b.Dy(), a.Dx(), a.Dy()) by { CompareIsAngleOrder(b, a); }
    assert !SmallerAngle(c.Dx(), c.Dy(), b.Dx(), b.Dy()) by { CompareIsAngleOrder(c, b); }
    AngleTransitive(a.Dx(), a.Dy(), b.Dx(), b.Dy(), c.Dx(), c.Dy());
    assert CompareDirection(c, a) >= 0 by { CompareIsAngleOrder(c, a); }
    assert CompareDirection(a, c) == -CompareDirection(c, a) by { CompareIsAngleOrder(c, a); }
  }

  lemma CompareAntisymmetric(a: EdgeEnd, b: EdgeEnd)
    requires a.Proper() && b.Proper() && a.p0 == b.p0
    ensures CompareDirection(a, b) == -CompareDirection(b, a)
  {
    CompareIsAngleOrder(a, b);
  }

  /** The comparison is transitive, with its ties, so it is a strict weak order at every node. */
  lemma CompareTransitive(a: EdgeEnd, b: EdgeEnd, c: EdgeEnd)
    requires a.Proper() && b.Proper() && c.Proper() && a.p0 == b.p0 == c.p0
    requires CompareDirection(a, b) <= 0 && CompareDirection(b, c) <= 0
    ensures CompareDirection(a, c) <= 0
    ensures CompareDirection(a, c) == 0 <==> CompareDirection(a, b) == 0 && CompareDirection(b, c) == 0
  {
    CompareAntisymmetric(a, b); CompareAntisymmetric(b, c); CompareAntisymmetric(a, c);
    CompareWeaklyTransitive(a, b, c);
    if CompareDirection(a, c) == 0 {
      CompareWeaklyTransitive(c, a, b);
      CompareWeaklyTransitive(b, c, a);
    }
    if CompareDirection(a, b) == 0 && CompareDirection(b, c) == 0 {
      CompareWeaklyTransitive(c, b, a);
    }
  }

  lemma AngleTransitive(ax: int, ay: int, bx: int, b_y: int, cx: int, cy: int)
    requires (ax != 0 || ay != 0) && (bx != 0 || b_y != 0) && (cx != 0 || cy != 0)
    requires !SmallerAngle(bx, b_y, ax, ay) && !SmallerAngle(cx, cy, bx, b_y)
    ensures !SmallerAngle(cx, cy, ax, ay)
  {
    if UpperHalf(ax, ay) == UpperHalf(cx, cy) {
      if UpperHalf(ax, ay) {
        SameHalf(ax, ay, bx, b_y, cx, cy);
      } else {
        SameHalf(-ax, -ay, -bx, -b_y, -cx, -cy);
      }
    }
  }

  /** Within one half-plane, turning counter-clockwise from a to b and from b to c, one turns so from a to c. */
  lemma SameHalf(ax: int, ay: int, bx: int, b_y: int, cx: int, cy: int)
    requires UpperHalf(ax, ay) && UpperHalf(bx, b_y) && UpperHalf(cx, cy)
    requires VectorCross(ax, ay, bx, b_y) >= 0 && VectorCross(bx, b_y, cx, cy) >= 0
    ensures VectorCross(ax, ay, cx, cy) >= 0
  {
    var ab, bc, ac := VectorCross(ax, ay, bx, b_y), VectorCross(bx, b_y, cx, cy), VectorCross(ax, ay, cx, cy);
    assert b_y * ac == cy * ab + ay * bc;
    if b_y > 0 {
      HullGeometry.Product(cy, ab);
      HullGeometry.Product(ay, bc);
      HullGeometry.NonPositiveFactor(b_y, -ac);
    } else {
      RobustDeterminant.ProductSign(bx, ay);
      RobustDeterminant.ProductSign(ax, cy);
    }
  }
}
