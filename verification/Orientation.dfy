/** The orientation test: which way the path p1, p2, q turns. */
module Orientation {
  import opened Coordinates
  import RobustDeterminant

  const CLOCKWISE := -1
  const COLLINEAR := 0
  const COUNTERCLOCKWISE := 1

  /** What the orientation test means: the sign of the signed area of p1, p2, q. */
  function Turn(p1: Coordinate, p2: Coordinate, q: Coordinate): int {
    SignOf(Cross(p1, p2, q))
  }

  /** The orientation test as computed: the determinant of the two displacement vectors. */
  method OrientationIndex(p1: Coordinate, p2: Coordinate, q: Coordinate) returns (index: int)
    ensures index == Turn(p1, p2, q)
  {
    var dx1 := p2.x - p1.x;
    var dy1 := p2.y - p1.y;
    var dx2 := q.x - p2.x;
    var dy2 := q.y - p2.y;
    ghost var rounds;
    index, rounds := RobustDeterminant.SignOfDet2x2(dx1, dy1, dx2, dy2);
  }

  /** The turn from the x axis to the y axis is counter-clockwise. */
  lemma TurnOfAxes(x: int, y: int)
    requires x > 0 && y > 0
    ensures Turn(Coordinate(0, 0), Coordinate(x, 0), Coordinate(0, y)) == COUNTERCLOCKWISE
    ensures Turn(Coordinate(0, 0), Coordinate(0, y), Coordinate(x, 0)) == CLOCKWISE
  {
    assert x * y > 0;
  }

  /** The turn is unchanged by rotating the three points and negated by exchanging two of them. */
  lemma TurnSymmetry(p: Coordinate, q: Coordinate, r: Coordinate)
    ensures Cross(q, r, p) == Cross(p, q, r) == Cross(r, p, q)
    ensures Cross(q, p, r) == -Cross(p, q, r)
    ensures Cross(p, r, q) == -Cross(p, q, r)
    ensures Cross(r, q, p) == -Cross(p, q, r)
  {
  }
}
