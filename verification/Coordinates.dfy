/** Planar coordinates and the exact orientation determinant on which every predicate rests. */
module Coordinates {

  /** A coordinate. Every finite double is an integer multiple of one fixed power of two, so
      integer coordinates stand for all finite inputs up to a common scale. */
  datatype Coordinate = Coordinate(x: int, y: int)

  /** Where a point lies with respect to a geometry; UNDEF stands for a location not known. */
  datatype Location = UNDEF | INTERIOR | BOUNDARY | EXTERIOR

  function SignOf(d: int): (s: int)
    ensures -1 <= s <= 1
    ensures s > 0 <==> d > 0
    ensures s < 0 <==> d < 0
  {
    if d > 0 then 1 else if d < 0 then -1 else 0
  }

  /** Twice the signed area of the triangle p, q, r: positive iff p, q, r turn counter-clockwise. */
  function Cross(p: Coordinate, q: Coordinate, r: Coordinate): int {
    (q.x - p.x) * (r.y - q.y) - (r.x - q.x) * (q.y - p.y)
  }

  /** Further left, or straight below. */
  predicate Before(a: Coordinate, b: Coordinate) {
    a.x < b.x || (a.x == b.x && a.y < b.y)
  }

  /** Lexicographic order on coordinates, x before y. */
  function CompareCoordinates(a: Coordinate, b: Coordinate): (c: int)
    ensures -1 <= c <= 1
    ensures c == 0 <==> a == b
    ensures c < 0 <==> Before(a, b)
    ensures c > 0 <==> Before(b, a)
  {
    if a.x < b.x then -1
    else if a.x > b.x then 1
    else if a.y < b.y then -1
    else if a.y > b.y then 1
    else 0
  }
}
