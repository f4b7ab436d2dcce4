/** Geometries, their well-known binary form, and what reading it means. */
module WkbFormat {
  import opened ByteOrderValues
  import opened Numbers

  // ---------- geometries ----------

  /** Ordinates are doubles, held as their bit patterns. */
  datatype Coordinate = Coordinate(x: bv64, y: bv64, z: bv64)

  /** `dimension` is what the sequence was declared with; 0 leaves it to be found from the coordinates. */
  datatype CoordinateSequence = CoordinateSequence(dimension: int, coords: seq<Coordinate>)

  datatype CollectionKind = MULTI_POINT | MULTI_LINE_STRING | MULTI_POLYGON | GEOMETRY_COLLECTION

  datatype Geometry =
    | Point(srid: bv32, points: CoordinateSequence)
    | LineString(srid: bv32, points: CoordinateSequence)
    | LinearRing(srid: bv32, points: CoordinateSequence)
    | Polygon(srid: bv32, shell: CoordinateSequence, holes: seq<CoordinateSequence>)
    | Collection(srid: bv32, kind: CollectionKind, geometries: seq<Geometry>)

  /** The pattern of the NaN that marks a missing ordinate. */
  const NAN: bv64 := 0x7ff8_0000_0000_0000

  predicate IsNaN(v: bv64) {
    v & 0x7ff0_0000_0000_0000 == 0x7ff0_0000_0000_0000 && v & 0x000f_ffff_ffff_ffff != 0
  }

  /** Equality of doubles: NaN equals nothing, and the two zeros are equal. */
  predicate EqualDoubles(a: bv64, b: bv64) {
    !IsNaN(a) && !IsNaN(b) && (a == b || (a << 1 == 0 && b << 1 == 0))
  }

  predicate Equals2D(a: Coordinate, b: Coordinate) {
    EqualDoubles(a.x, b.x) && EqualDoubles(a.y, b.y)
  }

  predicate IsNull(c: Coordinate) {
    IsNaN(c.x) && IsNaN(c.y) && IsNaN(c.z)
  }

  function Dimension(cs: CoordinateSequence): int {
    if cs.dimension != 0 then cs.dimension
    else if |cs.coords| == 0 then 3
    else if IsNaN(cs.coords[0].z) then 2
    else 3
  }

  function MaxDimension(css: seq<CoordinateSequence>): int {
    if css == [] then 2 else Max(MaxDimension(css[..|css| - 1]), Dimension(css[|css| - 1]))
  }

  function CoordinateDimension(g: Geometry): int
    decreases g, 0
  {
    match g
    case Point(_, points) => Dimension(points)
    case LineString(_, points) => Dimension(points)
    case LinearRing(_, points) => Dimension(points)
    case Polygon(_, shell, holes) => Max(Dimension(shell), MaxDimension(holes))
    case Collection(_, _, geometries) => MaxCoordinateDimension(geometries)
  }

  function MaxCoordinateDimension(gs: seq<Geometry>): int
    decreases gs, 1
  {
    if gs == [] then 2 else Max(MaxCoordinateDimension(gs[..|gs| - 1]), CoordinateDimension(gs[|gs| - 1]))
  }

  /** The number of ordinates of a declared sequence. */
  predicate ValidDimension(cs: CoordinateSequence) {
    cs.dimension == 0 || cs.dimension == 2 || cs.dimension == 3
  }

  predicate IsClosed(coords: seq<Coordinate>) {
    coords != [] && Equals2D(coords[0], coords[|coords| - 1])
  }

  /** The LinearRing constructor accepts the points. */
  predicate ValidRing(coords: seq<Coordinate>) {
    coords != [] ==> IsClosed(coords) && |coords| >= 4
  }

  predicate HasNonEmpty(css: seq<CoordinateSequence>) {
    exists i :: 0 <= i < |css| && css[i].coords != []
  }

  /** The collection's type admits the geometry. */
  predicate Admits(kind: CollectionKind, g: Geometry) {
    match kind
    case MULTI_POINT => g.Point?
    case MULTI_LINE_STRING => g.LineString? || g.LinearRing?
    case MULTI_POLYGON => g.Polygon?
    case GEOMETRY_COLLECTION => true
  }

  /** Counts that an int can hold. */
  const MAX_COUNT := 0x7fff_ffff

  /** What the geometry classes' constructors guarantee. */
  predicate WellFormed(g: Geometry)
    decreases g, 0
  {
    match g
    case Point(_, points) => ValidDimension(points) && |points.coords| <= 1
    case LineString(_, points) => ValidDimension(points) && |points.coords| != 1 && |points.coords| <= MAX_COUNT
    case LinearRing(_, points) => ValidDimension(points) && ValidRing(points.coords) && |points.coords| <= MAX_COUNT
    case Polygon(_, shell, holes) =>
      && ValidDimension(shell) && ValidRing(shell.coords) && |shell.coords| <= MAX_COUNT && |holes| < MAX_COUNT
      && (forall i :: 0 <= i < |holes| ==>
            ValidDimension(holes[i]) && ValidRing(holes[i].coords) && |holes[i].coords| <= MAX_COUNT)
      && (shell.coords == [] ==> !HasNonEmpty(holes))
    case Collection(_, kind, geometries) =>
      && |geometries| <= MAX_COUNT
      && forall i :: 0 <= i < |geometries| ==> Admits(kind, geometries[i]) && WellFormed(geometries[i])
  }

  /** The empty point has no binary form. */
  predicate Encodable(g: Geometry)
    decreases g
  {
    match g
    case Point(_, points) => points.coords != []
    case Collection(_, _, geometries) => forall i :: 0 <= i < |geometries| ==> Encodable(geometries[i])
    case _ => true
  }

  // ---------- the binary form ----------

  const XDR: bv8 := 0
  const NDR: bv8 := 1

  /** The writer's settings. */
  datatype Settings = Settings(dimension: int, order: ByteOrder, includeSRID: bool)

  function OutputDimension(g: Geometry, w: Settings): int {
    if w.dimension > CoordinateDimension(g) then CoordinateDimension(g) else w.dimension
  }

  function TypeId(g: Geometry): bv32 {
    match g
    case Point(_, _) => 1
    case LineString(_, _) => 2
    case LinearRing(_, _) => 2
    case Polygon(_, _, _) => 3
    case Collection(_, kind, _) => KindId(kind)
  }

  function KindId(kind: CollectionKind): bv32 {
    match kind
    case MULTI_POINT => 4
    case MULTI_LINE_STRING => 5
    case MULTI_POLYGON => 6
    case GEOMETRY_COLLECTION => 7
  }

  function TypeWord(typeId: bv32, outputDimension: int, srid: bv32, includeSRID: bool): bv32 {
    var flag3D: bv32 := if outputDimension == 3 then 0x8000_0000 else 0;
    var typeInt := typeId | flag3D;
    if includeSRID && srid != 0 then typeInt | 0x2000_0000 else typeInt
  }

  ghost function Header(g: Geometry, w: Settings): seq<bv8> {
    [if w.order == LITTLE then NDR else XDR]
    + IntBytes(TypeWord(TypeId(g), OutputDimension(g, w), g.srid, w.includeSRID), w.order)
    + if w.includeSRID && g.srid != 0 then IntBytes(g.srid, w.order) else []
  }

  ghost function CoordinateBytes(c: Coordinate, dim: int, order: ByteOrder): seq<bv8> {
    LongBytes(c.x, order) + LongBytes(c.y, order) + if dim > 2 then LongBytes(c.z, order) else []
  }

  ghost function CoordinatesBytes(cs: seq<Coordinate>, dim: int, order: ByteOrder): seq<bv8> {
    if cs == [] then [] else CoordinatesBytes(cs[..|cs| - 1], dim, order) + CoordinateBytes(cs[|cs| - 1], dim, order)
  }

  ghost function SequenceBytes(cs: seq<Coordinate>, dim: int, order: ByteOrder): seq<bv8> {
    IntBytes(ToInt32(|cs|), order) + CoordinatesBytes(cs, dim, order)
  }

  ghost function RingsBytes(css: seq<CoordinateSequence>, dim: int, order: ByteOrder): seq<bv8> {
    if css == [] then [] else RingsBytes(css[..|css| - 1], dim, order) + SequenceBytes(css[|css| - 1].coords, dim, order)
  }

  ghost function Encode(g: Geometry, w: Settings): seq<bv8>
    requires Encodable(g)
    decreases g, 0
  {
    var dim := OutputDimension(g, w);
    Header(g, w) +
    match g
    case Point(_, points) => CoordinateBytes(points.coords[0], dim, w.order)
    case LineString(_, points) => SequenceBytes(points.coords, dim, w.order)
    case LinearRing(_, points) => SequenceBytes(points.coords, dim, w.order)
    case Polygon(_, shell, holes) =>
      if shell.coords == [] then IntBytes(ToInt32(0), w.order)
      else IntBytes(ToInt32(|holes| + 1), w.order) + SequenceBytes(shell.coords, dim, w.order) + RingsBytes(holes, dim, w.order)
    case Collection(_, _, geometries) => IntBytes(ToInt32(|geometries|), w.order) + EncodeAll(geometries, w)
  }

  ghost function EncodeAll(gs: seq<Geometry>, w: Settings): seq<bv8>
    requires forall i :: 0 <= i < |gs| ==> Encodable(gs[i])
    decreases gs, 1
  {
    if gs == [] then [] else EncodeAll(gs[..|gs| - 1], w) + Encode(gs[|gs| - 1], w)
  }

  // ---------- reading ----------

  datatype ReadError = ParseException | IllegalArgument | AllocationFailure

  /** A value, the bytes left after it and the byte order then in force; or the exception. */
  datatype Parsed<T> = Parsed(value: T, rest: seq<bv8>, order: ByteOrder) | Failed(error: ReadError)

  ghost function ParseByte(bytes: seq<bv8>, order: ByteOrder): Parsed<bv8> {
    if |bytes| < 1 then Failed(ParseException) else Parsed(bytes[0], bytes[1..], order)
  }

  ghost function ParseInt(bytes: seq<bv8>, order: ByteOrder): Parsed<bv32> {
    if |bytes| < 4 then Failed(ParseException) else Parsed(GetInt(bytes, order), bytes[4..], order)
  }

  ghost function ParseDouble(bytes: seq<bv8>, order: ByteOrder): Parsed<bv64> {
    if |bytes| < 8 then Failed(ParseException) else Parsed(GetLong(bytes, order), bytes[8..], order)
  }

  /** Two ordinates, or three; a third that is not there is NaN. */
  ghost function ParseCoordinate(dim: int, bytes: seq<bv8>, order: ByteOrder): Parsed<Coordinate> {
    match ParseDouble(bytes, order)
    case Failed(e) => Failed(e)
    case Parsed(x, afterX, _) =>
      match ParseDouble(afterX, order)
      case Failed(e) => Failed(e)
      case Parsed(y, afterY, _) =>
        if dim != 3 then Parsed(Coordinate(x, y, NAN), afterY, order)
        else
          match ParseDouble(afterY, order)
          case Failed(e) => Failed(e)
          case Parsed(z, afterZ, _) => Parsed(Coordinate(x, y, z), afterZ, order)
  }

  ghost function ParseCoordinates(n: nat, dim: int, bytes: seq<bv8>, order: ByteOrder): (r: Parsed<seq<Coordinate>>)
    ensures r.Parsed? ==> |r.value| == n && |r.rest| <= |bytes| && r.order == order
  {
    if n == 0 then Parsed([], bytes, order)
    else
      match ParseCoordinates(n - 1, dim, bytes, order)
      case Failed(e) => Failed(e)
      case Parsed(front, rest, _) =>
        match ParseCoordinate(dim, rest, order)
        case Failed(e) => Failed(e)
        case Parsed(c, left, _) => Parsed(front + [c], left, order)
  }

  /** A counted list of coordinates; a negative count asks for impossibly much memory. */
  ghost function ParseSequence(dim: int, bytes: seq<bv8>, order: ByteOrder): (r: Parsed<seq<Coordinate>>)
    ensures r.Parsed? ==> |r.rest| <= |bytes| && r.order == order
  {
    match ParseInt(bytes, order)
    case Failed(e) => Failed(e)
    case Parsed(size, rest, _) =>
      if Signed(size) < 0 then Failed(AllocationFailure) else ParseCoordinates(Signed(size), dim, rest, order)
  }

  ghost function ParseRing(dim: int, bytes: seq<bv8>, order: ByteOrder): (r: Parsed<CoordinateSequence>)
    ensures r.Parsed? ==> |r.rest| <= |bytes| && r.order == order
  {
    match ParseSequence(dim, bytes, order)
    case Failed(e) => Failed(e)
    case Parsed(coords, rest, _) =>
      if ValidRing(coords) then Parsed(CoordinateSequence(dim, coords), rest, order) else Failed(IllegalArgument)
  }

  ghost function ParseRings(n: nat, dim: int, bytes: seq<bv8>, order: ByteOrder): (r: Parsed<seq<CoordinateSequence>>)
    ensures r.Parsed? ==> |r.value| == n && |r.rest| <= |bytes| && r.order == order
  {
    if n == 0 then Parsed([], bytes, order)
    else
      match ParseRings(n - 1, dim, bytes, order)
      case Failed(e) => Failed(e)
      case Parsed(front, rest, _) =>
        match ParseRing(dim, rest, order)
        case Failed(e) => Failed(e)
        case Parsed(ring, left, _) => Parsed(front + [ring], left, order)
  }

  const NO_POINTS := CoordinateSequence(0, [])

  /** createPoint: a null coordinate makes an empty point. */
  function MakePoint(c: Coordinate): Geometry {
    if IsNull(c) then Point(0, NO_POINTS) else Point(0, CoordinateSequence(if IsNaN(c.z) then 2 else 3, [c]))
  }

  ghost function ParsePoint(dim: int, bytes: seq<bv8>, order: ByteOrder): (r: Parsed<Geometry>)
    ensures r.Parsed? ==> |r.rest| <= |bytes|
  {
    match ParseCoordinate(dim, bytes, order)
    case Failed(e) => Failed(e)
    case Parsed(c, rest, _) => Parsed(MakePoint(c), rest, order)
  }

  ghost function ParseLineString(dim: int, bytes: seq<bv8>, order: ByteOrder): (r: Parsed<Geometry>)
    ensures r.Parsed? ==> |r.rest| <= |bytes|
  {
    match ParseSequence(dim, bytes, order)
    case Failed(e) => Failed(e)
    case Parsed(coords, rest, _) =>
      if |coords| == 1 then Failed(IllegalArgument) else Parsed(LineString(0, CoordinateSequence(dim, coords)), rest, order)
  }

  /** No rings at all, or fewer, make an empty polygon. */
  ghost function ParsePolygon(dim: int, bytes: seq<bv8>, order: ByteOrder): (r: Parsed<Geometry>)
    ensures r.Parsed? ==> |r.rest| <= |bytes|
  {
    match ParseInt(bytes, order)
    case Failed(e) => Failed(e)
    case Parsed(numRings, rest, _) =>
      if Signed(numRings) <= 0 then Parsed(Polygon(0, NO_POINTS, []), rest, order)
      else
        match ParseRing(dim, rest, order)
        case Failed(e) => Failed(e)
        case Parsed(shell, left, _) =>
          match ParseRings(Signed(numRings) - 1, dim, left, order)
          case Failed(e) => Failed(e)
          case Parsed(holes, end, _) =>
            if shell.coords == [] && HasNonEmpty(holes) then Failed(IllegalArgument)
            else Parsed(Polygon(0, shell, holes), end, order)
  }

  function KindOf(geometryType: bv32): CollectionKind {
    if geometryType == 4 then MULTI_POINT
    else if geometryType == 5 then MULTI_LINE_STRING
    else if geometryType == 6 then MULTI_POLYGON
    else GEOMETRY_COLLECTION
  }

  function WithSRID(g: Geometry, srid: bv32): Geometry {
    match g
    case Point(_, points) => Point(srid, points)
    case LineString(_, points) => LineString(srid, points)
    case LinearRing(_, points) => LinearRing(srid, points)
    case Polygon(_, shell, holes) => Polygon(srid, shell, holes)
    case Collection(_, kind, geometries) => Collection(srid, kind, geometries)
  }

  /** The order that a byte order mark sets; any other value leaves it as it is. */
  function OrderOf(mark: bv8, order: ByteOrder): ByteOrder {
    if mark == NDR then LITTLE else if mark == XDR then BIG else order
  }

  ghost function ParseGeometry(bytes: seq<bv8>, order: ByteOrder): (r: Parsed<Geometry>)
    ensures r.Parsed? ==> |r.rest| < |bytes|
    decreases |bytes|, 0, 0
  {
    match ParseByte(bytes, order)
    case Failed(e) => Failed(e)
    case Parsed(mark, afterMark, _) =>
      match ParseInt(afterMark, OrderOf(mark, order))
      case Failed(e) => Failed(e)
      case Parsed(typeInt, afterType, newOrder) => ParseTyped(typeInt, afterType, newOrder)
  }

  /** What follows the type and its flags. */
  ghost function ParseTyped(typeInt: bv32, bytes: seq<bv8>, order: ByteOrder): (r: Parsed<Geometry>)
    ensures r.Parsed? ==> |r.rest| <= |bytes|
    decreases |bytes|, 3, 0
  {
    var dim := if typeInt & 0x8000_0000 != 0 then 3 else 2;
    if typeInt & 0x2000_0000 != 0 then
      match ParseInt(bytes, order)
      case Failed(e) => Failed(e)
      case Parsed(srid, rest, _) => Numbered(ParseBody(typeInt & 0xff, dim, rest, order), srid)
    else
      Numbered(ParseBody(typeInt & 0xff, dim, bytes, order), 0)
  }

  ghost function Numbered(p: Parsed<Geometry>, srid: bv32): (r: Parsed<Geometry>)
    ensures r.Parsed? ==> p.Parsed? && r.rest == p.rest
  {
    match p
    case Failed(e) => Failed(e)
    case Parsed(g, rest, order) => Parsed(WithSRID(g, srid), rest, order)
  }

  ghost function ParseBody(geometryType: bv32, dim: int, bytes: seq<bv8>, order: ByteOrder): (r: Parsed<Geometry>)
    ensures r.Parsed? ==> |r.rest| <= |bytes|
    decreases |bytes|, 2, 0
  {
    if geometryType == 1 then ParsePoint(dim, bytes, order)
    else if geometryType == 2 then ParseLineString(dim, bytes, order)
    else if geometryType == 3 then ParsePolygon(dim, bytes, order)
    else if 4 <= geometryType <= 7 then
      match ParseInt(bytes, order)
      case Failed(e) => Failed(e)
      case Parsed(numGeoms, rest, _) =>
        if Signed(numGeoms) < 0 then Failed(AllocationFailure)
        else
          match ParseGeometries(Signed(numGeoms), KindOf(geometryType), rest, order)
          case Failed(e) => Failed(e)
          case Parsed(geometries, left, lastOrder) => Parsed(MakeCollection(KindOf(geometryType), geometries), left, lastOrder)
    else Failed(ParseException)
  }

  /** The collection constructor, which drops the SRIDs of its members. */
  function MakeCollection(kind: CollectionKind, geometries: seq<Geometry>): Geometry {
    Collection(0, kind, seq(|geometries|, i requires 0 <= i < |geometries| => WithSRID(geometries[i], 0)))
  }

  ghost function ParseGeometries(n: nat, kind: CollectionKind, bytes: seq<bv8>, order: ByteOrder): (r: Parsed<seq<Geometry>>)
    ensures r.Parsed? ==> |r.value| == n && |r.rest| <= |bytes|
    decreases |bytes|, 1, n
  {
    if n == 0 then Parsed([], bytes, order)
    else
      match ParseGeometries(n - 1, kind, bytes, order)
      case Failed(e) => Failed(e)
      case Parsed(front, rest, nextOrder) =>
        match ParseGeometry(rest, nextOrder)
        case Failed(e) => Failed(e)
        case Parsed(g, left, lastOrder) =>
          if Admits(kind, g) then Parsed(front + [g], left, lastOrder) else Failed(ParseException)
  }
}
