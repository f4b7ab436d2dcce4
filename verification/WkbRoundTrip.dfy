/** Reading what was written. */
module WkbRoundTrip {
  import opened ByteOrderValues
  import opened WkbFormat

  // ---------- what survives ----------

  /** The coordinate without its third ordinate unless three are written. */
  function Kept(c: Coordinate, dim: int): Coordinate {
    if dim == 3 then c else Coordinate(c.x, c.y, NAN)
  }

  ghost function KeptAll(cs: seq<Coordinate>, dim: int): (r: seq<Coordinate>)
    ensures |r| == |cs| && forall i :: 0 <= i < |cs| ==> r[i] == Kept(cs[i], dim)
  {
    seq(|cs|, i requires 0 <= i < |cs| => Kept(cs[i], dim))
  }

  ghost function KeptSequence(cs: CoordinateSequence, dim: int): CoordinateSequence {
    CoordinateSequence(dim, KeptAll(cs.coords, dim))
  }

  ghost function KeptRings(css: seq<CoordinateSequence>, dim: int): (r: seq<CoordinateSequence>)
    ensures |r| == |css| && forall i :: 0 <= i < |css| ==> r[i] == KeptSequence(css[i], dim)
  {
    seq(|css|, i requires 0 <= i < |css| => KeptSequence(css[i], dim))
  }

  /** The geometry that reading back gives: coordinates as far as the output dimension goes; the SRID of the whole if it
      is included, and none in the members of a collection; rings of their own as line strings; an empty polygon without
      holes; a point without any ordinate as an empty point. */
  ghost function ReadBack(g: Geometry, w: Settings): Geometry
    requires Encodable(g)
    decreases g, 0
  {
    var dim, srid := OutputDimension(g, w), if w.includeSRID then g.srid else 0;
    match g
    case Point(_, points) => WithSRID(MakePoint(Kept(points.coords[0], dim)), srid)
    case LineString(_, points) => LineString(srid, KeptSequence(points, dim))
    case LinearRing(_, points) => LineString(srid, KeptSequence(points, dim))
    case Polygon(_, shell, holes) =>
      if shell.coords == [] then Polygon(srid, NO_POINTS, [])
      else Polygon(srid, KeptSequence(shell, dim), KeptRings(holes, dim))
    case Collection(_, kind, geometries) => WithSRID(MakeCollection(kind, ReadBackAll(geometries, w)), srid)
  }

  ghost function ReadBackAll(gs: seq<Geometry>, w: Settings): (r: seq<Geometry>)
    requires forall i :: 0 <= i < |gs| ==> Encodable(gs[i])
    ensures |r| == |gs|
    decreases gs, 1
  {
    if gs == [] then [] else ReadBackAll(gs[..|gs| - 1], w) + [ReadBack(gs[|gs| - 1], w)]
  }

  // ---------- numbers and coordinates ----------

  lemma IntRead(v: bv32, order: ByteOrder, rest: seq<bv8>)
    ensures ParseInt(IntBytes(v, order) + rest, order) == Parsed(v, rest, order)
  {
    hide GetInt, IntBytes;
    IntRoundTrip(v, order, rest);
    assert (IntBytes(v, order) + rest)[4..] == rest;
  }

  lemma DoubleRead(v: bv64, order: ByteOrder, rest: seq<bv8>)
    ensures ParseDouble(LongBytes(v, order) + rest, order) == Parsed(v, rest, order)
  {
    hide GetLong, LongBytes;
    LongRoundTrip(v, order, rest);
    assert (LongBytes(v, order) + rest)[8..] == rest;
  }

  lemma CoordinateRead(c: Coordinate, dim: int, order: ByteOrder, rest: seq<bv8>)
    requires dim == 2 || dim == 3
    ensures ParseCoordinate(dim, CoordinateBytes(c, dim, order) + rest, order) == Parsed(Kept(c, dim), rest, order)
  {
    hide ParseDouble, LongBytes;
    var third := if dim > 2 then LongBytes(c.z, order) else [];
    assert CoordinateBytes(c, dim, order) + rest == LongBytes(c.x, order) + (LongBytes(c.y, order) + (third + rest));
    DoubleRead(c.x, order, LongBytes(c.y, order) + (third + rest));
    DoubleRead(c.y, order, third + rest);
    DoubleRead(c.z, order, rest);
    assert dim == 2 ==> third + rest == rest;
  }

  lemma {:induction false} CoordinatesRead(cs: seq<Coordinate>, dim: int, order: ByteOrder, rest: seq<bv8>)
    requires dim == 2 || dim == 3
    ensures ParseCoordinates(|cs|, dim, CoordinatesBytes(cs, dim, order) + rest, order) == Parsed(KeptAll(cs, dim), rest, order)
  {
    hide ParseCoordinate, CoordinateBytes;
    if cs == [] {
      assert CoordinatesBytes(cs, dim, order) + rest == rest;
    } else {
      var front, last := cs[..|cs| - 1], cs[|cs| - 1];
      var left := CoordinateBytes(last, dim, order) + rest;
      assert CoordinatesBytes(cs, dim, order) + rest == CoordinatesBytes(front, dim, order) + left;
      CoordinatesRead(front, dim, order, left);
      CoordinateRead(last, dim, order, rest);
      assert KeptAll(cs, dim) == KeptAll(front, dim) + [Kept(last, dim)];
    }
  }

  lemma SequenceRead(cs: seq<Coordinate>, dim: int, order: ByteOrder, rest: seq<bv8>)
    requires (dim == 2 || dim == 3) && |cs| <= MAX_COUNT
    ensures ParseSequence(dim, SequenceBytes(cs, dim, order) + rest, order) == Parsed(KeptAll(cs, dim), rest, order)
  {
    hide ParseInt, IntBytes, ParseCoordinates, CoordinatesBytes, Signed, ToInt32;
    CountRoundTrip(|cs|);
    var left := CoordinatesBytes(cs, dim, order) + rest;
    assert SequenceBytes(cs, dim, order) + rest == IntBytes(ToInt32(|cs|), order) + left;
    IntRead(ToInt32(|cs|), order, left);
    CoordinatesRead(cs, dim, order, rest);
  }

  /** Dropping the third ordinate keeps a ring a ring. */
  lemma KeptRing(cs: seq<Coordinate>, dim: int)
    requires ValidRing(cs)
    ensures ValidRing(KeptAll(cs, dim))
  {
  }

  lemma RingRead(cs: CoordinateSequence, dim: int, order: ByteOrder, rest: seq<bv8>)
    requires (dim == 2 || dim == 3) && |cs.coords| <= MAX_COUNT && ValidRing(cs.coords)
    ensures ParseRing(dim, SequenceBytes(cs.coords, dim, order) + rest, order) == Parsed(KeptSequence(cs, dim), rest, order)
  {
    hide ParseSequence, SequenceBytes, ValidRing;
    SequenceRead(cs.coords, dim, order, rest);
    KeptRing(cs.coords, dim);
  }

  ghost predicate ReadableRings(css: seq<CoordinateSequence>) {
    forall i :: 0 <= i < |css| ==> |css[i].coords| <= MAX_COUNT && ValidRing(css[i].coords)
  }

  lemma {:induction false} RingsRead(css: seq<CoordinateSequence>, dim: int, order: ByteOrder, rest: seq<bv8>)
    requires (dim == 2 || dim == 3) && ReadableRings(css)
    ensures ParseRings(|css|, dim, RingsBytes(css, dim, order) + rest, order) == Parsed(KeptRings(css, dim), rest, order)
  {
    hide ParseRing, SequenceBytes, ValidRing, KeptSequence;
    if css == [] {
      assert RingsBytes(css, dim, order) + rest == rest;
    } else {
      var front, last := css[..|css| - 1], css[|css| - 1];
      var left := SequenceBytes(last.coords, dim, order) + rest;
      assert RingsBytes(css, dim, order) + rest == RingsBytes(front, dim, order) + left;
      RingsRead(front, dim, order, left);
      RingRead(last, dim, order, rest);
      assert KeptRings(css, dim) == KeptRings(front, dim) + [KeptSequence(last, dim)];
    }
  }

  // ---------- headers ----------

  lemma {:induction false} MaxDimensionRange(css: seq<CoordinateSequence>)
    requires forall i :: 0 <= i < |css| ==> ValidDimension(css[i])
    ensures 2 <= MaxDimension(css) <= 3
  {
    if css != [] {
      MaxDimensionRange(css[..|css| - 1]);
    }
  }

  lemma {:induction false} DimensionRange(g: Geometry)
    requires WellFormed(g)
    ensures 2 <= CoordinateDimension(g) <= 3
    decreases g, 0
  {
    match g
    case Polygon(_, shell, holes) => MaxDimensionRange(holes);
    case Collection(_, _, geometries) => AllDimensionsRange(geometries);
    case _ =>
  }

  lemma {:induction false} AllDimensionsRange(gs: seq<Geometry>)
    requires forall i :: 0 <= i < |gs| ==> WellFormed(gs[i])
    ensures 2 <= MaxCoordinateDimension(gs) <= 3
    decreases gs, 1
  {
    if gs != [] {
      AllDimensionsRange(gs[..|gs| - 1]);
      DimensionRange(gs[|gs| - 1]);
    }
  }

  /** Declared with three ordinates; or not declared, and the first coordinate, if any, has a third. */
  ghost predicate ThreeDimensional(cs: CoordinateSequence) {
    cs.dimension == 3 || (cs.dimension == 0 && (cs.coords != [] ==> !IsNaN(cs.coords[0].z)))
  }

  /** Some sequence of the geometry is three-dimensional. */
  ghost predicate SomeThree(g: Geometry)
    decreases g
  {
    match g
    case Polygon(_, shell, holes) => ThreeDimensional(shell) || exists i :: 0 <= i < |holes| && ThreeDimensional(holes[i])
    case Collection(_, _, geometries) => exists i :: 0 <= i < |geometries| && SomeThree(geometries[i])
    case _ => ThreeDimensional(g.points)
  }

  lemma {:induction false} MaxDimensionIff(css: seq<CoordinateSequence>)
    requires forall i :: 0 <= i < |css| ==> ValidDimension(css[i])
    ensures MaxDimension(css) == 3 <==> exists i :: 0 <= i < |css| && ThreeDimensional(css[i])
  {
    if css != [] {
      var front := css[..|css| - 1];
      MaxDimensionIff(front);
      MaxDimensionRange(front);
      assert forall i :: 0 <= i < |front| ==> front[i] == css[i];
    }
  }

  /** A geometry has dimension 3 exactly when some sequence in it has. */
  lemma {:induction false} DimensionIff(g: Geometry)
    requires WellFormed(g)
    ensures CoordinateDimension(g) == 3 <==> SomeThree(g)
    decreases g, 0
  {
    match g
    case Polygon(_, shell, holes) =>
      MaxDimensionIff(holes);
      MaxDimensionRange(holes);
    case Collection(_, _, geometries) => AllDimensionsIff(geometries);
    case _ =>
  }

  lemma {:induction false} AllDimensionsIff(gs: seq<Geometry>)
    requires forall i :: 0 <= i < |gs| ==> WellFormed(gs[i])
    ensures MaxCoordinateDimension(gs) == 3 <==> exists i :: 0 <= i < |gs| && SomeThree(gs[i])
    decreases gs, 1
  {
    hide SomeThree, CoordinateDimension;
    if gs != [] {
      var front, last := gs[..|gs| - 1], gs[|gs| - 1];
      AllDimensionsIff(front);
      AllDimensionsRange(front);
      DimensionIff(last);
      DimensionRange(last);
      assert forall i :: 0 <= i < |front| ==> front[i] == gs[i];
    }
  }

  /** Four points are a ring exactly when the last is at the place of the first, and one to three never are. */
  lemma ShortestRing(cs: CoordinateSequence, dim: int, order: ByteOrder, rest: seq<bv8>)
    requires (dim == 2 || dim == 3) && 1 <= |cs.coords| <= 4
    ensures var r := ParseRing(dim, SequenceBytes(cs.coords, dim, order) + rest, order);
            if |cs.coords| == 4 && EqualDoubles(cs.coords[0].x, cs.coords[3].x) && EqualDoubles(cs.coords[0].y, cs.coords[3].y)
            then r == Parsed(KeptSequence(cs, dim), rest, order)
            else r == Failed(IllegalArgument)
  {
    hide ParseSequence, SequenceBytes, EqualDoubles;
    SequenceRead(cs.coords, dim, order, rest);
  }

  /** The flags and the type come apart again. */
  lemma TypeWordRead(typeId: bv32, dim: int, srid: bv32, includeSRID: bool)
    requires 1 <= typeId <= 7
    ensures var typeInt := TypeWord(typeId, dim, srid, includeSRID);
            && typeInt & 0xff == typeId
            && (typeInt & 0x8000_0000 != 0 <==> dim == 3)
            && (typeInt & 0x2000_0000 != 0 <==> includeSRID && srid != 0)
  {
  }

  ghost function SRIDBytes(g: Geometry, w: Settings): seq<bv8> {
    if w.includeSRID && g.srid != 0 then IntBytes(g.srid, w.order) else []
  }

  /** Reading a header: the body follows in the writer's order, with its dimension, and the SRID if it was included. */
  lemma HeaderRead(g: Geometry, w: Settings, body: seq<bv8>, order: ByteOrder)
    ensures ParseGeometry(Header(g, w) + body, order)
         == Numbered(ParseBody(TypeId(g), if OutputDimension(g, w) == 3 then 3 else 2, body, w.order),
                     if w.includeSRID then g.srid else 0)
  {
    hide ParseInt, IntBytes, ParseBody, TypeWord, Numbered, OutputDimension, TypeId;
    var mark: seq<bv8> := [if w.order == LITTLE then NDR else XDR];
    var typeInt := TypeWord(TypeId(g), OutputDimension(g, w), g.srid, w.includeSRID);
    var afterType := SRIDBytes(g, w) + body;
    var afterMark := IntBytes(typeInt, w.order) + afterType;
    assert Header(g, w) + body == mark + afterMark;
    assert (mark + afterMark)[1..] == afterMark;
    MarkRead(w.order, order);
    IntRead(typeInt, w.order, afterType);
    TypeIdRange(g);
    TypeWordRead(TypeId(g), OutputDimension(g, w), g.srid, w.includeSRID);
    if w.includeSRID && g.srid != 0 {
      IntRead(g.srid, w.order, body);
    } else {
      assert afterType == body;
    }
  }

  lemma MarkRead(written: ByteOrder, order: ByteOrder)
    ensures OrderOf(if written == LITTLE then NDR else XDR, order) == written
  {
  }

  lemma TypeIdRange(g: Geometry)
    ensures 1 <= TypeId(g) <= 7
    ensures g.Collection? ==> 4 <= TypeId(g) <= 7 && KindOf(TypeId(g)) == g.kind
  {
  }

  // ---------- bodies ----------

  ghost function Body(g: Geometry, w: Settings): seq<bv8>
    requires Encodable(g)
  {
    var dim := OutputDimension(g, w);
    match g
    case Point(_, points) => CoordinateBytes(points.coords[0], dim, w.order)
    case LineString(_, points) => SequenceBytes(points.coords, dim, w.order)
    case LinearRing(_, points) => SequenceBytes(points.coords, dim, w.order)
    case Polygon(_, shell, holes) =>
      if shell.coords == [] then IntBytes(ToInt32(0), w.order)
      else IntBytes(ToInt32(|holes| + 1), w.order) + SequenceBytes(shell.coords, dim, w.order) + RingsBytes(holes, dim, w.order)
    case Collection(_, _, geometries) => IntBytes(ToInt32(|geometries|), w.order) + EncodeAll(geometries, w)
  }

  lemma EncodeIsHeaderAndBody(g: Geometry, w: Settings)
    requires Encodable(g)
    ensures Encode(g, w) == Header(g, w) + Body(g, w)
  {
    hide Header, CoordinateBytes, SequenceBytes, RingsBytes, OutputDimension;
  }

  lemma PolygonRead(shell: CoordinateSequence, holes: seq<CoordinateSequence>, dim: int, order: ByteOrder, rest: seq<bv8>)
    requires (dim == 2 || dim == 3) && ReadableRings([shell]) && ReadableRings(holes) && |holes| < MAX_COUNT
    requires shell.coords != []
    ensures ParsePolygon(dim, IntBytes(ToInt32(|holes| + 1), order) + SequenceBytes(shell.coords, dim, order)
                              + RingsBytes(holes, dim, order) + rest, order)
         == Parsed(Polygon(0, KeptSequence(shell, dim), KeptRings(holes, dim)), rest, order)
  {
    hide ParseInt, IntBytes, ParseRing, ParseRings, SequenceBytes, RingsBytes, Signed, ToInt32, ValidRing;
    CountRoundTrip(|holes| + 1);
    assert ReadableRings([shell]) ==> |[shell][0].coords| <= MAX_COUNT && ValidRing([shell][0].coords);
    var left := RingsBytes(holes, dim, order) + rest;
    var afterCount := SequenceBytes(shell.coords, dim, order) + left;
    JoinedToTheRight(IntBytes(ToInt32(|holes| + 1), order), SequenceBytes(shell.coords, dim, order), RingsBytes(holes, dim, order), rest);
    IntRead(ToInt32(|holes| + 1), order, afterCount);
    RingRead(shell, dim, order, left);
    RingsRead(holes, dim, order, rest);
  }

  lemma JoinedToTheRight(a: seq<bv8>, b: seq<bv8>, c: seq<bv8>, d: seq<bv8>)
    ensures a + b + c + d == a + (b + (c + d))
  {
  }

  lemma EmptyPolygonRead(dim: int, order: ByteOrder, rest: seq<bv8>)
    ensures ParsePolygon(dim, IntBytes(ToInt32(0), order) + rest, order) == Parsed(Polygon(0, NO_POINTS, []), rest, order)
  {
    hide ParseInt, IntBytes, Signed, ToInt32;
    CountRoundTrip(0);
    IntRead(ToInt32(0), order, rest);
  }

  /** The members of a collection keep a type that it admits. */
  lemma ReadBackAdmitted(kind: CollectionKind, g: Geometry, w: Settings)
    requires Admits(kind, g) && Encodable(g)
    ensures Admits(kind, ReadBack(g, w))
  {
    hide OutputDimension, KeptSequence, KeptRings, ReadBackAll;
  }

  lemma {:induction false} GeometriesRead(kind: CollectionKind, gs: seq<Geometry>, w: Settings, rest: seq<bv8>)
    requires w.dimension == 2 || w.dimension == 3
    requires forall i :: 0 <= i < |gs| ==> WellFormed(gs[i]) && Encodable(gs[i]) && Admits(kind, gs[i])
    ensures ParseGeometries(|gs|, kind, EncodeAll(gs, w) + rest, w.order) == Parsed(ReadBackAll(gs, w), rest, w.order)
    decreases gs, 1
  {
    hide Encode, ReadBack, ParseGeometry, Admits, WellFormed;
    if gs == [] {
      assert EncodeAll(gs, w) + rest == rest;
    } else {
      var front, last := gs[..|gs| - 1], gs[|gs| - 1];
      var left := Encode(last, w) + rest;
      assert EncodeAll(gs, w) + rest == EncodeAll(front, w) + left;
      GeometriesRead(kind, front, w, left);
      RoundTrip(last, w, rest, w.order);
      ReadBackAdmitted(kind, last, w);
    }
  }

  lemma MembersAre(g: Geometry)
    requires g.Collection? && WellFormed(g) && Encodable(g)
    ensures |g.geometries| <= MAX_COUNT
    ensures forall i :: 0 <= i < |g.geometries| ==>
              WellFormed(g.geometries[i]) && Encodable(g.geometries[i]) && Admits(g.kind, g.geometries[i])
  {
  }

  /** A counted list of members. */
  lemma CountedRead(n: int, geometryType: bv32, kind: CollectionKind, members: seq<bv8>, gs: seq<Geometry>, dim: int,
                    order: ByteOrder, rest: seq<bv8>)
    requires 0 <= n <= MAX_COUNT && 4 <= geometryType <= 7 && KindOf(geometryType) == kind
    requires ParseGeometries(n, kind, members + rest, order) == Parsed(gs, rest, order)
    ensures ParseBody(geometryType, dim, IntBytes(ToInt32(n), order) + members + rest, order)
         == Parsed(MakeCollection(kind, gs), rest, order)
  {
    hide ParseInt, IntBytes, Signed, ToInt32, ParseGeometries, MakeCollection;
    CountRoundTrip(n);
    assert IntBytes(ToInt32(n), order) + members + rest == IntBytes(ToInt32(n), order) + (members + rest);
    IntRead(ToInt32(n), order, members + rest);
  }

  lemma CollectionRead(g: Geometry, w: Settings, rest: seq<bv8>)
    requires g.Collection? && (w.dimension == 2 || w.dimension == 3) && WellFormed(g) && Encodable(g)
    ensures ParseBody(TypeId(g), OutputDimension(g, w), Body(g, w) + rest, w.order)
         == Parsed(MakeCollection(g.kind, ReadBackAll(g.geometries, w)), rest, w.order)
    decreases g, 1
  {
    hide WellFormed, Encodable, ParseBody, EncodeAll, ReadBackAll, OutputDimension, TypeId;
    var gs := g.geometries;
    MembersAre(g);
    GeometriesRead(g.kind, gs, w, rest);
    TypeIdRange(g);
    CountedRead(|gs|, TypeId(g), g.kind, EncodeAll(gs, w), ReadBackAll(gs, w), OutputDimension(g, w), w.order, rest);
  }

  /** Reading what was written, with anything after it, consumes exactly the bytes written and gives the geometry back
      as far as the form holds it. */
  lemma {:induction false} RoundTrip(g: Geometry, w: Settings, rest: seq<bv8>, order: ByteOrder)
    requires (w.dimension == 2 || w.dimension == 3) && WellFormed(g) && Encodable(g)
    ensures ParseGeometry(Encode(g, w) + rest, order) == Parsed(ReadBack(g, w), rest, w.order)
    decreases g, 4
  {
    hide *;
    OutputDimensionRange(g, w);
    BodyRead(g, w, rest);
    EncodeIsHeaderAndBody(g, w);
    HeaderRead(g, w, Body(g, w) + rest, order);
    JoinThree(Header(g, w), Body(g, w), rest);
    NumberedReadBack(g, w, rest);
  }

  lemma JoinThree<T>(a: seq<T>, b: seq<T>, c: seq<T>)
    ensures (a + b) + c == a + (b + c)
  {
  }

  lemma OutputDimensionRange(g: Geometry, w: Settings)
    requires (w.dimension == 2 || w.dimension == 3) && WellFormed(g)
    ensures OutputDimension(g, w) == 2 || OutputDimension(g, w) == 3
  {
    DimensionRange(g);
  }

  lemma NumberedReadBack(g: Geometry, w: Settings, rest: seq<bv8>)
    requires Encodable(g)
    ensures Numbered(Parsed(WithSRID(ReadBack(g, w), 0), rest, w.order), if w.includeSRID then g.srid else 0)
         == Parsed(ReadBack(g, w), rest, w.order)
  {
    hide OutputDimension, KeptSequence, KeptRings, ReadBackAll, MakeCollection;
  }

  lemma LineBodyRead(g: Geometry, w: Settings, rest: seq<bv8>)
    requires (g.LineString? || g.LinearRing?) && WellFormed(g)
    requires OutputDimension(g, w) == 2 || OutputDimension(g, w) == 3
    ensures ParseBody(TypeId(g), OutputDimension(g, w), Body(g, w) + rest, w.order)
         == Parsed(WithSRID(ReadBack(g, w), 0), rest, w.order)
  {
    hide SequenceBytes, ParseSequence, OutputDimension, KeptAll;
    SequenceRead(g.points.coords, OutputDimension(g, w), w.order, rest);
  }

  lemma PointBodyRead(g: Geometry, w: Settings, rest: seq<bv8>)
    requires g.Point? && WellFormed(g) && Encodable(g)
    requires OutputDimension(g, w) == 2 || OutputDimension(g, w) == 3
    ensures ParseBody(TypeId(g), OutputDimension(g, w), Body(g, w) + rest, w.order)
         == Parsed(WithSRID(ReadBack(g, w), 0), rest, w.order)
  {
    hide CoordinateBytes, ParseCoordinate, OutputDimension, Kept;
    CoordinateRead(g.points.coords[0], OutputDimension(g, w), w.order, rest);
  }

  lemma PolygonBodyRead(g: Geometry, w: Settings, rest: seq<bv8>)
    requires g.Polygon? && WellFormed(g)
    requires OutputDimension(g, w) == 2 || OutputDimension(g, w) == 3
    ensures ParseBody(TypeId(g), OutputDimension(g, w), Body(g, w) + rest, w.order)
         == Parsed(WithSRID(ReadBack(g, w), 0), rest, w.order)
  {
    hide IntBytes, SequenceBytes, RingsBytes, ParsePolygon, OutputDimension, KeptSequence, KeptRings, ValidRing;
    if g.shell.coords == [] {
      EmptyPolygonRead(OutputDimension(g, w), w.order, rest);
    } else {
      PolygonRead(g.shell, g.holes, OutputDimension(g, w), w.order, rest);
    }
  }

  lemma CollectionBodyRead(g: Geometry, w: Settings, rest: seq<bv8>)
    requires g.Collection? && (w.dimension == 2 || w.dimension == 3) && WellFormed(g) && Encodable(g)
    ensures ParseBody(TypeId(g), OutputDimension(g, w), Body(g, w) + rest, w.order)
         == Parsed(WithSRID(ReadBack(g, w), 0), rest, w.order)
    decreases g, 2
  {
    CollectionRead(g, w, rest);
    hide ParseBody, OutputDimension, ReadBackAll, Body, TypeId;
  }

  lemma BodyRead(g: Geometry, w: Settings, rest: seq<bv8>)
    requires (w.dimension == 2 || w.dimension == 3) && WellFormed(g) && Encodable(g)
    requires OutputDimension(g, w) == 2 || OutputDimension(g, w) == 3
    ensures ParseBody(TypeId(g), OutputDimension(g, w), Body(g, w) + rest, w.order)
         == Parsed(WithSRID(ReadBack(g, w), 0), rest, w.order)
    decreases g, 3
  {
    hide *;
    match g
    case Point(_, _) => PointBodyRead(g, w, rest);
    case Polygon(_, _, _) => PolygonBodyRead(g, w, rest);
    case Collection(_, _, _) => CollectionBodyRead(g, w, rest);
    case _ => LineBodyRead(g, w, rest);
  }

  // ---------- when nothing is lost ----------

  /** The sequence is declared with the dimension, and has no third ordinates unless that is three. */
  ghost predicate Fits(cs: CoordinateSequence, dim: int) {
    cs.dimension == dim && (dim == 3 || forall i :: 0 <= i < |cs.coords| ==> cs.coords[i].z == NAN)
  }

  ghost predicate FaithfulPoint(points: CoordinateSequence, dim: int)
    requires |points.coords| == 1
  {
    var c := points.coords[0];
    && (dim == 3 || c.z == NAN) && !IsNull(c)
    && points.dimension == if IsNaN(c.z) then 2 else 3
  }

  /** The binary form holds everything there is to the geometry. */
  ghost predicate Faithful(g: Geometry, w: Settings)
    requires WellFormed(g) && Encodable(g)
    decreases g
  {
    var dim := OutputDimension(g, w);
    && (w.includeSRID || g.srid == 0)
    && match g
       case Point(_, points) => FaithfulPoint(points, dim)
       case LineString(_, points) => Fits(points, dim)
       case LinearRing(_, _) => false
       case Polygon(_, shell, holes) =>
         if shell.coords == [] then shell == NO_POINTS && holes == []
         else Fits(shell, dim) && forall i :: 0 <= i < |holes| ==> Fits(holes[i], dim)
       case Collection(_, _, geometries) =>
         forall i :: 0 <= i < |geometries| ==> geometries[i].srid == 0 && Faithful(geometries[i], w)
  }

  lemma KeptIff(cs: CoordinateSequence, dim: int)
    ensures KeptSequence(cs, dim) == cs <==> Fits(cs, dim)
  {
    if Fits(cs, dim) {
      assert KeptAll(cs.coords, dim) == cs.coords;
    } else if cs.dimension == dim {
      var i :| 0 <= i < |cs.coords| && cs.coords[i].z != NAN;
      assert KeptAll(cs.coords, dim)[i].z == NAN;
    }
  }

  lemma KeptRingsIff(css: seq<CoordinateSequence>, dim: int)
    ensures KeptRings(css, dim) == css <==> forall i :: 0 <= i < |css| ==> Fits(css[i], dim)
  {
    forall i | 0 <= i < |css|
      ensures KeptRings(css, dim)[i] == css[i] <==> Fits(css[i], dim)
    {
      KeptIff(css[i], dim);
    }
  }

  lemma {:induction false} ReadBackAllAt(gs: seq<Geometry>, w: Settings, i: nat)
    requires (forall k :: 0 <= k < |gs| ==> Encodable(gs[k])) && i < |gs|
    ensures ReadBackAll(gs, w)[i] == ReadBack(gs[i], w)
  {
    hide ReadBack;
    if i < |gs| - 1 {
      ReadBackAllAt(gs[..|gs| - 1], w, i);
    }
  }

  lemma ReadBackSRID(g: Geometry, w: Settings)
    requires Encodable(g)
    ensures ReadBack(g, w).srid == if w.includeSRID then g.srid else 0
  {
    hide OutputDimension, KeptSequence, KeptRings, ReadBackAll, MakeCollection, MakePoint;
  }

  /** Reading back gives the very same geometry exactly when the form holds everything there is to it. */
  lemma {:induction false} ReadBackIff(g: Geometry, w: Settings)
    requires (w.dimension == 2 || w.dimension == 3) && WellFormed(g) && Encodable(g)
    ensures ReadBack(g, w) == g <==> Faithful(g, w)
    decreases g
  {
    var dim := OutputDimension(g, w);
    OutputDimensionRange(g, w);
    match g
    case Point(_, points) =>
      PointIff(g, w);
    case LineString(_, points) =>
      KeptIff(points, dim);
    case LinearRing(_, _) =>
    case Polygon(_, shell, holes) =>
      KeptIff(shell, dim);
      KeptRingsIff(holes, dim);
    case Collection(_, kind, gs) =>
      forall i | 0 <= i < |gs|
        ensures WithSRID(ReadBack(gs[i], w), 0) == gs[i] <==> gs[i].srid == 0 && Faithful(gs[i], w)
      {
        ReadBackIff(gs[i], w);
        MemberIff(gs[i], w);
      }
      CollectionIff(g, w);
  }

  /** A point of NaNs is read back as an empty one. */
  lemma NaNPointReadEmpty(order: ByteOrder)
    ensures var g, w := Point(0, CoordinateSequence(2, [Coordinate(NAN, NAN, NAN)])), Settings(2, BIG, false);
            && WellFormed(g) && Encodable(g) && Point(0, NO_POINTS) != g
            && ParseGeometry(Encode(g, w), order) == Parsed(Point(0, NO_POINTS), [], BIG)
  {
    var g, w := Point(0, CoordinateSequence(2, [Coordinate(NAN, NAN, NAN)])), Settings(2, BIG, false);
    RoundTrip(g, w, [], order);
    assert Encode(g, w) + [] == Encode(g, w);
    assert ReadBack(g, w) == Point(0, NO_POINTS);
  }

  lemma MemberIff(g: Geometry, w: Settings)
    requires Encodable(g)
    ensures WithSRID(ReadBack(g, w), 0) == g <==> g.srid == 0 && ReadBack(g, w) == g
  {
    hide ReadBack;
    ReadBackSRID(g, w);
  }

  lemma PointIff(g: Geometry, w: Settings)
    requires g.Point? && WellFormed(g) && Encodable(g)
    ensures ReadBack(g, w) == g <==> Faithful(g, w)
  {
    hide OutputDimension;
    assert g.points.coords == [g.points.coords[0]];
  }

  lemma CollectionIff(g: Geometry, w: Settings)
    requires g.Collection? && Encodable(g)
    ensures ReadBack(g, w) == g <==>
            (w.includeSRID || g.srid == 0)
            && forall i :: 0 <= i < |g.geometries| ==> WithSRID(ReadBack(g.geometries[i], w), 0) == g.geometries[i]
  {
    var gs := g.geometries;
    forall i | 0 <= i < |gs| {
      ReadBackAllAt(gs, w, i);
    }
    var members := MakeCollection(g.kind, ReadBackAll(gs, w)).geometries;
    assert members == gs <==> forall i :: 0 <= i < |gs| ==> members[i] == gs[i];
  }
}
