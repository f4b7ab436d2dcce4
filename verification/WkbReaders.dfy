/** Reading geometries from well-known binary form, and from its hexadecimal form. */
module WkbReaders {
  import opened ByteOrderValues
  import opened WkbFormat
  import opened WkbHex
  import opened WkbRoundTrip

  datatype Result<T> = Ok(value: T) | Err(error: ReadError)

  /** The result, and the stream's bytes and order after it, are those of the parse. */
  ghost predicate Yields<T>(p: Parsed<T>, r: Result<T>, bytes: seq<bv8>, order: ByteOrder) {
    match p
    case Failed(e) => r == Err(e)
    case Parsed(v, rest, newOrder) => r == Ok(v) && bytes == rest && order == newOrder
  }

  class ByteOrderDataInStream {
    var bytes: seq<bv8>
    var byteOrder: ByteOrder

    constructor (machineOrder: ByteOrder)
      ensures bytes == [] && byteOrder == machineOrder
    {
      bytes, byteOrder := [], machineOrder;
    }

    method ReadByte() returns (r: Result<bv8>)
      modifies this
      ensures Yields(ParseByte(old(bytes), old(byteOrder)), r, bytes, byteOrder) && byteOrder == old(byteOrder)
    {
      if |bytes| < 1 {
        return Err(ParseException);
      }
      r := Ok(bytes[0]);
      bytes := bytes[1..];
    }

    method ReadInt() returns (r: Result<bv32>)
      modifies this
      ensures Yields(ParseInt(old(bytes), old(byteOrder)), r, bytes, byteOrder) && byteOrder == old(byteOrder)
    {
      if |bytes| < 4 {
        return Err(ParseException);
      }
      r := Ok(GetInt(bytes, byteOrder));
      bytes := bytes[4..];
    }

    method ReadDouble() returns (r: Result<bv64>)
      modifies this
      ensures Yields(ParseDouble(old(bytes), old(byteOrder)), r, bytes, byteOrder) && byteOrder == old(byteOrder)
    {
      if |bytes| < 8 {
        return Err(ParseException);
      }
      r := Ok(GetLong(bytes, byteOrder));
      bytes := bytes[8..];
    }
  }

  class WKBReader {
    const dis: ByteOrderDataInStream
    var inputDimension: int
    var ordValues: seq<bv64>

    /** There is room for the ordinates of one coordinate. */
    ghost predicate Ready()
      reads this
    {
      2 <= inputDimension <= 3 && inputDimension <= |ordValues|
    }

    constructor (machineOrder: ByteOrder)
      ensures fresh(dis) && dis.byteOrder == machineOrder
    {
      inputDimension := 0;
      ordValues := [];
      dis := new ByteOrderDataInStream(machineOrder);
    }

    /** Reads the next ordinates into ordValues. */
    method ReadCoordinate() returns (r: Result<Coordinate>)
      requires Ready()
      modifies this`ordValues, dis
      ensures Ready() && dis.byteOrder == old(dis.byteOrder)
      ensures Yields(ParseCoordinate(inputDimension, old(dis.bytes), dis.byteOrder), r, dis.bytes, dis.byteOrder)
    {
      hide GetLong;
      var x := dis.ReadDouble();
      if x.Err? {
        return Err(x.error);
      }
      ordValues := ordValues[0 := x.value];
      var y := dis.ReadDouble();
      if y.Err? {
        return Err(y.error);
      }
      ordValues := ordValues[1 := y.value];
      if inputDimension != 3 {
        return Ok(Coordinate(ordValues[0], ordValues[1], NAN));
      }
      var z := dis.ReadDouble();
      if z.Err? {
        return Err(z.error);
      }
      ordValues := ordValues[2 := z.value];
      return Ok(Coordinate(ordValues[0], ordValues[1], ordValues[2]));
    }

    method ReadCoordinateSequence(size: int) returns (r: Result<seq<Coordinate>>)
      requires Ready()
      modifies this`ordValues, dis
      ensures Ready() && dis.byteOrder == old(dis.byteOrder)
      ensures Yields(if size < 0 then Failed(AllocationFailure)
                     else ParseCoordinates(size, inputDimension, old(dis.bytes), dis.byteOrder), r, dis.bytes, dis.byteOrder)
    {
      hide ParseCoordinate;
      if size < 0 {
        return Err(AllocationFailure);
      }
      var coords := [];
      var i := 0;
      ghost var order := dis.byteOrder;
      while i < size
        invariant 0 <= i <= size && Ready() && dis.byteOrder == order
        invariant ParseCoordinates(i, inputDimension, old(dis.bytes), order) == Parsed(coords, dis.bytes, order)
      {
        var c := ReadCoordinate();
        if c.Err? {
          FailsOn(size, i + 1, inputDimension, old(dis.bytes), order);
          return Err(c.error);
        }
        coords := coords + [c.value];
        i := i + 1;
      }
      return Ok(coords);
    }

    /** A count and the coordinates. */
    method ReadSequence() returns (r: Result<seq<Coordinate>>)
      requires Ready()
      modifies this`ordValues, dis
      ensures Ready() && dis.byteOrder == old(dis.byteOrder)
      ensures Yields(ParseSequence(inputDimension, old(dis.bytes), dis.byteOrder), r, dis.bytes, dis.byteOrder)
    {
      hide ParseCoordinates, GetInt, Signed;
      var size := dis.ReadInt();
      if size.Err? {
        return Err(size.error);
      }
      r := ReadCoordinateSequence(Signed(size.value));
    }

    method ReadPoint() returns (r: Result<Geometry>)
      requires Ready()
      modifies this`ordValues, dis
      ensures Ready() && Yields(ParsePoint(inputDimension, old(dis.bytes), old(dis.byteOrder)), r, dis.bytes, dis.byteOrder)
    {
      hide ParseCoordinate;
      var c := ReadCoordinate();
      if c.Err? {
        return Err(c.error);
      }
      return Ok(MakePoint(c.value));
    }

    method ReadLineString() returns (r: Result<Geometry>)
      requires Ready()
      modifies this`ordValues, dis
      ensures Ready() && Yields(ParseLineString(inputDimension, old(dis.bytes), old(dis.byteOrder)), r, dis.bytes, dis.byteOrder)
    {
      hide ParseSequence;
      var pts := ReadSequence();
      if pts.Err? {
        return Err(pts.error);
      }
      if |pts.value| == 1 {
        return Err(IllegalArgument);
      }
      return Ok(LineString(0, CoordinateSequence(inputDimension, pts.value)));
    }

    method ReadLinearRing() returns (r: Result<CoordinateSequence>)
      requires Ready()
      modifies this`ordValues, dis
      ensures Ready() && dis.byteOrder == old(dis.byteOrder)
      ensures Yields(ParseRing(inputDimension, old(dis.bytes), dis.byteOrder), r, dis.bytes, dis.byteOrder)
    {
      hide ParseSequence, ValidRing;
      var pts := ReadSequence();
      if pts.Err? {
        return Err(pts.error);
      }
      if !ValidRing(pts.value) {
        return Err(IllegalArgument);
      }
      return Ok(CoordinateSequence(inputDimension, pts.value));
    }

    method ReadHoles(n: nat) returns (r: Result<seq<CoordinateSequence>>)
      requires Ready()
      modifies this`ordValues, dis
      ensures Ready() && dis.byteOrder == old(dis.byteOrder)
      ensures Yields(ParseRings(n, inputDimension, old(dis.bytes), dis.byteOrder), r, dis.bytes, dis.byteOrder)
    {
      hide ParseRing;
      var holes := [];
      var i := 0;
      ghost var order := dis.byteOrder;
      while i < n
        invariant 0 <= i <= n && Ready() && dis.byteOrder == order
        invariant ParseRings(i, inputDimension, old(dis.bytes), order) == Parsed(holes, dis.bytes, order)
      {
        var ring := ReadLinearRing();
        if ring.Err? {
          RingsFailOn(n, i + 1, inputDimension, old(dis.bytes), order);
          return Err(ring.error);
        }
        holes := holes + [ring.value];
        i := i + 1;
      }
      return Ok(holes);
    }

    method ReadPolygon() returns (r: Result<Geometry>)
      requires Ready()
      modifies this`ordValues, dis
      ensures Ready() && Yields(ParsePolygon(inputDimension, old(dis.bytes), old(dis.byteOrder)), r, dis.bytes, dis.byteOrder)
    {
      hide ParseRing, ParseRings, HasNonEmpty, Signed, GetInt;
      var count := dis.ReadInt();
      if count.Err? {
        return Err(count.error);
      }
      var numRings := Signed(count.value);
      if numRings <= 0 {
        return Ok(Polygon(0, NO_POINTS, []));
      }
      var shell := ReadLinearRing();
      if shell.Err? {
        return Err(shell.error);
      }
      var holes := ReadHoles(numRings - 1);
      if holes.Err? {
        return Err(holes.error);
      }
      if shell.value.coords == [] && HasNonEmpty(holes.value) {
        return Err(IllegalArgument);
      }
      return Ok(Polygon(0, shell.value, holes.value));
    }

    /** readMultiPoint, readMultiLineString, readMultiPolygon and readGeometryCollection: so many geometries of the
        admitted types. */
    method ReadMembers(kind: CollectionKind, n: nat) returns (r: Result<seq<Geometry>>)
      modifies this, dis
      ensures Yields(ParseGeometries(n, kind, old(dis.bytes), old(dis.byteOrder)), r, dis.bytes, dis.byteOrder)
      decreases |dis.bytes|, 1
    {
      hide ParseGeometry, Admits;
      var geoms := [];
      var i := 0;
      while i < n
        invariant 0 <= i <= n && |dis.bytes| <= old(|dis.bytes|)
        invariant ParseGeometries(i, kind, old(dis.bytes), old(dis.byteOrder)) == Parsed(geoms, dis.bytes, dis.byteOrder)
      {
        var g := ReadGeometry();
        if g.Err? {
          GeometriesFailOn(n, i + 1, kind, old(dis.bytes), old(dis.byteOrder));
          return Err(g.error);
        }
        if !Admits(kind, g.value) {
          GeometriesFailOn(n, i + 1, kind, old(dis.bytes), old(dis.byteOrder));
          return Err(ParseException);
        }
        geoms := geoms + [g.value];
        i := i + 1;
      }
      return Ok(geoms);
    }

    method ReadBody(geometryType: bv32) returns (r: Result<Geometry>)
      requires Ready()
      modifies this, dis
      ensures Yields(ParseBody(geometryType, old(inputDimension), old(dis.bytes), old(dis.byteOrder)), r, dis.bytes, dis.byteOrder)
      decreases |dis.bytes|, 2
    {
      hide ParsePoint, ParseLineString, ParsePolygon, ParseGeometries, Signed, GetInt, MakeCollection;
      if geometryType == 1 {
        r := ReadPoint();
      } else if geometryType == 2 {
        r := ReadLineString();
      } else if geometryType == 3 {
        r := ReadPolygon();
      } else if 4 <= geometryType <= 7 {
        var numGeoms := dis.ReadInt();
        if numGeoms.Err? {
          return Err(numGeoms.error);
        }
        if Signed(numGeoms.value) < 0 {
          return Err(AllocationFailure);
        }
        var geoms := ReadMembers(KindOf(geometryType), Signed(numGeoms.value));
        if geoms.Err? {
          return Err(geoms.error);
        }
        return Ok(MakeCollection(KindOf(geometryType), geoms.value));
      } else {
        return Err(ParseException);
      }
    }

    /** The geometry after a type with its flags. */
    method ReadTyped(typeInt: bv32) returns (r: Result<Geometry>)
      modifies this, dis
      ensures Yields(ParseTyped(typeInt, old(dis.bytes), old(dis.byteOrder)), r, dis.bytes, dis.byteOrder)
      decreases |dis.bytes|, 3
    {
      hide ParseBody, GetInt, WithSRID;
      var geometryType := typeInt & 0xff;
      var hasZ := typeInt & 0x8000_0000 != 0;
      if hasZ {
        inputDimension := 3;
      } else {
        inputDimension := 2;
      }
      var hasSRID := typeInt & 0x2000_0000 != 0;
      var srid: bv32 := 0;
      if hasSRID {
        var number := dis.ReadInt();
        if number.Err? {
          return Err(number.error);
        }
        srid := number.value;
      }
      if |ordValues| < inputDimension {
        ordValues := ordValues + seq(inputDimension - |ordValues|, _ => 0);
      }
      var body := ReadBody(geometryType);
      if body.Err? {
        return Err(body.error);
      }
      return Ok(WithSRID(body.value, srid));
    }

    method ReadGeometry() returns (r: Result<Geometry>)
      modifies this, dis
      ensures Yields(ParseGeometry(old(dis.bytes), old(dis.byteOrder)), r, dis.bytes, dis.byteOrder)
      decreases |dis.bytes|, 0
    {
      hide ParseTyped, GetInt;
      var mark := dis.ReadByte();
      if mark.Err? {
        return Err(mark.error);
      }
      if mark.value == NDR {
        dis.byteOrder := LITTLE;
      } else if mark.value == XDR {
        dis.byteOrder := BIG;
      }
      var typeInt := dis.ReadInt();
      if typeInt.Err? {
        return Err(typeInt.error);
      }
      r := ReadTyped(typeInt.value);
    }

    /** Reads one geometry from the beginning of the bytes. */
    method Read(bytes: seq<bv8>) returns (r: Result<Geometry>)
      modifies this, dis
      ensures Yields(ParseGeometry(bytes, old(dis.byteOrder)), r, dis.bytes, dis.byteOrder)
    {
      dis.bytes := bytes;
      r := ReadGeometry();
    }

    /** Reads one geometry from its hexadecimal form. */
    method ReadHEX(hex: string) returns (r: Result<Geometry>)
      modifies this, dis
      ensures match Decoding(hex)
              case BadHex => r == Err(ParseException)
              case Bytes(bytes) => Yields(ParseGeometry(bytes, old(dis.byteOrder)), r, dis.bytes, dis.byteOrder)
    {
      hide ParseGeometry, Decoding;
      var decoded := DecodeHEX(hex);
      match decoded
      case BadHex => return Err(ParseException);
      case Bytes(bytes) => r := Read(bytes);
    }
  }

  /** The hexadecimal form holds what the bytes hold. */
  lemma HexFormRoundTrip(g: Geometry, w: Settings, order: ByteOrder)
    requires (w.dimension == 2 || w.dimension == 3) && WellFormed(g) && Encodable(g)
    ensures Decoding(HexOf(Encode(g, w))) == Bytes(Encode(g, w))
    ensures ParseGeometry(Encode(g, w), order) == Parsed(ReadBack(g, w), [], w.order)
  {
    hide *;
    HexRoundTrip(Encode(g, w));
    RoundTrip(g, w, [], order);
    assert Encode(g, w) + [] == Encode(g, w);
  }

  /** Once reading a list fails it has failed. */
  lemma {:induction false} FailsOn(n: nat, k: nat, dim: int, bytes: seq<bv8>, order: ByteOrder)
    requires k <= n && ParseCoordinates(k, dim, bytes, order).Failed?
    ensures ParseCoordinates(n, dim, bytes, order) == ParseCoordinates(k, dim, bytes, order)
  {
    if k < n {
      FailsOn(n - 1, k, dim, bytes, order);
    }
  }

  lemma {:induction false} RingsFailOn(n: nat, k: nat, dim: int, bytes: seq<bv8>, order: ByteOrder)
    requires k <= n && ParseRings(k, dim, bytes, order).Failed?
    ensures ParseRings(n, dim, bytes, order) == ParseRings(k, dim, bytes, order)
  {
    hide ParseRing;
    if k < n {
      RingsFailOn(n - 1, k, dim, bytes, order);
    }
  }

  lemma {:induction false} GeometriesFailOn(n: nat, k: nat, kind: CollectionKind, bytes: seq<bv8>, order: ByteOrder)
    requires k <= n && ParseGeometries(k, kind, bytes, order).Failed?
    ensures ParseGeometries(n, kind, bytes, order) == ParseGeometries(k, kind, bytes, order)
  {
    hide ParseGeometry;
    if k < n {
      GeometriesFailOn(n - 1, k, kind, bytes, order);
    }
  }
}
