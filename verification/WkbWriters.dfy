/** Writing geometries in well-known binary form. */
module WkbWriters {
  import opened ByteOrderValues
  import opened WkbFormat
  import opened WkbHex
  import opened WkbRoundTrip

  class OutStream {
    var bytes: seq<bv8>

    constructor ()
      ensures bytes == []
    {
      bytes := [];
    }
  }

  lemma CoordinatesPush(cs: seq<Coordinate>, n: nat, dim: int, order: ByteOrder)
    requires n < |cs|
    ensures CoordinatesBytes(cs[..n + 1], dim, order) == CoordinatesBytes(cs[..n], dim, order) + CoordinateBytes(cs[n], dim, order)
  {
    assert cs[..n + 1][..n] == cs[..n];
  }

  lemma RingsPush(css: seq<CoordinateSequence>, n: nat, dim: int, order: ByteOrder)
    requires n < |css|
    ensures RingsBytes(css[..n + 1], dim, order) == RingsBytes(css[..n], dim, order) + SequenceBytes(css[n].coords, dim, order)
  {
    assert css[..n + 1][..n] == css[..n];
  }

  lemma EncodePush(gs: seq<Geometry>, n: nat, w: Settings)
    requires n < |gs| && forall i :: 0 <= i <= n ==> Encodable(gs[i])
    ensures EncodeAll(gs[..n + 1], w) == EncodeAll(gs[..n], w) + Encode(gs[n], w)
  {
    assert gs[..n + 1][..n] == gs[..n];
  }

  lemma SizedBytes(before: seq<bv8>, cs: seq<Coordinate>, dim: int, order: ByteOrder)
    ensures (before + IntBytes(ToInt32(|cs|), order)) + CoordinatesBytes(cs, dim, order) == before + SequenceBytes(cs, dim, order)
  {
  }

  class WKBWriter {
    var defaultOutputDimension: int
    var outputDimension: int
    var byteOrder: ByteOrder
    var includeSRID: bool
    const buf: array<bv8>

    ghost predicate Valid()
      reads this
    {
      2 <= defaultOutputDimension <= 3 && buf.Length == 8
    }

    ghost function Current(): Settings
      reads this`defaultOutputDimension, this`byteOrder, this`includeSRID
    {
      Settings(defaultOutputDimension, byteOrder, includeSRID)
    }

    constructor (dims: int, bo: ByteOrder, srid: bool)
      requires 2 <= dims <= 3
      ensures Valid() && fresh(buf) && Current() == Settings(dims, bo, srid)
    {
      defaultOutputDimension, outputDimension, byteOrder, includeSRID := dims, dims, bo, srid;
      buf := new bv8[8];
    }

    method SetOutputDimension(dims: int) returns (ok: bool)
      requires Valid()
      modifies this`defaultOutputDimension
      ensures Valid() && ok == (2 <= dims <= 3)
      ensures defaultOutputDimension == if ok then dims else old(defaultOutputDimension)
    {
      if dims < 2 || dims > 3 {
        return false;
      }
      defaultOutputDimension := dims;
      return true;
    }

    method WriteByteOrder(os: OutStream)
      requires Valid()
      modifies buf, os
      ensures os.bytes == old(os.bytes) + [if byteOrder == LITTLE then NDR else XDR]
    {
      if byteOrder == LITTLE {
        buf[0] := NDR;
      } else {
        buf[0] := XDR;
      }
      os.bytes := os.bytes + buf[..1];
    }

    method WriteInt(val: bv32, os: OutStream)
      requires Valid()
      modifies buf, os
      ensures os.bytes == old(os.bytes) + IntBytes(val, byteOrder)
    {
      PutInt(val, buf, byteOrder);
      os.bytes := os.bytes + buf[..4];
    }

    method WriteDouble(val: bv64, os: OutStream)
      requires Valid()
      modifies buf, os
      ensures os.bytes == old(os.bytes) + LongBytes(val, byteOrder)
    {
      PutLong(val, buf, byteOrder);
      os.bytes := os.bytes + buf[..8];
    }

    method WriteGeometryType(typeId: bv32, srid: bv32, os: OutStream)
      requires Valid()
      modifies buf, os
      ensures os.bytes == old(os.bytes) + IntBytes(TypeWord(typeId, outputDimension, srid, includeSRID), byteOrder)
    {
      hide TypeWord, IntBytes;
      WriteInt(TypeWord(typeId, outputDimension, srid, includeSRID), os);
    }

    method WriteSRID(srid: bv32, os: OutStream)
      requires Valid()
      modifies buf, os
      ensures os.bytes == old(os.bytes) + if includeSRID && srid != 0 then IntBytes(srid, byteOrder) else []
    {
      if includeSRID && srid != 0 {
        WriteInt(srid, os);
      }
    }

    method WriteCoordinate(c: Coordinate, is3d: bool, os: OutStream)
      requires Valid()
      modifies buf, os
      ensures os.bytes == old(os.bytes) + CoordinateBytes(c, if is3d then 3 else 2, byteOrder)
    {
      hide LongBytes;
      WriteDouble(c.x, os);
      WriteDouble(c.y, os);
      if is3d {
        WriteDouble(c.z, os);
      }
    }

    method WriteCoordinateSequence(cs: CoordinateSequence, sized: bool, os: OutStream)
      requires Valid() && 2 <= outputDimension <= 3
      modifies buf, os
      ensures os.bytes == old(os.bytes) + if sized then SequenceBytes(cs.coords, outputDimension, byteOrder)
                                          else CoordinatesBytes(cs.coords, outputDimension, byteOrder)
    {
      hide *;
      var size := |cs.coords|;
      var is3d := false;
      if outputDimension > 2 {
        is3d := true;
      }
      if sized {
        WriteInt(ToInt32(size), os);
      }
      WriteCoordinates(cs.coords, is3d, os);
      SizedBytes(old(os.bytes), cs.coords, outputDimension, byteOrder);
    }

    method WriteCoordinates(cs: seq<Coordinate>, is3d: bool, os: OutStream)
      requires Valid() && outputDimension == if is3d then 3 else 2
      modifies buf, os
      ensures os.bytes == old(os.bytes) + CoordinatesBytes(cs, outputDimension, byteOrder)
    {
      hide CoordinateBytes;
      var i := 0;
      while i < |cs|
        invariant 0 <= i <= |cs|
        invariant os.bytes == old(os.bytes) + CoordinatesBytes(cs[..i], outputDimension, byteOrder)
      {
        CoordinatesPush(cs, i, outputDimension, byteOrder);
        WriteCoordinate(cs[i], is3d, os);
        i := i + 1;
      }
      assert cs[..i] == cs;
    }

    /** The byte order mark, the type with its flags, and the SRID if it is included. */
    method WriteHeader(g: Geometry, os: OutStream)
      requires Valid() && outputDimension == OutputDimension(g, Current())
      modifies buf, os
      ensures os.bytes == old(os.bytes) + Header(g, Current())
    {
      hide IntBytes, TypeWord;
      WriteByteOrder(os);
      WriteGeometryType(TypeId(g), g.srid, os);
      WriteSRID(g.srid, os);
    }

    method WritePolygonBody(shell: CoordinateSequence, holes: seq<CoordinateSequence>, os: OutStream)
      requires Valid() && 2 <= outputDimension <= 3
      modifies buf, os
      ensures os.bytes == old(os.bytes) + PolygonBytes(shell, holes, outputDimension, byteOrder)
    {
      hide IntBytes, SequenceBytes, ToInt32;
      if shell.coords == [] {
        WriteInt(ToInt32(0), os);
        return;
      }
      var nholes := |holes|;
      WriteInt(ToInt32(nholes + 1), os);
      WriteCoordinateSequence(shell, true, os);
      WriteRings(holes, os);
    }

    method WriteRings(css: seq<CoordinateSequence>, os: OutStream)
      requires Valid() && 2 <= outputDimension <= 3
      modifies buf, os
      ensures os.bytes == old(os.bytes) + RingsBytes(css, outputDimension, byteOrder)
    {
      hide SequenceBytes;
      var i := 0;
      while i < |css|
        invariant 0 <= i <= |css|
        invariant os.bytes == old(os.bytes) + RingsBytes(css[..i], outputDimension, byteOrder)
      {
        RingsPush(css, i, outputDimension, byteOrder);
        WriteCoordinateSequence(css[i], true, os);
        i := i + 1;
      }
      assert css[..i] == css;
    }

    method WritePoint(g: Geometry, os: OutStream) returns (ok: bool)
      requires Valid() && g.Point? && WellFormed(g) && SetFor(g)
      modifies buf, os
      ensures ok == Encodable(g) && old(os.bytes) <= os.bytes
      ensures ok ==> os.bytes == old(os.bytes) + Header(g, Current()) + Body(g, Current())
    {
      if g.points.coords == [] {
        return false;
      }
      OnePoint(g);
      hide Header, CoordinateBytes, CoordinatesBytes, WellFormed, OutputDimension;
      WriteHeader(g, os);
      WriteCoordinateSequence(g.points, false, os);
      return true;
    }

    method WriteLineString(g: Geometry, os: OutStream)
      requires Valid() && (g.LineString? || g.LinearRing?) && SetFor(g)
      modifies buf, os
      ensures os.bytes == old(os.bytes) + Header(g, Current()) + Body(g, Current())
    {
      hide Header, SequenceBytes, OutputDimension;
      WriteHeader(g, os);
      WriteCoordinateSequence(g.points, true, os);
    }

    method WritePolygon(g: Geometry, os: OutStream)
      requires Valid() && g.Polygon? && SetFor(g)
      modifies buf, os
      ensures os.bytes == old(os.bytes) + Header(g, Current()) + Body(g, Current())
    {
      hide Header, PolygonBytes, OutputDimension;
      WriteHeader(g, os);
      WritePolygonBody(g.shell, g.holes, os);
      PolygonBody(g, Current());
    }

    method WriteGeometryCollection(g: Geometry, os: OutStream) returns (ok: bool)
      requires Valid() && g.Collection? && WellFormed(g) && SetFor(g)
      modifies this`outputDimension, buf, os
      ensures ok == Encodable(g) && old(os.bytes) <= os.bytes
      ensures ok ==> os.bytes == old(os.bytes) + Header(g, Current()) + Body(g, Current())
      decreases g, 1
    {
      MembersWellFormed(g);
      CollectionBody(g, Current());
      hide *;
      WriteHeader(g, os);
      ghost var after := os.bytes;
      ok := WriteMembers(g.geometries, os);
      assert old(os.bytes) <= after;
      if ok {
        JoinThree(after, IntBytes(ToInt32(|g.geometries|), byteOrder), EncodeAll(g.geometries, Current()));
      }
    }

    /** The output dimension is that for writing g. */
    ghost predicate SetFor(g: Geometry)
      reads this
    {
      outputDimension == OutputDimension(g, Current()) && 2 <= outputDimension <= 3
    }

    /** Writes the geometry; fails, having written a part, if there is an empty point in it. */
    method Write(g: Geometry, os: OutStream) returns (ok: bool)
      requires Valid() && WellFormed(g)
      modifies this`outputDimension, buf, os
      ensures ok == Encodable(g) && old(os.bytes) <= os.bytes
      ensures ok ==> os.bytes == old(os.bytes) + Encode(g, Current())
      decreases g, 2
    {
      outputDimension := defaultOutputDimension;
      if outputDimension > CoordinateDimension(g) {
        outputDimension := CoordinateDimension(g);
      }
      OutputDimensionRange(g, Current());
      hide Header, Body, Encode, WellFormed, OutputDimension;
      ok := true;
      match g {
        case Point(_, _) => ok := WritePoint(g, os);
        case LineString(_, _) => WriteLineString(g, os);
        case LinearRing(_, _) => WriteLineString(g, os);
        case Polygon(_, _, _) => WritePolygon(g, os);
        case Collection(_, _, _) => ok := WriteGeometryCollection(g, os);
      }
      if ok {
        EncodeIsHeaderAndBody(g, Current());
        JoinThree(old(os.bytes), Header(g, Current()), Body(g, Current()));
      }
    }

    /** The hexadecimal form of the bytes. */
    method WriteHEX(g: Geometry) returns (ok: bool, hex: string)
      requires Valid() && WellFormed(g)
      modifies this`outputDimension, buf
      ensures ok == Encodable(g) && (ok ==> hex == HexOf(Encode(g, Current())))
    {
      hide Encodable, WellFormed, Encode;
      var stream := new OutStream();
      ok := Write(g, stream);
      hex := [];
      if ok {
        assert stream.bytes == Encode(g, Current());
        hex := PrintHEX(stream.bytes);
      }
    }

    method WriteMembers(gs: seq<Geometry>, os: OutStream) returns (ok: bool)
      requires Valid() && forall i :: 0 <= i < |gs| ==> WellFormed(gs[i])
      modifies this`outputDimension, buf, os
      ensures ok == (forall i :: 0 <= i < |gs| ==> Encodable(gs[i])) && old(os.bytes) <= os.bytes
      ensures ok ==> os.bytes == old(os.bytes) + IntBytes(ToInt32(|gs|), byteOrder) + EncodeAll(gs, Current())
      decreases gs, 3
    {
      hide Encode, IntBytes, WellFormed, Encodable, ToInt32;
      var ngeoms := |gs|;
      WriteInt(ToInt32(ngeoms), os);
      ghost var before := os.bytes;
      var i := 0;
      while i < ngeoms
        invariant 0 <= i <= ngeoms && forall k :: 0 <= k < i ==> Encodable(gs[k])
        invariant os.bytes == before + EncodeAll(gs[..i], Current())
      {
        ok := Write(gs[i], os);
        if !ok {
          return;
        }
        EncodePush(gs, i, Current());
        i := i + 1;
      }
      assert gs[..i] == gs;
      return true;
    }
  }

  ghost function PolygonBytes(shell: CoordinateSequence, holes: seq<CoordinateSequence>, dim: int, order: ByteOrder): seq<bv8> {
    if shell.coords == [] then IntBytes(ToInt32(0), order)
    else IntBytes(ToInt32(|holes| + 1), order) + SequenceBytes(shell.coords, dim, order) + RingsBytes(holes, dim, order)
  }

  lemma PolygonBody(g: Geometry, w: Settings)
    requires g.Polygon?
    ensures Body(g, w) == PolygonBytes(g.shell, g.holes, OutputDimension(g, w), w.order)
  {
  }

  lemma CollectionBody(g: Geometry, w: Settings)
    requires g.Collection?
    ensures Encodable(g) <==> forall i :: 0 <= i < |g.geometries| ==> Encodable(g.geometries[i])
    ensures Encodable(g) ==> Body(g, w) == IntBytes(ToInt32(|g.geometries|), w.order) + EncodeAll(g.geometries, w)
  {
  }

  lemma MembersWellFormed(g: Geometry)
    requires g.Collection? && WellFormed(g)
    ensures forall i :: 0 <= i < |g.geometries| ==> WellFormed(g.geometries[i])
  {
  }

  lemma OnePoint(g: Geometry)
    requires g.Point? && WellFormed(g) && g.points.coords != []
    ensures forall dim, order :: CoordinatesBytes(g.points.coords, dim, order) == CoordinateBytes(g.points.coords[0], dim, order)
  {
    hide CoordinateBytes;
    var cs := g.points.coords;
    forall dim, order
      ensures CoordinatesBytes(cs, dim, order) == CoordinateBytes(cs[0], dim, order)
    {
      assert CoordinatesBytes(cs[..0], dim, order) == [];
    }
  }
}
