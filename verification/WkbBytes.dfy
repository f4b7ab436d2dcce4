/** The bytes of the well-known binary form, one by one. */
module WkbBytes {
  import opened ByteOrderValues
  import opened WkbFormat
  import opened WkbRoundTrip

  // ---------- numbers ----------

  /** Digits to the base 256, the highest first. */
  function Base256(b3: bv8, b2: bv8, b1: bv8, b0: bv8): bv32 {
    ((b3 as bv32 * 0x100 + b2 as bv32) * 0x100 + b1 as bv32) * 0x100 + b0 as bv32
  }

  function LongBase256(b7: bv8, b6: bv8, b5: bv8, b4: bv8, b3: bv8, b2: bv8, b1: bv8, b0: bv8): bv64 {
    (((((((b7 as bv64 * 0x100 + b6 as bv64) * 0x100 + b5 as bv64) * 0x100 + b4 as bv64) * 0x100
        + b3 as bv64) * 0x100 + b2 as bv64) * 0x100 + b1 as bv64) * 0x100 + b0 as bv64)
  }

  /** The number whose digits are the four bytes from place i on. */
  function Number(b: seq<bv8>, i: nat): bv32
    requires i + 4 <= |b|
  {
    Base256(b[i], b[i + 1], b[i + 2], b[i + 3])
  }

  function LongNumber(b: seq<bv8>, i: nat): bv64
    requires i + 8 <= |b|
  {
    LongBase256(b[i], b[i + 1], b[i + 2], b[i + 3], b[i + 4], b[i + 5], b[i + 6], b[i + 7])
  }

  /** Four bytes from place i on, the other way round. */
  function Back(b: seq<bv8>, i: nat): seq<bv8>
    requires i + 4 <= |b|
  {
    [b[i + 3], b[i + 2], b[i + 1], b[i]]
  }

  function LongBack(b: seq<bv8>, i: nat): seq<bv8>
    requires i + 8 <= |b|
  {
    [b[i + 7], b[i + 6], b[i + 5], b[i + 4], b[i + 3], b[i + 2], b[i + 1], b[i]]
  }

  lemma WordIsNumber(b3: bv8, b2: bv8, b1: bv8, b0: bv8)
    ensures Word(b3, b2, b1, b0) == Base256(b3, b2, b1, b0)
  {
  }

  lemma LongWordIsNumber(b7: bv8, b6: bv8, b5: bv8, b4: bv8, b3: bv8, b2: bv8, b1: bv8, b0: bv8)
    ensures LongWord(b7, b6, b5, b4, b3, b2, b1, b0) == LongBase256(b7, b6, b5, b4, b3, b2, b1, b0)
  {
  }

  /** Big-endian, the highest digit to the base 256 comes first; little-endian, last. */
  lemma IntDigits(v: bv32, buf: seq<bv8>)
    requires |buf| >= 4
    ensures Number(IntBytes(v, BIG), 0) == v && IntBytes(v, LITTLE) == Back(IntBytes(v, BIG), 0)
    ensures GetInt(buf, BIG) == Number(buf, 0) && GetInt(buf, LITTLE) == Number(Back(buf, 0), 0)
  {
    hide Word, Byte, Base256;
    WordOfBytes(v);
    WordIsNumber(Byte(v, 24), Byte(v, 16), Byte(v, 8), Byte(v, 0));
    WordIsNumber(buf[0], buf[1], buf[2], buf[3]);
    WordIsNumber(buf[3], buf[2], buf[1], buf[0]);
  }

  lemma LongDigits(v: bv64, buf: seq<bv8>)
    requires |buf| >= 8
    ensures LongNumber(LongBytes(v, BIG), 0) == v && LongBytes(v, LITTLE) == LongBack(LongBytes(v, BIG), 0)
    ensures GetLong(buf, BIG) == LongNumber(buf, 0) && GetLong(buf, LITTLE) == LongNumber(LongBack(buf, 0), 0)
  {
    hide LongWord, LongByte, LongBase256;
    LongWordOfBytes(v);
    LongWordIsNumber(LongByte(v, 56), LongByte(v, 48), LongByte(v, 40), LongByte(v, 32),
                     LongByte(v, 24), LongByte(v, 16), LongByte(v, 8), LongByte(v, 0));
    LongWordIsNumber(buf[0], buf[1], buf[2], buf[3], buf[4], buf[5], buf[6], buf[7]);
    LongWordIsNumber(buf[7], buf[6], buf[5], buf[4], buf[3], buf[2], buf[1], buf[0]);
  }

  /** The NaNs: all exponent bits set, and a fraction that is not zero. */
  lemma NaNPatterns(v: bv64)
    ensures IsNaN(v) <==> v / 0x10_0000_0000_0000 % 0x800 == 0x7ff && v % 0x10_0000_0000_0000 != 0
    ensures IsNaN(NAN) && NAN == 0x7ff8_0000_0000_0000 && EqualDoubles(0, 0x8000_0000_0000_0000)
  {
  }

  // ---------- what is written ----------

  /** The code of the geometry's type is 1 for points, 2 for line strings and rings, 3 for polygons, and 4 to 7 for
      collections. */
  ghost predicate IsOfType(g: Geometry, code: bv8) {
    && (g.Point? <==> code == 1)
    && (g.LineString? || g.LinearRing? <==> code == 2)
    && (g.Polygon? <==> code == 3)
    && (g.Collection? && g.kind == MULTI_POINT <==> code == 4)
    && (g.Collection? && g.kind == MULTI_LINE_STRING <==> code == 5)
    && (g.Collection? && g.kind == MULTI_POLYGON <==> code == 6)
    && (g.Collection? && g.kind == GEOMETRY_COLLECTION <==> code == 7)
  }

  /** The highest byte of the type: 0x80 for three dimensions, 0x20 for an SRID that follows. */
  ghost function Flags(g: Geometry, w: Settings): bv8 {
    (if OutputDimension(g, w) == 3 then 0x80 else 0) + if w.includeSRID && g.srid != 0 then 0x20 else 0
  }

  lemma TypeWordBytes(code: bv8, dim: int, srid: bv32, includeSRID: bool)
    requires 1 <= code <= 7
    ensures var v := TypeWord(code as bv32, dim, srid, includeSRID);
            && Byte(v, 24) == (if dim == 3 then 0x80 else 0) + (if includeSRID && srid != 0 then 0x20 else 0)
            && Byte(v, 16) == 0 && Byte(v, 8) == 0 && Byte(v, 0) == code
  {
  }

  lemma TypeCode(g: Geometry, code: bv8)
    requires IsOfType(g, code)
    ensures 1 <= code <= 7 && TypeId(g) == code as bv32
  {
  }

  /** The first five bytes: the mark of the byte order, 1 for little-endian and 0 for big-endian, and the type. */
  lemma WrittenPrefix(g: Geometry, w: Settings, code: bv8)
    requires Encodable(g) && IsOfType(g, code)
    ensures |Encode(g, w)| >= 5
    ensures w.order == BIG ==> Encode(g, w)[..5] == [0, Flags(g, w), 0, 0, code]
    ensures w.order == LITTLE ==> Encode(g, w)[..5] == [1, code, 0, 0, Flags(g, w)]
  {
    hide Byte, TypeWord, OutputDimension, TypeId, Body, Encode, IsOfType;
    EncodeIsHeaderAndBody(g, w);
    TypeCode(g, code);
    TypeWordBytes(code, OutputDimension(g, w), g.srid, w.includeSRID);
  }

  /** The body of a written geometry comes after the type, and after the SRID if there is one. */
  ghost function BodyAt(g: Geometry, w: Settings): nat {
    if w.includeSRID && g.srid != 0 then 9 else 5
  }

  /** What comes first in the body is the number of coordinates, rings or members; zero rings are an empty polygon. */
  ghost function CountOf(g: Geometry): nat {
    match g
    case Point(_, points) => 1
    case LineString(_, points) => |points.coords|
    case LinearRing(_, points) => |points.coords|
    case Polygon(_, shell, holes) => if shell.coords == [] then 0 else 1 + |holes|
    case Collection(_, _, geometries) => |geometries|
  }

  function Count(b3: bv8, b2: bv8, b1: bv8, b0: bv8): int {
    ((b3 as int * 0x100 + b2 as int) * 0x100 + b1 as int) * 0x100 + b0 as int
  }

  lemma CountBytes(n: nat)
    requires n <= MAX_COUNT
    ensures var b := IntBytes(ToInt32(n), BIG);
            n == Count(b[0], b[1], b[2], b[3])
  {
    hide Byte, Word;
    BytesOfWord((n / 0x100_0000 % 0x100) as bv8, (n / 0x1_0000 % 0x100) as bv8, (n / 0x100 % 0x100) as bv8, (n % 0x100) as bv8);
    DigitAsByte(n / 0x100_0000 % 0x100);
    DigitAsByte(n / 0x1_0000 % 0x100);
    DigitAsByte(n / 0x100 % 0x100);
    DigitAsByte(n % 0x100);
    Digits(n);
  }

  /** The four bytes from place i on stand for n. */
  ghost predicate CountAt(b: seq<bv8>, i: nat, order: ByteOrder, n: nat) {
    && i + 4 <= |b|
    && n == if order == BIG then Count(b[i], b[i + 1], b[i + 2], b[i + 3]) else Count(b[i + 3], b[i + 2], b[i + 1], b[i])
  }

  lemma HeaderLength(g: Geometry, w: Settings)
    ensures |Header(g, w)| == BodyAt(g, w)
  {
    hide IntBytes, OutputDimension;
  }

  lemma CountComesFirst(g: Geometry, w: Settings)
    requires Encodable(g) && !g.Point?
    ensures |Body(g, w)| >= 4 && Body(g, w)[..4] == IntBytes(ToInt32(CountOf(g)), w.order)
  {
    hide IntBytes, ToInt32, OutputDimension, RingsBytes, CoordinatesBytes, EncodeAll;
  }

  lemma CountInOrder(b: seq<bv8>, n: nat, order: ByteOrder)
    requires n <= MAX_COUNT && |b| >= 4 && b[..4] == IntBytes(ToInt32(n), order)
    ensures CountAt(b, 0, order, n)
  {
    hide Byte, ToInt32, Count;
    CountBytes(n);
    var big := IntBytes(ToInt32(n), BIG);
    assert IntBytes(ToInt32(n), LITTLE) == [big[3], big[2], big[1], big[0]];
    assert b[..4][0] == b[0] && b[..4][1] == b[1] && b[..4][2] == b[2] && b[..4][3] == b[3];
  }

  lemma CountShifted(front: seq<bv8>, b: seq<bv8>, order: ByteOrder, n: nat)
    requires CountAt(b, 0, order, n)
    ensures CountAt(front + b, |front|, order, n)
  {
    hide Count;
    var i := |front|;
    assert (front + b)[i] == b[0] && (front + b)[i + 1] == b[1] && (front + b)[i + 2] == b[2] && (front + b)[i + 3] == b[3];
  }

  lemma WrittenCount(g: Geometry, w: Settings)
    requires WellFormed(g) && Encodable(g) && !g.Point?
    ensures CountAt(Encode(g, w), BodyAt(g, w), w.order, CountOf(g))
  {
    CountInRange(g);
    hide Header, Body, Encode, IntBytes, ToInt32, CountOf, CountAt, WellFormed;
    EncodeIsHeaderAndBody(g, w);
    HeaderLength(g, w);
    CountComesFirst(g, w);
    CountInOrder(Body(g, w), CountOf(g), w.order);
    CountShifted(Header(g, w), Body(g, w), w.order, CountOf(g));
  }

  lemma CountInRange(g: Geometry)
    requires WellFormed(g)
    ensures CountOf(g) <= MAX_COUNT
  {
  }

  /** A point in the plane, big-endian: x before y. */
  lemma WrittenPoint(x: bv64, y: bv64)
    ensures var g, w := Point(0, CoordinateSequence(2, [Coordinate(x, y, NAN)])), Settings(2, BIG, false);
            var b := Encode(g, w);
            |b| == 21 && b[..5] == [0, 0, 0, 0, 1] && LongNumber(b, 5) == x && LongNumber(b, 13) == y
  {
    var g, w := Point(0, CoordinateSequence(2, [Coordinate(x, y, NAN)])), Settings(2, BIG, false);
    WrittenPrefix(g, w, 1);
    hide LongBytes, Byte, TypeWord;
    EncodeIsHeaderAndBody(g, w);
    HeaderLength(g, w);
    assert Encode(g, w) == Header(g, w) + LongBytes(x, BIG) + LongBytes(y, BIG);
    LongDigits(x, LongBytes(x, BIG));
    LongDigits(y, LongBytes(y, BIG));
    NumberAt(Header(g, w), LongBytes(x, BIG), LongBytes(y, BIG));
  }

  /** The shell comes first: after the number of rings its number of points. */
  lemma WrittenShell(g: Geometry, w: Settings)
    requires WellFormed(g) && g.Polygon? && g.shell.coords != []
    ensures CountAt(Encode(g, w), BodyAt(g, w) + 4, w.order, |g.shell.coords|)
  {
    hide Header, Encode, IntBytes, ToInt32, CountAt, OutputDimension, RingsBytes, CoordinatesBytes, ValidRing;
    EncodeIsHeaderAndBody(g, w);
    HeaderLength(g, w);
    var n, dim := |g.shell.coords|, OutputDimension(g, w);
    var front := Header(g, w) + IntBytes(ToInt32(|g.holes| + 1), w.order);
    var left := SequenceBytes(g.shell.coords, dim, w.order) + RingsBytes(g.holes, dim, w.order);
    assert Encode(g, w) == front + left;
    assert left[..4] == IntBytes(ToInt32(n), w.order);
    CountInOrder(left, n, w.order);
    CountShifted(front, left, w.order, n);
  }

  // ---------- lists are written in order ----------

  /** A coordinate is written as x, y and, if there are three dimensions, z. */
  lemma OneCoordinate(c: Coordinate, dim: int, order: ByteOrder)
    ensures CoordinatesBytes([c], dim, order) == LongBytes(c.x, order) + LongBytes(c.y, order) + if dim > 2 then LongBytes(c.z, order) else []
  {
    hide LongBytes;
    assert [c][..0] == [];
  }

  lemma {:induction false} CoordinatesJoin(a: seq<Coordinate>, b: seq<Coordinate>, dim: int, order: ByteOrder)
    ensures CoordinatesBytes(a + b, dim, order) == CoordinatesBytes(a, dim, order) + CoordinatesBytes(b, dim, order)
  {
    hide CoordinateBytes;
    if b == [] {
      assert a + b == a;
    } else {
      assert (a + b)[..|a + b| - 1] == a + b[..|b| - 1];
      CoordinatesJoin(a, b[..|b| - 1], dim, order);
    }
  }

  lemma {:induction false} RingsJoin(a: seq<CoordinateSequence>, b: seq<CoordinateSequence>, dim: int, order: ByteOrder)
    ensures RingsBytes(a + b, dim, order) == RingsBytes(a, dim, order) + RingsBytes(b, dim, order)
  {
    hide SequenceBytes;
    if b == [] {
      assert a + b == a;
    } else {
      assert (a + b)[..|a + b| - 1] == a + b[..|b| - 1];
      RingsJoin(a, b[..|b| - 1], dim, order);
    }
  }

  lemma {:induction false} MembersJoin(a: seq<Geometry>, b: seq<Geometry>, w: Settings)
    requires forall g :: g in a + b ==> Encodable(g)
    ensures EncodeAll(a + b, w) == EncodeAll(a, w) + EncodeAll(b, w)
  {
    hide Encode, Encodable;
    if b == [] {
      assert a + b == a;
    } else {
      assert (a + b)[..|a + b| - 1] == a + b[..|b| - 1];
      MembersJoin(a, b[..|b| - 1], w);
    }
  }

  lemma NumberAt(a: seq<bv8>, b: seq<bv8>, c: seq<bv8>)
    requires |a| == 5 && |b| == |c| == 8
    ensures LongNumber(a + b + c, 5) == LongNumber(b, 0) && LongNumber(a + b + c, 13) == LongNumber(c, 0)
  {
  }

  // ---------- what is read ----------

  /** The type found by its last byte alone, whatever the two middle bytes are. */
  lemma TypeWordOf(f: bv8, a: bv8, b: bv8, code: bv8)
    ensures var v := Word(f, a, b, code);
            && v & 0xff == code as bv32
            && (v & 0x8000_0000 != 0 <==> f >= 0x80)
            && (v & 0x2000_0000 != 0 <==> f / 0x20 % 2 == 1)
  {
  }

  lemma PrefixRest(p: seq<bv8>, rest: seq<bv8>)
    requires |p| == 5
    ensures (p + rest)[0] == p[0] && (p + rest)[1..] == p[1..] + rest && (p[1..] + rest)[4..] == rest
  {
  }

  lemma BodyType(code: bv8, dim: int, bytes: seq<bv8>, order: ByteOrder)
    ensures var r := ParseBody(code as bv32, dim, bytes, order);
            && (r.Parsed? ==> IsOfType(r.value, code))
            && (code == 0 || code > 7 ==> r == Failed(ParseException))
  {
    hide ParseCoordinate, ParseSequence, ParseRing, ParseRings, ParseGeometries, Signed, ParseInt;
  }

  /** What a type asks for that is made of these bytes. */
  lemma TypedBytes(f: bv8, a: bv8, b: bv8, code: bv8, rest: seq<bv8>, order: ByteOrder)
    ensures var r := ParseTyped(Word(f, a, b, code), rest, order);
            && (r.Parsed? ==> IsOfType(r.value, code))
            && (code == 0 || code > 7 ==> r == Failed(ParseException))
            && (f < 0x20 ==> r == Numbered(ParseBody(code as bv32, 2, rest, order), 0))
            && (0x80 <= f < 0xa0 ==> r == Numbered(ParseBody(code as bv32, 3, rest, order), 0))
  {
    hide ParseBody, Word, IsOfType, GetInt;
    TypeWordOf(f, a, b, code);
    var dim := if f >= 0x80 then 3 else 2;
    BodyType(code, dim, rest, order);
    if |rest| >= 4 {
      BodyType(code, dim, rest[4..], order);
    }
    NumberedType(ParseBody(code as bv32, dim, rest, order), 0, code);
    if |rest| >= 4 {
      NumberedType(ParseBody(code as bv32, dim, rest[4..], order), GetInt(rest, order), code);
    }
  }

  lemma NumberedType(p: Parsed<Geometry>, srid: bv32, code: bv8)
    requires p.Parsed? ==> IsOfType(p.value, code)
    ensures Numbered(p, srid).Parsed? ==> IsOfType(Numbered(p, srid).value, code)
  {
  }

  /** Big-endian after a 0, little-endian after a 1: the code in the lowest byte alone says what is read, and an unknown
      code is refused. */
  lemma ReadPrefix(f: bv8, a: bv8, b: bv8, code: bv8, rest: seq<bv8>, order: ByteOrder, little: bool)
    ensures var prefix: seq<bv8> := if little then [1, code, b, a, f] else [0, f, a, b, code];
            var r := ParseGeometry(prefix + rest, order);
            && (r.Parsed? ==> IsOfType(r.value, code))
            && (code == 0 || code > 7 ==> r == Failed(ParseException))
            && (f < 0x20 ==> r == Numbered(ParseBody(code as bv32, 2, rest, if little then LITTLE else BIG), 0))
            && (0x80 <= f < 0xa0 ==> r == Numbered(ParseBody(code as bv32, 3, rest, if little then LITTLE else BIG), 0))
  {
    hide ParseBody, ParseTyped, Word, IsOfType, Numbered;
    var prefix: seq<bv8> := if little then [1, code, b, a, f] else [0, f, a, b, code];
    PrefixRest(prefix, rest);
    TypedBytes(f, a, b, code, rest, if little then LITTLE else BIG);
  }
}
