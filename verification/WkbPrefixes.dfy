/** Reading takes no notice of what comes after a geometry, and refuses a geometry that is cut short. */
module WkbPrefixes {
  import opened ByteOrderValues
  import opened WkbFormat
  import opened WkbRoundTrip

  /** Whatever p reads q reads as well, and leaves the further bytes. */
  ghost predicate Extends<T>(p: Parsed<T>, q: Parsed<T>, more: seq<bv8>) {
    p.Parsed? ==> q == Parsed(p.value, p.rest + more, p.order)
  }

  lemma IntExtends(bytes: seq<bv8>, order: ByteOrder, more: seq<bv8>)
    ensures Extends(ParseInt(bytes, order), ParseInt(bytes + more, order), more)
  {
    hide Word;
    if |bytes| >= 4 {
      assert (bytes + more)[4..] == bytes[4..] + more;
    }
  }

  lemma DoubleExtends(bytes: seq<bv8>, order: ByteOrder, more: seq<bv8>)
    ensures Extends(ParseDouble(bytes, order), ParseDouble(bytes + more, order), more)
  {
    hide LongWord;
    if |bytes| >= 8 {
      assert (bytes + more)[8..] == bytes[8..] + more;
    }
  }

  lemma CoordinateExtends(dim: int, bytes: seq<bv8>, order: ByteOrder, more: seq<bv8>)
    ensures Extends(ParseCoordinate(dim, bytes, order), ParseCoordinate(dim, bytes + more, order), more)
  {
    hide ParseDouble;
    DoubleExtends(bytes, order, more);
    var x := ParseDouble(bytes, order);
    if x.Parsed? {
      DoubleExtends(x.rest, order, more);
      var y := ParseDouble(x.rest, order);
      if y.Parsed? {
        DoubleExtends(y.rest, order, more);
      }
    }
  }

  lemma {:induction false} CoordinatesExtend(n: nat, dim: int, bytes: seq<bv8>, order: ByteOrder, more: seq<bv8>)
    ensures Extends(ParseCoordinates(n, dim, bytes, order), ParseCoordinates(n, dim, bytes + more, order), more)
  {
    hide ParseCoordinate;
    if n > 0 {
      CoordinatesExtend(n - 1, dim, bytes, order, more);
      var front := ParseCoordinates(n - 1, dim, bytes, order);
      if front.Parsed? {
        CoordinateExtends(dim, front.rest, order, more);
      }
    }
  }

  lemma SequenceExtends(dim: int, bytes: seq<bv8>, order: ByteOrder, more: seq<bv8>)
    ensures Extends(ParseSequence(dim, bytes, order), ParseSequence(dim, bytes + more, order), more)
  {
    hide ParseInt, ParseCoordinates, Signed;
    IntExtends(bytes, order, more);
    var size := ParseInt(bytes, order);
    if size.Parsed? && Signed(size.value) >= 0 {
      CoordinatesExtend(Signed(size.value), dim, size.rest, order, more);
    }
  }

  lemma RingExtends(dim: int, bytes: seq<bv8>, order: ByteOrder, more: seq<bv8>)
    ensures Extends(ParseRing(dim, bytes, order), ParseRing(dim, bytes + more, order), more)
  {
    hide ParseSequence, ValidRing;
    SequenceExtends(dim, bytes, order, more);
  }

  lemma {:induction false} RingsExtend(n: nat, dim: int, bytes: seq<bv8>, order: ByteOrder, more: seq<bv8>)
    ensures Extends(ParseRings(n, dim, bytes, order), ParseRings(n, dim, bytes + more, order), more)
  {
    hide ParseRing;
    if n > 0 {
      RingsExtend(n - 1, dim, bytes, order, more);
      var front := ParseRings(n - 1, dim, bytes, order);
      if front.Parsed? {
        RingExtends(dim, front.rest, order, more);
      }
    }
  }

  lemma PolygonExtends(dim: int, bytes: seq<bv8>, order: ByteOrder, more: seq<bv8>)
    ensures Extends(ParsePolygon(dim, bytes, order), ParsePolygon(dim, bytes + more, order), more)
  {
    hide ParseInt, ParseRing, ParseRings, HasNonEmpty, Signed;
    IntExtends(bytes, order, more);
    var count := ParseInt(bytes, order);
    if count.Parsed? && Signed(count.value) > 0 {
      RingExtends(dim, count.rest, order, more);
      var shell := ParseRing(dim, count.rest, order);
      if shell.Parsed? {
        RingsExtend(Signed(count.value) - 1, dim, shell.rest, order, more);
      }
    }
  }

  lemma {:induction false} BodyExtends(geometryType: bv32, dim: int, bytes: seq<bv8>, order: ByteOrder, more: seq<bv8>)
    ensures Extends(ParseBody(geometryType, dim, bytes, order), ParseBody(geometryType, dim, bytes + more, order), more)
    decreases |bytes|, 2, 0
  {
    hide ParseInt, ParseCoordinate, ParseSequence, ParsePolygon, ParseGeometries, Signed, MakeCollection, MakePoint, KindOf;
    if geometryType == 1 {
      CoordinateExtends(dim, bytes, order, more);
    } else if geometryType == 2 {
      SequenceExtends(dim, bytes, order, more);
    } else if geometryType == 3 {
      PolygonExtends(dim, bytes, order, more);
    } else if 4 <= geometryType <= 7 {
      IntExtends(bytes, order, more);
      var count := ParseInt(bytes, order);
      if count.Parsed? && Signed(count.value) >= 0 {
        IntTaken(bytes, order);
        GeometriesExtend(Signed(count.value), KindOf(geometryType), count.rest, order, more);
      }
    }
  }

  lemma IntTaken(bytes: seq<bv8>, order: ByteOrder)
    ensures var r := ParseInt(bytes, order);
            r.Parsed? ==> |r.rest| + 4 == |bytes| && r.order == order
  {
  }

  lemma {:induction false} GeometriesExtend(n: nat, kind: CollectionKind, bytes: seq<bv8>, order: ByteOrder, more: seq<bv8>)
    ensures Extends(ParseGeometries(n, kind, bytes, order), ParseGeometries(n, kind, bytes + more, order), more)
    decreases |bytes|, 1, n
  {
    hide ParseGeometry, Admits;
    if n > 0 {
      GeometriesExtend(n - 1, kind, bytes, order, more);
      var front := ParseGeometries(n - 1, kind, bytes, order);
      if front.Parsed? {
        GeometryExtends(front.rest, front.order, more);
      }
    }
  }

  lemma {:induction false} TypedExtends(typeInt: bv32, bytes: seq<bv8>, order: ByteOrder, more: seq<bv8>)
    ensures Extends(ParseTyped(typeInt, bytes, order), ParseTyped(typeInt, bytes + more, order), more)
    decreases |bytes|, 3, 0
  {
    hide ParseInt, ParseBody, WithSRID;
    var dim := if typeInt & 0x8000_0000 != 0 then 3 else 2;
    if typeInt & 0x2000_0000 != 0 {
      IntExtends(bytes, order, more);
      IntTaken(bytes, order);
      var srid := ParseInt(bytes, order);
      if srid.Parsed? {
        BodyExtends(typeInt & 0xff, dim, srid.rest, order, more);
      }
    } else {
      BodyExtends(typeInt & 0xff, dim, bytes, order, more);
    }
  }

  /** What is read does not depend on what comes after it. */
  lemma {:induction false} GeometryExtends(bytes: seq<bv8>, order: ByteOrder, more: seq<bv8>)
    ensures Extends(ParseGeometry(bytes, order), ParseGeometry(bytes + more, order), more)
    decreases |bytes|, 0, 0
  {
    hide ParseInt, ParseTyped;
    if bytes != [] {
      var o := OrderOf(bytes[0], order);
      assert (bytes + more)[1..] == bytes[1..] + more;
      IntExtends(bytes[1..], o, more);
      IntTaken(bytes[1..], o);
      var typeInt := ParseInt(bytes[1..], o);
      if typeInt.Parsed? {
        TypedExtends(typeInt.value, typeInt.rest, o, more);
      }
    }
  }

  /** A geometry that was written and then cut short anywhere is refused. */
  lemma TruncatedIsRefused(g: Geometry, w: Settings, n: nat, order: ByteOrder)
    requires (w.dimension == 2 || w.dimension == 3) && WellFormed(g) && Encodable(g) && n < |Encode(g, w)|
    ensures ParseGeometry(Encode(g, w)[..n], order).Failed?
  {
    hide Encode, ParseGeometry, ReadBack, WellFormed, Encodable;
    var all := Encode(g, w);
    assert all == all[..n] + all[n..] && all + [] == all;
    RoundTrip(g, w, [], order);
    GeometryExtends(all[..n], order, all[n..]);
  }

  /** No two different encodings begin one with the other. */
  lemma PrefixFree(g: Geometry, v: Settings, h: Geometry, w: Settings)
    requires (v.dimension == 2 || v.dimension == 3) && WellFormed(g) && Encodable(g)
    requires (w.dimension == 2 || w.dimension == 3) && WellFormed(h) && Encodable(h)
    requires Encode(g, v) <= Encode(h, w)
    ensures Encode(g, v) == Encode(h, w)
  {
    hide Encode, ParseGeometry, ReadBack, WellFormed, Encodable;
    var n := |Encode(g, v)|;
    RoundTrip(g, v, [], BIG);
    assert Encode(g, v) + [] == Encode(g, v) == Encode(h, w)[..n];
    if n < |Encode(h, w)| {
      TruncatedIsRefused(h, w, n, BIG);
    }
  }
}
