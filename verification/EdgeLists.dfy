/** The list of edges, with an index on their points for finding equal edges quickly. */
module EdgeLists {
  import opened Coordinates
  import opened GeomGraph
  import opened OrientedArrays

  // ---------- the index: a std::map under the order of oriented arrays ----------

  datatype Entry = Entry(key: OrientedCoordinateArray, edge: Edge)

  datatype Found = NotFound | Found(edge: Edge)

  /** Replaces the edge of an equivalent key, which stays as it is, or else inserts an entry before the first greater key. */
  ghost function Assigned(index: seq<Entry>, key: OrientedCoordinateArray, e: Edge): seq<Entry> {
    if index == [] then [Entry(key, e)]
    else if CompareArrays(key, index[0].key) < 0 then [Entry(key, e)] + index
    else if CompareArrays(key, index[0].key) == 0 then [Entry(index[0].key, e)] + index[1..]
    else [index[0]] + Assigned(index[1..], key, e)
  }

  /** The edge of the equivalent key, searched in ascending order. */
  ghost function Lookup(index: seq<Entry>, key: OrientedCoordinateArray): Found {
    if index == [] then NotFound
    else if CompareArrays(key, index[0].key) < 0 then NotFound
    else if CompareArrays(key, index[0].key) == 0 then Found(index[0].edge)
    else Lookup(index[1..], key)
  }

  /** Assigning to a key changes what is found under the keys equivalent to it, and under no others. */
  lemma {:induction false} LookupAssigned(index: seq<Entry>, key: OrientedCoordinateArray, e: Edge, k: OrientedCoordinateArray)
    ensures Lookup(Assigned(index, key, e), k) == if CompareArrays(k, key) == 0 then Found(e) else Lookup(index, k)
  {
    if index != [] {
      var head := index[0].key;
      CompareThree(k, key, head);
      if CompareArrays(key, head) > 0 {
        LookupAssigned(index[1..], key, e, k);
      }
    }
  }

  /** How three keys compare. */
  lemma CompareThree(a: OrientedCoordinateArray, b: OrientedCoordinateArray, c: OrientedCoordinateArray)
    ensures CompareArrays(a, b) == -CompareArrays(b, a)
    ensures CompareArrays(a, b) < 0 && CompareArrays(b, c) <= 0 ==> CompareArrays(a, c) < 0
    ensures CompareArrays(a, b) == 0 ==> CompareArrays(a, c) == CompareArrays(b, c)
    ensures CompareArrays(b, c) == 0 ==> CompareArrays(a, c) == CompareArrays(a, b)
    ensures CompareArrays(a, b) > 0 && CompareArrays(b, c) >= 0 ==> CompareArrays(a, c) > 0
  {
    hide CompareArrays;
    CompareArraysIsPreorder(a, b, c); CompareArraysIsPreorder(b, c, a); CompareArraysIsPreorder(c, a, b);
    CompareArraysIsPreorder(b, a, c); CompareArraysIsPreorder(c, b, a); CompareArraysIsPreorder(a, c, b);
    CompareRange(a, b); CompareRange(b, c); CompareRange(a, c);
  }

  lemma CompareRange(a: OrientedCoordinateArray, b: OrientedCoordinateArray)
    ensures -1 <= CompareArrays(a, b) <= 1
  {
  }

  ghost predicate AllOriented(index: seq<Entry>) {
    forall i :: 0 <= i < |index| ==> IsOriented(index[i].key)
  }

  /** The first place whose key does not come before the given one. */
  method LowerBound(index: seq<Entry>, key: OrientedCoordinateArray) returns (i: nat, equivalent: bool)
    requires AllOriented(index) && IsOriented(key)
    ensures i <= |index| && forall j :: 0 <= j < i ==> CompareArrays(key, index[j].key) > 0
    ensures i < |index| ==> CompareArrays(key, index[i].key) <= 0
    ensures equivalent <==> i < |index| && CompareArrays(key, index[i].key) == 0
  {
    hide CompareArrays, IsOriented;
    i, equivalent := 0, false;
    while i < |index|
      invariant 0 <= i <= |index| && !equivalent
      invariant forall j :: 0 <= j < i ==> CompareArrays(key, index[j].key) > 0
    {
      var comp := CompareTo(key, index[i].key);
      if comp <= 0 {
        equivalent := comp == 0;
        return;
      }
      i := i + 1;
    }
  }

  /** What is found and assigned at the first place whose key does not come before the given one. */
  lemma {:induction false} AtLowerBound(index: seq<Entry>, key: OrientedCoordinateArray, e: Edge, i: nat)
    requires i <= |index| && forall j :: 0 <= j < i ==> CompareArrays(key, index[j].key) > 0
    requires i < |index| ==> CompareArrays(key, index[i].key) <= 0
    ensures var equivalent := i < |index| && CompareArrays(key, index[i].key) == 0;
            && Lookup(index, key) == (if equivalent then Found(index[i].edge) else NotFound)
            && Assigned(index, key, e) == if equivalent then index[..i] + [Entry(index[i].key, e)] + index[i + 1..]
                                          else index[..i] + [Entry(key, e)] + index[i..]
  {
    hide CompareArrays;
    if i > 0 {
      var rest := index[1..];
      AtLowerBound(rest, key, e, i - 1);
      assert index[..i] == [index[0]] + rest[..i - 1];
      assert rest[i - 1..] == index[i..];
      assert i < |index| ==> rest[i - 1 + 1..] == index[i + 1..];
    }
  }

  // ---------- the edge list ----------

  /** Edge i has the given points, in either direction, and no later edge has. */
  ghost predicate LastAt(edges: seq<Edge>, pts: seq<Coordinate>, i: int) {
    0 <= i < |edges| && SamePoints(edges[i].pts, pts) && forall j :: i < j < |edges| ==> !SamePoints(edges[j].pts, pts)
  }

  /** The last edge of the list with the given points, in either direction. */
  ghost function LastEqual(edges: seq<Edge>, pts: seq<Coordinate>): (r: Found)
    ensures r.Found? ==> exists i :: LastAt(edges, pts, i) && edges[i] == r.edge
    ensures r == NotFound <==> forall i :: 0 <= i < |edges| ==> !SamePoints(edges[i].pts, pts)
    ensures r.Found? ==> r.edge in edges && SamePoints(r.edge.pts, pts)
  {
    if edges == [] then NotFound
    else if SamePoints(edges[|edges| - 1].pts, pts) then
      assert LastAt(edges, pts, |edges| - 1);
      Found(edges[|edges| - 1])
    else
      assert forall i :: LastAt(edges[..|edges| - 1], pts, i) ==> LastAt(edges, pts, i);
      LastEqual(edges[..|edges| - 1], pts)
  }

  /** Under every key the index finds the last edge of the list with that key's points. */
  ghost predicate Indexes(index: seq<Entry>, edges: seq<Edge>) {
    AllOriented(index) && forall k :: Lookup(index, k) == LastEqual(edges, k.pts)
  }

  lemma IndexesPush(index: seq<Entry>, edges: seq<Edge>, key: OrientedCoordinateArray, e: Edge, now: seq<Entry>)
    requires Indexes(index, edges) && key.pts == e.pts && now == Assigned(index, key, e) && AllOriented(now)
    ensures Indexes(now, edges + [e])
  {
    hide CompareArrays, SamePoints;
    forall k
      ensures Lookup(now, k) == LastEqual(edges + [e], k.pts)
    {
      LookupAssigned(index, key, e, k);
      CompareArraysIsPreorder(k, key, k);
      CompareArraysIsPreorder(key, k, key);
      assert (edges + [e])[..|edges|] == edges;
    }
  }

  class EdgeList {
    var edges: seq<Edge>
    var ocaMap: seq<Entry>

    ghost predicate Valid()
      reads this
    {
      Indexes(ocaMap, edges)
    }

    constructor ()
      ensures Valid() && edges == []
    {
      edges, ocaMap := [], [];
    }

    method Add(e: Edge)
      requires Valid()
      modifies this
      ensures Valid() && edges == old(edges) + [e]
    {
      hide Indexes, Lookup, Assigned;
      edges := edges + [e];
      var oca := NewOriented(e.pts);
      Assign(oca, e, old(edges));
    }

    /** `ocaMap[oca] = e`. */
    method Assign(oca: OrientedCoordinateArray, e: Edge, ghost before: seq<Edge>)
      requires Indexes(ocaMap, before) && IsOriented(oca) && oca.pts == e.pts
      modifies this`ocaMap
      ensures Indexes(ocaMap, before + [e])
    {
      hide CompareArrays, IsOriented;
      var i, equivalent := LowerBound(ocaMap, oca);
      AtLowerBound(ocaMap, oca, e, i);
      if equivalent {
        ocaMap := ocaMap[..i] + [Entry(ocaMap[i].key, e)] + ocaMap[i + 1..];
      } else {
        ocaMap := ocaMap[..i] + [Entry(oca, e)] + ocaMap[i..];
      }
      IndexesPush(old(ocaMap), before, oca, e, ocaMap);
    }

    /** By the index: the last edge added that has the same points, in either direction. */
    method FindEqualEdge(e: Edge) returns (equal: Edge?)
      requires Valid()
      ensures equal == match LastEqual(edges, e.pts) case NotFound => null case Found(last) => last
      ensures equal == null <==> forall i :: 0 <= i < |edges| ==> !SamePoints(edges[i].pts, e.pts)
      ensures equal != null ==> exists i :: LastAt(edges, e.pts, i) && edges[i] == equal
    {
      var oca := NewOriented(e.pts);
      var i, equivalent := LowerBound(ocaMap, oca);
      AtLowerBound(ocaMap, oca, e, i);
      if equivalent {
        return ocaMap[i].edge;
      }
      return null;
    }

    /** By linear search: the index of the first such edge, or -1. */
    method FindEdgeIndex(e: Edge) returns (index: int)
      ensures -1 <= index < |edges|
      ensures index == -1 <==> LastEqual(edges, e.pts) == NotFound
      ensures index >= 0 ==> SamePoints(edges[index].pts, e.pts) && forall i :: 0 <= i < index ==> !SamePoints(edges[i].pts, e.pts)
    {
      var i := 0;
      while i < |edges|
        invariant 0 <= i <= |edges|
        invariant forall k :: 0 <= k < i ==> !SamePoints(edges[k].pts, e.pts)
      {
        var equal := edges[i].Equals(e);
        if equal {
          return i;
        }
        i := i + 1;
      }
      return -1;
    }
  }
}
