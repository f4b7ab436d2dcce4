/** Which line edges at a node lie inside the result area, by going once around the node. */
module Coverings {
  import opened Coordinates

  /** What a star holds at a place: a line edge, or another edge, and whether it and its twin are in the result.
      The result lies on the right of its edges. */
  datatype Place = LineEdge | OtherEdge(outgoing: bool, incoming: bool)

  /** The edge bounds the result. */
  ghost predicate Tells(p: Place) {
    p.OtherEdge? && (p.outgoing || p.incoming)
  }

  /** The location met before an edge that bounds the result, going counter-clockwise, and the one after it. */
  ghost function OnRight(p: Place): Location {
    if Tells(p) then (if p.outgoing then INTERIOR else EXTERIOR) else UNDEF
  }

  ghost function OnLeft(p: Place): Location {
    if Tells(p) then (if p.incoming then INTERIOR else EXTERIOR) else UNDEF
  }

  /** The location before the first of the places from i on that bounds the result; unknown if there is none. */
  ghost function StartLoc(places: seq<Place>, i: nat): Location
    requires i <= |places|
    decreases |places| - i
  {
    if i == |places| then UNDEF
    else if Tells(places[i]) then OnRight(places[i])
    else StartLoc(places, i + 1)
  }

  /** The location reached before place i. */
  ghost function LocAt(places: seq<Place>, i: nat): Location
    requires i <= |places|
  {
    if i == 0 then StartLoc(places, 0)
    else if Tells(places[i - 1]) then OnLeft(places[i - 1])
    else LocAt(places, i - 1)
  }

  // ---------- going round ----------

  /** The place d steps after i, going round n places. */
  ghost function Step(i: int, d: int, n: int): int {
    if i + d < n then i + d else i + d - n
  }

  /** The steps from i on to j, at least one. */
  ghost function Steps(i: int, j: int, n: int): int {
    if i < j then j - i else j - i + n
  }

  /** Going round from i, j is the next place that bounds the result. */
  ghost predicate NextBound(places: seq<Place>, i: int, j: int) {
    && 0 <= i < |places| && 0 <= j < |places| && Tells(places[j])
    && forall d :: 0 < d < Steps(i, j, |places|) ==> !Tells(places[Step(i, d, |places|)])
  }

  /** Going round to i, j is the last place that bounds the result. */
  ghost predicate LastBound(places: seq<Place>, i: int, j: int) {
    && 0 <= i < |places| && 0 <= j < |places| && Tells(places[j])
    && forall d :: 0 < d < Steps(j, i, |places|) ==> !Tells(places[Step(j, d, |places|)])
  }

  lemma {:induction false} NextBoundExists(places: seq<Place>, i: nat, t: nat) returns (j: nat)
    requires i < |places| && t < |places| && Tells(places[t])
    ensures NextBound(places, i, j)
    decreases Steps(i, t, |places|)
  {
    j := t;
    if !NextBound(places, i, t) {
      var d :| 0 < d < Steps(i, t, |places|) && Tells(places[Step(i, d, |places|)]);
      j := NextBoundExists(places, i, Step(i, d, |places|));
    }
  }

  lemma {:induction false} LastBoundExists(places: seq<Place>, i: nat, t: nat) returns (j: nat)
    requires i < |places| && t < |places| && Tells(places[t])
    ensures LastBound(places, i, j)
    decreases Steps(t, i, |places|)
  {
    j := t;
    if !LastBound(places, i, t) {
      var d :| 0 < d < Steps(t, i, |places|) && Tells(places[Step(t, d, |places|)]);
      j := LastBoundExists(places, i, Step(t, d, |places|));
    }
  }

  // ---------- what the pass finds ----------

  lemma {:induction false} StartLocSkips(places: seq<Place>, i: nat, k: nat)
    requires i <= k < |places| && Tells(places[k]) && forall m :: i <= m < k ==> !Tells(places[m])
    ensures StartLoc(places, i) == OnRight(places[k])
    decreases k - i
  {
    if i < k {
      StartLocSkips(places, i + 1, k);
    }
  }

  lemma {:induction false} StartLocUndef(places: seq<Place>, i: nat)
    requires i <= |places|
    ensures StartLoc(places, i) == UNDEF <==> forall m :: i <= m < |places| ==> !Tells(places[m])
    decreases |places| - i
  {
    if i < |places| {
      StartLocUndef(places, i + 1);
    }
  }

  lemma {:induction false} LocAtSkips(places: seq<Place>, i: nat, j: nat)
    requires j <= i <= |places| && forall m :: j <= m < i ==> !Tells(places[m])
    ensures LocAt(places, i) == LocAt(places, j)
    decreases i
  {
    if j < i {
      LocAtSkips(places, i - 1, j);
    }
  }

  /** Before an edge that does not bound the result the pass finds what the last bounding edge has on its left;
      or, if none came before it, what the next one has on its right. */
  lemma LocBetweenBounds(places: seq<Place>, i: nat, j: nat, k: nat)
    requires i < |places| && !Tells(places[i]) && LastBound(places, i, j) && NextBound(places, i, k)
    ensures LocAt(places, i) == if j < i then OnLeft(places[j]) else OnRight(places[k])
  {
    var n := |places|;
    if j < i {
      forall m | j + 1 <= m < i
        ensures !Tells(places[m])
      {
        assert Step(j, m - j, n) == m;
      }
      LocAtSkips(places, i, j + 1);
    } else {
      forall m | 0 <= m < i
        ensures !Tells(places[m])
      {
        assert Step(j, m + n - j, n) == m;
      }
      LocAtSkips(places, i, 0);
      assert i < k;
      forall m | i < m < k
        ensures !Tells(places[m])
      {
        assert Step(i, m - i, n) == m;
      }
      StartLocSkips(places, 0, k);
    }
  }

  /** Around every edge that does not bound the result, the bounding edges on its two sides agree. */
  ghost predicate Consistent(places: seq<Place>) {
    forall i: nat, j: nat, k: nat :: i < |places| && j < |places| && k < |places| && !Tells(places[i])
                                     && LastBound(places, i, j) && NextBound(places, i, k) ==>
      OnLeft(places[j]) == OnRight(places[k])
  }

  // ---------- starting elsewhere ----------

  ghost function Rotated(places: seq<Place>, m: nat): (r: seq<Place>)
    requires m < |places|
    ensures |r| == |places| && forall i :: 0 <= i < |places| ==> r[i] == places[Step(i, m, |places|)]
  {
    places[m..] + places[..m]
  }

  /** Where place i is found when place m comes first. */
  ghost function From(m: int, i: int, n: int): int {
    if i < m then i - m + n else i - m
  }

  lemma BoundsRotate(places: seq<Place>, m: nat, i: nat, j: nat, k: nat)
    requires m < |places| && LastBound(places, i, j) && NextBound(places, i, k)
    ensures var r, n := Rotated(places, m), |places|;
            LastBound(r, From(m, i, n), From(m, j, n)) && NextBound(r, From(m, i, n), From(m, k, n))
  {
    var r, n := Rotated(places, m), |places|;
    forall d | 0 < d < Steps(j, i, n)
      ensures !Tells(r[Step(From(m, j, n), d, n)])
    {
      assert Step(Step(From(m, j, n), d, n), m, n) == Step(j, d, n);
    }
    forall d | 0 < d < Steps(i, k, n)
      ensures !Tells(r[Step(From(m, i, n), d, n)])
    {
      assert Step(Step(From(m, i, n), d, n), m, n) == Step(i, d, n);
    }
  }

  /** What the pass finds at place i when it starts at place m. */
  ghost function LocFrom(places: seq<Place>, m: nat, i: nat): Location
    requires m < |places| && i < |places|
  {
    LocAt(Rotated(places, m), From(m, i, |places|))
  }

  lemma LocFromBounds(places: seq<Place>, m: nat, i: nat, j: nat, k: nat)
    requires m < |places| && i < |places| && !Tells(places[i]) && LastBound(places, i, j) && NextBound(places, i, k)
    ensures LocFrom(places, m, i) ==
            if From(m, j, |places|) < From(m, i, |places|) then OnLeft(places[j]) else OnRight(places[k])
  {
    var n := |places|;
    BoundsRotate(places, m, i, j, k);
    LocBetweenBounds(Rotated(places, m), From(m, i, n), From(m, j, n), From(m, k, n));
  }

  ghost predicate StartIsNeutral(places: seq<Place>) {
    forall m, i :: 0 <= m < |places| && 0 <= i < |places| && !Tells(places[i]) ==>
      LocFrom(places, m, i) == LocFrom(places, 0, i)
  }

  lemma ConsistentIsNeutral(places: seq<Place>, t: nat)
    requires Consistent(places) && t < |places| && Tells(places[t])
    ensures StartIsNeutral(places)
  {
    hide LocFrom, LastBound, NextBound, Tells, OnLeft, OnRight;
    forall m, i | 0 <= m < |places| && 0 <= i < |places| && !Tells(places[i])
      ensures LocFrom(places, m, i) == LocFrom(places, 0, i)
    {
      var j := LastBoundExists(places, i, t);
      var k := NextBoundExists(places, i, t);
      LocFromBounds(places, m, i, j, k);
      LocFromBounds(places, 0, i, j, k);
    }
  }

  /** Starting at the last bounding edge shows what it has on its left, starting here what the next has on its right. */
  lemma BothSidesFound(places: seq<Place>, i: nat, j: nat, k: nat)
    requires i < |places| && !Tells(places[i]) && LastBound(places, i, j) && NextBound(places, i, k)
    ensures LocFrom(places, j, i) == OnLeft(places[j]) && LocFrom(places, i, i) == OnRight(places[k])
  {
    hide LocFrom, OnLeft, OnRight;
    LocFromBounds(places, j, i, j, k);
    LocFromBounds(places, i, i, j, k);
  }

  lemma NeutralIsConsistent(places: seq<Place>)
    requires StartIsNeutral(places)
    ensures Consistent(places)
  {
    hide LocFrom, Tells, OnLeft, OnRight, LastBound, NextBound;
    forall i: nat, j: nat, k: nat | i < |places| && j < |places| && k < |places| && !Tells(places[i])
                                    && LastBound(places, i, j) && NextBound(places, i, k)
      ensures OnLeft(places[j]) == OnRight(places[k])
    {
      BothSidesFound(places, i, j, k);
      assert LocFrom(places, j, i) == LocFrom(places, 0, i) == LocFrom(places, i, i);
    }
  }

  /** The pass finds the same locations wherever it starts exactly when the bounding edges are consistent. */
  lemma StartIsNeutralIff(places: seq<Place>)
    requires StartLoc(places, 0) != UNDEF
    ensures StartIsNeutral(places) <==> Consistent(places)
  {
    hide *;
    var t := BoundExists(places);
    if Consistent(places) {
      ConsistentIsNeutral(places, t);
    }
    if StartIsNeutral(places) {
      NeutralIsConsistent(places);
    }
  }

  lemma BoundExists(places: seq<Place>) returns (t: nat)
    requires StartLoc(places, 0) != UNDEF
    ensures t < |places| && Tells(places[t])
  {
    StartLocUndef(places, 0);
    t :| t < |places| && Tells(places[t]);
  }

  /** A line edge between two bounding edges that disagree: what is found depends on where the pass starts. */
  lemma StartMatters()
    ensures var places := [OtherEdge(true, false), LineEdge, OtherEdge(true, false)];
            !Consistent(places) && LocFrom(places, 0, 1) == EXTERIOR && LocFrom(places, 1, 1) == INTERIOR
  {
    var places := [OtherEdge(true, false), LineEdge, OtherEdge(true, false)];
    assert LastBound(places, 1, 0) && NextBound(places, 1, 2);
    LocFromBounds(places, 0, 1, 0, 2);
    LocFromBounds(places, 1, 1, 0, 2);
    assert OnLeft(places[0]) == EXTERIOR && OnRight(places[2]) == INTERIOR;
  }

  /** The result lies on the right of its edges: past a bounding edge a line edge is inside exactly when the incoming
      one is in the result, and before it exactly when the outgoing one is. */
  lemma ResultIsOnRight(outgoing: bool, incoming: bool)
    requires outgoing || incoming
    ensures LocAt([OtherEdge(outgoing, incoming), LineEdge], 1) == (if incoming then INTERIOR else EXTERIOR)
    ensures LocAt([LineEdge, OtherEdge(outgoing, incoming)], 0) == if outgoing then INTERIOR else EXTERIOR
  {
    var after, before := [OtherEdge(outgoing, incoming), LineEdge], [LineEdge, OtherEdge(outgoing, incoming)];
    LocStep(after, 0);
    StartLocSkips(before, 0, 1);
  }

  /** Of consistent bounding edges both neighbours have the location found on this side. */
  lemma LocOfConsistent(places: seq<Place>, i: nat, j: nat, k: nat)
    requires i < |places| && !Tells(places[i]) && LastBound(places, i, j) && NextBound(places, i, k)
    requires Consistent(places)
    ensures LocAt(places, i) == OnLeft(places[j]) == OnRight(places[k])
  {
    LocBetweenBounds(places, i, j, k);
  }

  // ---------- one step of the pass ----------

  lemma StartsAt(places: seq<Place>)
    ensures LocAt(places, 0) == StartLoc(places, 0)
  {
  }

  lemma LocStep(places: seq<Place>, i: nat)
    requires i < |places|
    ensures LocAt(places, i + 1) == if Tells(places[i]) then OnLeft(places[i]) else LocAt(places, i)
  {
  }
}
