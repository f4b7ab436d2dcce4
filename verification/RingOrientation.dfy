/** Whether a ring runs counter-clockwise, judged by the bend at its highest vertex. */
module RingOrientation {
  import opened Coordinates
  import opened Numbers
  import opened Orientation
  import opened Paths

  // ---------- the bend at a vertex ----------

  /** The judgement at a vertex hi between the next different vertices on its two sides; false where the ring
      turns straight back on itself. */
  predicate CCWAt(prev: Coordinate, hi: Coordinate, next: Coordinate) {
    && prev != hi && next != hi && prev != next
    && if Cross(prev, hi, next) == 0 then prev.x > next.x else Cross(prev, hi, next) > 0
  }

  /** There is a bend to judge: the three are different, and if in line then not one above the other. */
  predicate Bends(prev: Coordinate, hi: Coordinate, next: Coordinate) {
    && prev != hi && next != hi && prev != next
    && (Cross(prev, hi, next) != 0 || prev.x != next.x)
  }

  /** Passing the vertex the other way turns the judgement round exactly where there is a bend. */
  lemma BendReversed(prev: Coordinate, hi: Coordinate, next: Coordinate)
    ensures CCWAt(next, hi, prev) <==> Bends(prev, hi, next) && !CCWAt(prev, hi, next)
  {
    assert Cross(next, hi, prev) == -Cross(prev, hi, next);
  }

  // ---------- rings as cycles of places ----------

  /** The vertices of a closed ring, without the closing one. */
  ghost function Open(ring: seq<Coordinate>): (c: seq<Coordinate>)
    requires ring != []
    ensures |c| == |ring| - 1
  {
    ring[..|ring| - 1]
  }

  /** The cycle begun at place h. */
  ghost function Turned(c: seq<Coordinate>, h: nat): (r: seq<Coordinate>)
    requires h <= |c|
    ensures |r| == |c|
    ensures forall i :: 0 <= i < |c| ==> r[i] == if i < |c| - h then c[i + h] else c[i + h - |c|]
  {
    c[h..] + c[..h]
  }

  /** The cycle run the other way, from the same place. */
  ghost function Back(c: seq<Coordinate>): (r: seq<Coordinate>)
    ensures |r| == |c|
    ensures forall i :: 0 <= i < |c| ==> r[i] == if i == 0 then c[0] else c[|c| - i]
  {
    if c == [] then [] else [c[0]] + Reversed(c[1..])
  }

  /** The first vertex that differs from hi, or hi itself if there is none; and the last one. */
  ghost function FirstOther(s: seq<Coordinate>, hi: Coordinate): Coordinate {
    if s == [] then hi else if s[0] != hi then s[0] else FirstOther(s[1..], hi)
  }

  ghost function LastOther(s: seq<Coordinate>, hi: Coordinate): Coordinate {
    if s == [] then hi else if s[|s| - 1] != hi then s[|s| - 1] else LastOther(s[..|s| - 1], hi)
  }

  ghost function PrevOf(c: seq<Coordinate>, h: nat): Coordinate
    requires h < |c|
  {
    LastOther(Turned(c, h)[1..], c[h])
  }

  ghost function NextOf(c: seq<Coordinate>, h: nat): Coordinate
    requires h < |c|
  {
    FirstOther(Turned(c, h)[1..], c[h])
  }

  ghost predicate JudgedAt(c: seq<Coordinate>, h: nat)
    requires h < |c|
  {
    CCWAt(PrevOf(c, h), c[h], NextOf(c, h))
  }

  ghost predicate BendsAt(c: seq<Coordinate>, h: nat)
    requires h < |c|
  {
    Bends(PrevOf(c, h), c[h], NextOf(c, h))
  }

  // ---------- the highest vertex ----------

  ghost predicate Highest(c: seq<Coordinate>, h: nat) {
    h < |c| && forall i :: 0 <= i < |c| ==> c[i].y <= c[h].y
  }

  /** The highest vertex met first, from place 0 on. */
  ghost predicate FirstHighest(c: seq<Coordinate>, h: nat) {
    Highest(c, h) && forall i :: 0 <= i < h ==> c[i].y < c[h].y
  }

  ghost function HighIndex(c: seq<Coordinate>): (h: nat)
    requires c != []
    ensures FirstHighest(c, h)
  {
    if |c| == 1 then 0
    else
      var front := c[..|c| - 1];
      var h := HighIndex(front);
      HighestPush(c, h);
      if c[|c| - 1].y > c[h].y then |c| - 1 else h
  }

  lemma HighestPush(c: seq<Coordinate>, h: nat)
    requires c != [] && FirstHighest(c[..|c| - 1], h)
    ensures FirstHighest(c, if c[|c| - 1].y > c[h].y then |c| - 1 else h)
  {
    var front := c[..|c| - 1];
    forall i | 0 <= i < |c| - 1
      ensures c[i].y <= c[h].y && (i < h ==> c[i].y < c[h].y)
    {
      assert front[i].y <= front[h].y;
    }
  }

  lemma FirstHighestUnique(c: seq<Coordinate>, h: nat, k: nat)
    requires FirstHighest(c, h) && FirstHighest(c, k)
    ensures h == k
  {
    assert c[h].y == c[k].y;
  }

  /** The orientation of a ring: the judgement at its first highest vertex. */
  ghost predicate CounterClockwise(ring: seq<Coordinate>)
    requires |ring| >= 2
  {
    JudgedAt(Open(ring), HighIndex(Open(ring)))
  }

  lemma OrientationAt(ring: seq<Coordinate>, h: nat)
    requires |ring| >= 2 && FirstHighest(Open(ring), h)
    ensures CounterClockwise(ring) == JudgedAt(Open(ring), h)
  {
    FirstHighestUnique(Open(ring), h, HighIndex(Open(ring)));
  }

  // ---------- the test ----------

  lemma {:induction false} LastOtherIs(s: seq<Coordinate>, hi: Coordinate, j: nat)
    requires j < |s| && s[j] != hi && forall m :: j < m < |s| ==> s[m] == hi
    ensures LastOther(s, hi) == s[j]
  {
    if j < |s| - 1 {
      LastOtherIs(s[..|s| - 1], hi, j);
    }
  }

  lemma {:induction false} FirstOtherIs(s: seq<Coordinate>, hi: Coordinate, j: nat)
    requires j < |s| && s[j] != hi && forall m :: 0 <= m < j ==> s[m] == hi
    ensures FirstOther(s, hi) == s[j]
  {
    if j > 0 {
      FirstOtherIs(s[1..], hi, j - 1);
    }
  }

  lemma {:induction false} NoOther(s: seq<Coordinate>, hi: Coordinate)
    requires forall m :: 0 <= m < |s| ==> s[m] == hi
    ensures FirstOther(s, hi) == hi
    ensures LastOther(s, hi) == hi
  {
    if s != [] {
      NoOther(s[1..], hi);
      NoOther(s[..|s| - 1], hi);
    }
  }

  /** All places passed on the way back from h to q hold the same vertex. */
  ghost predicate SameBack(c: seq<Coordinate>, h: nat, q: nat)
    requires h < |c|
  {
    if q < h then forall m :: q < m < h ==> c[m] == c[h]
    else (forall m :: 0 <= m < h ==> c[m] == c[h]) && (forall m :: q < m < |c| ==> c[m] == c[h])
  }

  ghost predicate SameOn(c: seq<Coordinate>, h: nat, q: nat)
    requires h < |c|
  {
    if q > h then forall m :: h < m < q && m < |c| ==> c[m] == c[h]
    else (forall m :: h < m < |c| ==> c[m] == c[h]) && (forall m :: 0 <= m < q ==> c[m] == c[h])
  }

  lemma PrevFound(c: seq<Coordinate>, h: nat, q: nat)
    requires h < |c| && q < |c| && SameBack(c, h, q) && (c[q] != c[h] || q == h)
    ensures PrevOf(c, h) == c[q]
  {
    var s := Turned(c, h)[1..];
    if q == h {
      NoOther(s, c[h]);
    } else {
      LastOtherIs(s, c[h], if q > h then q - h - 1 else q - h - 1 + |c|);
    }
  }

  lemma NextFound(c: seq<Coordinate>, h: nat, q: nat)
    requires h < |c| && q < |c| && SameOn(c, h, q) && (c[q] != c[h] || q == h)
    ensures NextOf(c, h) == c[q]
  {
    var s := Turned(c, h)[1..];
    if q == h {
      NoOther(s, c[h]);
    } else {
      FirstOtherIs(s, c[h], if q > h then q - h - 1 else q - h - 1 + |c|);
    }
  }

  /** isCCW; refuses a ring of fewer than three vertices. */
  method IsCCW(ring: seq<Coordinate>) returns (ok: bool, isCCW: bool)
    requires ring != [] && IsClosed(ring)
    ensures ok == (|ring| >= 4)
    ensures ok ==> isCCW == CounterClockwise(ring)
  {
    var nPts := |ring| - 1;
    if nPts < 3 {
      return false, false;
    }
    ghost var c := Open(ring);
    var hiIndex := HighestPoint(ring);
    var iPrev := PrevDistinct(ring, hiIndex);
    var iNext := NextDistinct(ring, hiIndex);
    OrientationAt(ring, hiIndex);
    var prev, hiPt, next := ring[iPrev], ring[hiIndex], ring[iNext];
    if prev == hiPt || next == hiPt || prev == next {
      return true, false;
    }
    var disc := OrientationIndex(prev, hiPt, next);
    if disc == 0 {
      isCCW := prev.x > next.x;
    } else {
      isCCW := disc > 0;
    }
    return true, isCCW;
  }

  method HighestPoint(ring: seq<Coordinate>) returns (hiIndex: nat)
    requires |ring| >= 4 && IsClosed(ring)
    ensures FirstHighest(Open(ring), hiIndex)
  {
    var nPts := |ring| - 1;
    var hiPt := ring[0];
    hiIndex := 0;
    var i := 1;
    while i <= nPts
      invariant 1 <= i <= nPts + 1 && hiIndex < i && hiIndex < nPts && hiPt == ring[hiIndex]
      invariant forall k :: 0 <= k < i ==> ring[k].y <= hiPt.y
      invariant forall k :: 0 <= k < hiIndex ==> ring[k].y < hiPt.y
    {
      var p := ring[i];
      if p.y > hiPt.y {
        hiPt := p;
        hiIndex := i;
      }
      i := i + 1;
    }
  }

  /** The distinct point before the highest point. */
  method PrevDistinct(ring: seq<Coordinate>, hiIndex: nat) returns (iPrev: nat)
    requires |ring| >= 4 && IsClosed(ring) && hiIndex < |ring| - 1
    ensures iPrev < |ring| && ring[iPrev] == PrevOf(Open(ring), hiIndex)
  {
    ghost var c := Open(ring);
    var nPts := |ring| - 1;
    iPrev := if hiIndex == 0 then nPts else hiIndex - 1;
    while ring[iPrev] == ring[hiIndex] && iPrev != hiIndex
      invariant iPrev <= nPts && SameBack(c, hiIndex, iPrev)
      decreases if iPrev < hiIndex then iPrev + nPts + 1 else iPrev
    {
      iPrev := if iPrev == 0 then nPts else iPrev - 1;
    }
    PrevFound(c, hiIndex, iPrev);
  }

  /** The distinct point after the highest point. */
  method NextDistinct(ring: seq<Coordinate>, hiIndex: nat) returns (iNext: nat)
    requires |ring| >= 4 && IsClosed(ring) && hiIndex < |ring| - 1
    ensures iNext < |ring| && ring[iNext] == NextOf(Open(ring), hiIndex)
  {
    ghost var c := Open(ring);
    var nPts := |ring| - 1;
    iNext := After(hiIndex, nPts);
    while ring[iNext] == ring[hiIndex] && iNext != hiIndex
      invariant iNext < nPts && SameOn(c, hiIndex, iNext)
      decreases if iNext > hiIndex then nPts - iNext + nPts else nPts - iNext
    {
      iNext := After(iNext, nPts);
    }
    NextFound(c, hiIndex, iNext);
  }

  // ---------- reversing the ring ----------

  lemma {:induction false} OtherReversed(s: seq<Coordinate>, hi: Coordinate)
    ensures FirstOther(Reversed(s), hi) == LastOther(s, hi)
    ensures LastOther(Reversed(s), hi) == FirstOther(s, hi)
  {
    if s != [] {
      OtherReversed(s[..|s| - 1], hi);
      assert Reversed(s)[1..] == Reversed(s[..|s| - 1]);
      OtherReversed(s[1..], hi);
      assert Reversed(s)[..|s| - 1] == Reversed(s[1..]);
    }
  }

  /** The place of h in the cycle run backwards. */
  ghost function Mirror(h: nat, n: nat): nat
    requires h < n
  {
    if h == 0 then 0 else n - h
  }

  lemma TurnedBack(c: seq<Coordinate>, h: nat)
    requires h < |c|
    ensures Turned(Back(c), Mirror(h, |c|)) == Back(Turned(c, h))
  {
    hide Turned, Back;
    var a, b := Turned(Back(c), Mirror(h, |c|)), Back(Turned(c, h));
    forall i | 0 <= i < |c|
      ensures a[i] == b[i]
    {
      var j := if i == 0 then 0 else |c| - i;
      assert Turned(c, h)[j] == c[if j < |c| - h then j + h else j + h - |c|];
    }
  }

  /** What is judged when the cycle is run backwards. */
  lemma JudgedBack(c: seq<Coordinate>, h: nat)
    requires h < |c|
    ensures JudgedAt(Back(c), Mirror(h, |c|)) <==> BendsAt(c, h) && !JudgedAt(c, h)
  {
    TurnedBack(c, h);
    assert Back(Turned(c, h))[1..] == Reversed(Turned(c, h)[1..]);
    OtherReversed(Turned(c, h)[1..], c[h]);
    BendReversed(PrevOf(c, h), c[h], NextOf(c, h));
  }

  /** The highest vertex met first when the ring is run backwards. */
  ghost predicate LastHighest(c: seq<Coordinate>, k: nat) {
    Highest(c, k) && (k > 0 ==> c[0].y < c[k].y && forall i :: k < i < |c| ==> c[i].y < c[k].y)
  }

  ghost function LastHighIndex(c: seq<Coordinate>): (k: nat)
    requires c != []
    ensures LastHighest(c, k)
  {
    MirrorsHighest(c, HighIndex(Back(c)));
    Mirror(HighIndex(Back(c)), |c|)
  }

  lemma MirrorsHighest(c: seq<Coordinate>, j: nat)
    requires FirstHighest(Back(c), j)
    ensures LastHighest(c, Mirror(j, |c|))
  {
    forall i | 0 <= i < |c|
      ensures c[i] == Back(c)[Mirror(i, |c|)]
    {
    }
  }

  lemma LastHighIs(c: seq<Coordinate>)
    requires c != []
    ensures LastHighIndex(c) == Mirror(HighIndex(Back(c)), |c|)
  {
  }

  lemma MirrorTwice(h: nat, n: nat)
    requires h < n
    ensures Mirror(h, n) < n && Mirror(Mirror(h, n), n) == h
  {
  }

  lemma SameOrientation(ring: seq<Coordinate>)
    requires |ring| >= 2
    ensures CounterClockwise(ring) == JudgedAt(Open(ring), HighIndex(Open(ring)))
  {
  }

  lemma OpenReversed(ring: seq<Coordinate>)
    requires |ring| >= 2 && IsClosed(ring)
    ensures Open(Reversed(ring)) == Back(Open(ring))
  {
    hide Reversed, Back, Open;
    var a, b := Open(Reversed(ring)), Back(Open(ring));
    forall i | 0 <= i < |a|
      ensures a[i] == b[i]
    {
      OpenAt(Reversed(ring), i);
      OpenAt(ring, if i == 0 then 0 else |a| - i);
    }
  }

  lemma OpenAt(ring: seq<Coordinate>, i: nat)
    requires i < |ring| - 1
    ensures Open(ring)[i] == ring[i]
  {
  }

  /** A ring run backwards is judged at its last highest vertex. */
  lemma OrientationReversed(ring: seq<Coordinate>)
    requires |ring| >= 2 && IsClosed(ring)
    ensures var c := Open(ring);
            CounterClockwise(Reversed(ring)) <==> BendsAt(c, LastHighIndex(c)) && !JudgedAt(c, LastHighIndex(c))
  {
    hide JudgedAt, BendsAt, Reversed, Open, Back, CounterClockwise, Mirror;
    var c := Open(ring);
    OpenReversed(ring);
    JudgedBack(c, LastHighIndex(c));
    MirrorTwice(HighIndex(Back(c)), |c|);
    LastHighIs(c);
    SameOrientation(Reversed(ring));
  }

  /** The judgement at the first highest vertex is the one at the last, no bend there counting as counter-clockwise. */
  ghost predicate PeaksAgree(c: seq<Coordinate>)
    requires c != []
  {
    var first, last := HighIndex(c), LastHighIndex(c);
    JudgedAt(c, first) == (JudgedAt(c, last) || !BendsAt(c, last))
  }

  /** Reversing a ring turns its orientation round exactly when its peaks agree. */
  lemma ReversalFlipsIff(ring: seq<Coordinate>)
    requires |ring| >= 2 && IsClosed(ring)
    ensures CounterClockwise(Reversed(ring)) == !CounterClockwise(ring) <==> PeaksAgree(Open(ring))
  {
    OrientationReversed(ring);
  }

  /** With only one highest vertex, exactly when the ring does not turn straight back there. */
  lemma OnePeakAgreesIff(c: seq<Coordinate>, h: nat)
    requires FirstHighest(c, h) && LastHighest(c, h)
    ensures PeaksAgree(c) <==> BendsAt(c, h)
  {
    FirstHighestUnique(c, h, HighIndex(c));
    assert LastHighIndex(c) == h by {
      assert c[h].y == c[LastHighIndex(c)].y;
    }
  }

  // ---------- starting elsewhere ----------

  lemma OpenStartingAt(ring: seq<Coordinate>, k: nat)
    requires |ring| >= 2 && IsClosed(ring) && k < |ring| - 1
    ensures Open(StartingAt(ring, k)) == Turned(Open(ring), k)
  {
  }

  lemma TurnedTwice(c: seq<Coordinate>, k: nat, h: nat)
    requires k < |c| && h < |c|
    ensures var at := if h + k < |c| then h + k else h + k - |c|;
            Turned(Turned(c, k), h) == Turned(c, at) && Turned(c, k)[h] == c[at]
  {
  }

  /** The first highest vertex from place k on. */
  ghost function HighFrom(c: seq<Coordinate>, k: nat): (h: nat)
    requires k < |c|
    ensures Highest(c, h)
  {
    var j := HighIndex(Turned(c, k));
    HighestTurned(c, k, j);
    if j + k < |c| then j + k else j + k - |c|
  }

  lemma HighestTurned(c: seq<Coordinate>, k: nat, j: nat)
    requires k < |c| && Highest(Turned(c, k), j)
    ensures Highest(c, if j + k < |c| then j + k else j + k - |c|)
  {
    forall i | 0 <= i < |c|
      ensures c[i] == Turned(c, k)[if i < k then i - k + |c| else i - k]
    {
    }
  }

  /** A ring that starts at another vertex is judged at the first highest vertex from there. */
  lemma OrientationStartingAt(ring: seq<Coordinate>, k: nat)
    requires |ring| >= 2 && IsClosed(ring) && k < |ring| - 1
    ensures CounterClockwise(StartingAt(ring, k)) == JudgedAt(Open(ring), HighFrom(Open(ring), k))
  {
    var c := Open(ring);
    OpenStartingAt(ring, k);
    TurnedTwice(c, k, HighIndex(Turned(c, k)));
  }
}
