/** Depths around a node: crossing an edge from its right to its left adds its depth delta. */
module Depths {
  import opened Numbers

  /** The value of a depth not yet assigned. */
  const NULL_DEPTH := -999

  /** An edge's assigned depths and its delta in its own direction. */
  datatype Sides = Sides(left: int, right: int, delta: int)

  /** The depth reached from `start` after crossing the first n edges. */
  ghost function DepthAfter(sides: seq<Sides>, n: nat, start: int): int
    requires n <= |sides|
  {
    if n == 0 then start else DepthAfter(sides, n - 1, start) + sides[n - 1].delta
  }

  /** A depth may be assigned where none is, or where it is already the same. */
  predicate Accepts(preset: int, depth: int) {
    preset == NULL_DEPTH || preset == depth
  }

  ghost predicate AcceptsBoth(s: Sides, depth: int) {
    Accepts(s.right, depth) && Accepts(s.left, depth + s.delta)
  }

  /** No assigned depth clashes with the depths reached from `start`. */
  ghost predicate Admissible(sides: seq<Sides>, start: int) {
    forall m :: 0 <= m < |sides| ==> AcceptsBoth(sides[m], DepthAfter(sides, m, start))
  }

  lemma {:induction false} DepthAfterJoin(a: seq<Sides>, b: seq<Sides>, n: nat, start: int)
    requires n <= |a| + |b|
    ensures DepthAfter(a + b, n, start) == if n <= |a| then DepthAfter(a, n, start)
                                           else DepthAfter(b, n - |a|, DepthAfter(a, |a|, start))
  {
    if n > 0 {
      DepthAfterJoin(a, b, n - 1, start);
    }
  }

  lemma AdmissibleJoin(a: seq<Sides>, b: seq<Sides>, start: int)
    ensures Admissible(a + b, start) <==> Admissible(a, start) && Admissible(b, DepthAfter(a, |a|, start))
  {
    hide AcceptsBoth;
    var mid := DepthAfter(a, |a|, start);
    forall m | 0 <= m < |a| + |b|
      ensures DepthAfter(a + b, m, start) == if m <= |a| then DepthAfter(a, m, start) else DepthAfter(b, m - |a|, mid)
    {
      DepthAfterJoin(a, b, m, start);
    }
    if Admissible(a + b, start) {
      forall m | 0 <= m < |a|
        ensures AcceptsBoth(a[m], DepthAfter(a, m, start))
      {
        assert AcceptsBoth((a + b)[m], DepthAfter(a + b, m, start));
      }
      forall m | 0 <= m < |b|
        ensures AcceptsBoth(b[m], DepthAfter(b, m, mid))
      {
        assert AcceptsBoth((a + b)[|a| + m], DepthAfter(a + b, |a| + m, start));
      }
    }
  }

  /** The total change is the sum of the deltas: depths close up round a node iff it is zero with the edge's own. */
  ghost function TotalDelta(sides: seq<Sides>): int {
    if sides == [] then 0 else TotalDelta(sides[..|sides| - 1]) + sides[|sides| - 1].delta
  }

  lemma {:induction false} DepthAfterPrefix(a: seq<Sides>, b: seq<Sides>, n: nat, start: int)
    requires n <= |a| && a <= b
    ensures DepthAfter(b, n, start) == DepthAfter(a, n, start)
  {
    if n > 0 {
      DepthAfterPrefix(a, b, n - 1, start);
    }
  }

  lemma {:induction false} DepthAfterAll(sides: seq<Sides>, start: int)
    ensures DepthAfter(sides, |sides|, start) == start + TotalDelta(sides)
  {
    if sides != [] {
      var front := sides[..|sides| - 1];
      DepthAfterAll(front, start);
      DepthAfterPrefix(front, sides, |front|, start);
    }
  }

  lemma TotalDeltaJoin(a: seq<Sides>, b: seq<Sides>)
    ensures TotalDelta(a + b) == TotalDelta(a) + TotalDelta(b)
  {
    DepthAfterAll(a + b, 0);
    DepthAfterAll(a, 0);
    DepthAfterAll(b, DepthAfter(a, |a|, 0));
    DepthAfterJoin(a, b, |a| + |b|, 0);
  }

  /** The edges met on the way round from edge k, in order. */
  ghost function Round<T>(s: seq<T>, k: nat): seq<T>
    requires k < |s|
  {
    s[k + 1..] + s[..k]
  }

  /** Carried round from the left of edge k, the depth clashes with none on its way and returns as that edge's right. */
  ghost predicate ClosesUp(sides: seq<Sides>, k: nat)
    requires k < |sides|
  {
    && Admissible(Round(sides, k), sides[k].left)
    && DepthAfter(Round(sides, k), |sides| - 1, sides[k].left) == sides[k].right
  }

  lemma RoundJoin(sides: seq<Sides>, k: nat)
    requires k < |sides|
    ensures var tail, front := sides[k + 1..], sides[..k];
            var mid := DepthAfter(tail, |tail|, sides[k].left);
            ClosesUp(sides, k) <==> Admissible(tail, sides[k].left) && Admissible(front, mid)
                                    && DepthAfter(front, |front|, mid) == sides[k].right
  {
    hide Admissible;
    AdmissibleJoin(sides[k + 1..], sides[..k], sides[k].left);
    DepthAfterJoin(sides[k + 1..], sides[..k], |sides| - 1, sides[k].left);
  }

  /** d holds a depth for the right of every edge: each edge but k adds its delta to reach the right of the next, edge k
      has its own two depths, and every depth assigned before is the one found. */
  ghost predicate Assigns(sides: seq<Sides>, k: nat, d: seq<int>)
    requires k < |sides|
  {
    var n := |sides|;
    && |d| == n && d[k] == sides[k].right && d[After(k, n)] == sides[k].left
    && forall i :: 0 <= i < n && i != k ==>
         && d[After(i, n)] == d[i] + sides[i].delta
         && (sides[i].right == -999 || sides[i].right == d[i])
         && (sides[i].left == -999 || sides[i].left == d[After(i, n)])
  }

  /** The place of edge i on the way round from edge k, and the edge at a place. */
  function PlaceFrom(k: nat, i: nat, n: nat): (m: nat)
    requires i < n && k < n
    ensures m < n
  {
    if i > k then i - k - 1 else i + n - k - 1
  }

  function EdgeFrom(k: nat, m: nat, n: nat): (i: nat)
    requires m < n && k < n
    ensures i < n
  {
    if k + 1 + m < n then k + 1 + m else k + 1 + m - n
  }

  lemma RoundAt(sides: seq<Sides>, k: nat, m: nat)
    requires k < |sides| && m + 1 < |sides|
    ensures |Round(sides, k)| == |sides| - 1 && Round(sides, k)[m] == sides[EdgeFrom(k, m, |sides|)]
  {
  }

  lemma PlacesOf(k: nat, i: nat, n: nat)
    requires i < n && k < n
    ensures EdgeFrom(k, n - 1, n) == k && EdgeFrom(k, 0, n) == After(k, n) && PlaceFrom(k, k, n) == n - 1
    ensures EdgeFrom(k, PlaceFrom(k, i, n), n) == i && PlaceFrom(k, After(k, n), n) == 0
    ensures i != k ==> PlaceFrom(k, i, n) + 1 < n && PlaceFrom(k, After(i, n), n) == PlaceFrom(k, i, n) + 1
    ensures i + 1 < n ==> EdgeFrom(k, i, n) != k && EdgeFrom(k, i + 1, n) == After(EdgeFrom(k, i, n), n)
  {
  }

  lemma {:induction false} AssignedAre(sides: seq<Sides>, k: nat, d: seq<int>, m: nat)
    requires k < |sides| && Assigns(sides, k, d) && m < |sides|
    ensures DepthAfter(Round(sides, k), m, sides[k].left) == d[EdgeFrom(k, m, |sides|)]
  {
    hide EdgeFrom, Round, After, Assigns;
    PlacesOf(k, 0, |sides|);
    AssignedAt(sides, k, d, k);
    RoundLength(sides, k);
    if m > 0 {
      AssignedAre(sides, k, d, m - 1);
      RoundAt(sides, k, m - 1);
      PlacesOf(k, m - 1, |sides|);
      AssignedAt(sides, k, d, EdgeFrom(k, m - 1, |sides|));
    }
  }

  lemma AssignedAt(sides: seq<Sides>, k: nat, d: seq<int>, i: nat)
    requires k < |sides| && i < |sides| && Assigns(sides, k, d)
    ensures |d| == |sides|
    ensures d[After(i, |sides|)] == if i == k then sides[k].left else d[i] + sides[i].delta
  {
    hide After;
  }

  lemma AssignedCloses(sides: seq<Sides>, k: nat, d: seq<int>)
    requires k < |sides| && Assigns(sides, k, d)
    ensures ClosesUp(sides, k)
  {
    hide EdgeFrom, Round, After, DepthAfter;
    var n, round := |sides|, Round(sides, k);
    RoundLength(sides, k);
    forall m | 0 <= m < |round|
      ensures AcceptsBoth(round[m], DepthAfter(round, m, sides[k].left))
    {
      AssignedAre(sides, k, d, m);
      RoundAt(sides, k, m);
      PlacesOf(k, m, n);
    }
    AssignedAre(sides, k, d, n - 1);
    PlacesOf(k, 0, n);
  }

  lemma RoundLength(sides: seq<Sides>, k: nat)
    requires k < |sides|
    ensures |Round(sides, k)| == |sides| - 1
  {
  }

  /** The depth on the right of edge i on the way round from edge k. */
  ghost function DepthRound(sides: seq<Sides>, k: nat, i: nat): int
    requires k < |sides| && i < |sides|
  {
    RoundLength(sides, k);
    DepthAfter(Round(sides, k), PlaceFrom(k, i, |sides|), sides[k].left)
  }

  lemma DepthRoundStep(sides: seq<Sides>, k: nat, i: nat)
    requires k < |sides| && i < |sides| && i != k && ClosesUp(sides, k)
    ensures DepthRound(sides, k, After(i, |sides|)) == DepthRound(sides, k, i) + sides[i].delta
    ensures AcceptsBoth(sides[i], DepthRound(sides, k, i))
  {
    hide EdgeFrom, PlaceFrom, Round, After, AcceptsBoth;
    var m := PlaceFrom(k, i, |sides|);
    PlacesOf(k, i, |sides|);
    RoundLength(sides, k);
    RoundAt(sides, k, m);
    assert AcceptsBoth(Round(sides, k)[m], DepthAfter(Round(sides, k), m, sides[k].left));
  }

  lemma DepthRoundEnds(sides: seq<Sides>, k: nat)
    requires k < |sides| && ClosesUp(sides, k)
    ensures DepthRound(sides, k, k) == sides[k].right && DepthRound(sides, k, After(k, |sides|)) == sides[k].left
  {
    hide EdgeFrom, PlaceFrom, Round, After, Admissible;
    PlacesOf(k, k, |sides|);
    RoundLength(sides, k);
  }

  lemma ClosedIsAssigned(sides: seq<Sides>, k: nat) returns (d: seq<int>)
    requires k < |sides| && ClosesUp(sides, k)
    ensures Assigns(sides, k, d)
  {
    hide *;
    d := seq(|sides|, i requires 0 <= i < |sides| => DepthRound(sides, k, i));
    DepthRoundEnds(sides, k);
    forall i | 0 <= i < |sides| && i != k
      ensures d[After(i, |sides|)] == d[i] + sides[i].delta && AcceptsBoth(sides[i], d[i])
    {
      DepthRoundStep(sides, k, i);
    }
    AssignedWhen(sides, k, d);
  }

  lemma AssignedWhen(sides: seq<Sides>, k: nat, d: seq<int>)
    requires k < |sides| == |d| && d[k] == sides[k].right && d[After(k, |sides|)] == sides[k].left
    requires forall i :: 0 <= i < |sides| && i != k ==>
               d[After(i, |sides|)] == d[i] + sides[i].delta && AcceptsBoth(sides[i], d[i])
    ensures Assigns(sides, k, d)
  {
    hide After;
  }

  /** The way round closes exactly when all edges can be given depths that fit, keeping those assigned before. */
  lemma ClosesUpIffAssignable(sides: seq<Sides>, k: nat)
    requires k < |sides|
    ensures ClosesUp(sides, k) <==> exists d :: Assigns(sides, k, d)
  {
    if ClosesUp(sides, k) {
      var d := ClosedIsAssigned(sides, k);
    }
    if d :| Assigns(sides, k, d) {
      AssignedCloses(sides, k, d);
    }
  }

  /** When only edge k has depths, and these differ by its delta, the way round closes exactly when
      the deltas around the node cancel. */
  lemma ClosesUpIffDeltasCancel(sides: seq<Sides>, k: nat)
    requires k < |sides| && sides[k].left == sides[k].right + sides[k].delta
    requires Unset(sides[..k]) && Unset(sides[k + 1..])
    ensures ClosesUp(sides, k) <==> TotalDelta(sides) == 0
  {
    var tail, front := sides[k + 1..], sides[..k];
    var mid := DepthAfter(tail, |tail|, sides[k].left);
    RoundJoin(sides, k);
    RoundTotal(sides, k, sides[k].left);
    assert Admissible(tail, sides[k].left) by {
      UnsetIsAdmissible(tail, sides[k].left);
    }
    assert Admissible(front, mid) by {
      UnsetIsAdmissible(front, mid);
    }
  }

  lemma RoundTotal(sides: seq<Sides>, k: nat, start: int)
    requires k < |sides|
    ensures var tail, front := sides[k + 1..], sides[..k];
            DepthAfter(front, |front|, DepthAfter(tail, |tail|, start)) == start + TotalDelta(sides) - sides[k].delta
  {
    var tail, front := sides[k + 1..], sides[..k];
    DepthAfterAll(tail, start);
    DepthAfterAll(front, start + TotalDelta(tail));
    DeltaAround(front, sides[k], tail);
    assert sides == front + [sides[k]] + tail;
  }

  ghost predicate Unset(sides: seq<Sides>) {
    forall i :: 0 <= i < |sides| ==> sides[i].left == sides[i].right == NULL_DEPTH
  }

  lemma UnsetIsAdmissible(sides: seq<Sides>, start: int)
    requires Unset(sides)
    ensures Admissible(sides, start)
  {
  }

  lemma DeltaAround(front: seq<Sides>, s: Sides, tail: seq<Sides>)
    ensures TotalDelta(front + [s] + tail) == TotalDelta(front) + s.delta + TotalDelta(tail)
  {
    TotalDeltaJoin(front + [s], tail);
    assert (front + [s])[..|front|] == front;
  }
}
