/** Locations and labels, and how side locations spread around a node. */
module SideLabels {
  import opened Coordinates

  /** The locations on, left and right of an edge with respect to one geometry. */
  datatype TopologyLocation =
    | Line(on: Location)
    | Area(on: Location, left: Location, right: Location)

  /** A side label is known. */
  predicate Labelled(t: TopologyLocation) {
    t.Area? && t.right != UNDEF
  }

  /** The two sides are known together or not at all. */
  predicate Whole(t: TopologyLocation) {
    t.Area? ==> (t.left == UNDEF <==> t.right == UNDEF)
  }

  /** The location reached on the way to edge i: left of the nearest labelled edge before it, or `start`. */
  ghost function Reached(labels: seq<TopologyLocation>, i: nat, start: Location): Location
    requires i <= |labels|
  {
    if i == 0 then start
    else if Labelled(labels[i - 1]) then labels[i - 1].left
    else Reached(labels, i - 1, start)
  }

  /** Left of the last labelled edge: going round, the location before the first edge. */
  ghost function StartLocation(labels: seq<TopologyLocation>): Location {
    Reached(labels, |labels|, UNDEF)
  }

  /** Around the node, every labelled edge has on its right what its predecessor has on its left. */
  ghost predicate NoConflict(labels: seq<TopologyLocation>) {
    forall i :: 0 <= i < |labels| && Labelled(labels[i]) ==>
      labels[i].right == Reached(labels, i, StartLocation(labels))
  }

  /** t with its unknown locations set to loc. */
  ghost function Filled(t: TopologyLocation, loc: Location): TopologyLocation {
    var on := if t.on == UNDEF then loc else t.on;
    match t
    case Line(_) => Line(on)
    case Area(_, left, right) => if right == UNDEF then Area(on, loc, loc) else Area(on, left, right)
  }

  /** Every edge filled with the location reached there. */
  ghost predicate Propagated(labels: seq<TopologyLocation>, result: seq<TopologyLocation>) {
    && |result| == |labels|
    && forall i :: 0 <= i < |labels| ==> result[i] == Filled(labels[i], Reached(labels, i, StartLocation(labels)))
  }

  /** Propagation that has reached edge n: the edges before it are filled, the rest is as before. */
  ghost predicate PropagatedTo(labels: seq<TopologyLocation>, result: seq<TopologyLocation>, n: nat) {
    && |result| == |labels|
    && (forall i :: 0 <= i < n && i < |labels| ==> result[i] == Filled(labels[i], Reached(labels, i, StartLocation(labels))))
    && (forall i :: n <= i < |labels| ==> result[i] == labels[i])
  }

  lemma PropagateStep(labels: seq<TopologyLocation>, result: seq<TopologyLocation>, n: nat, t: TopologyLocation)
    requires n < |labels| && PropagatedTo(labels, result, n)
    requires t == Filled(labels[n], Reached(labels, n, StartLocation(labels)))
    ensures PropagatedTo(labels, result[n := t], n + 1)
  {
  }

  lemma ReachedFirst(labels: seq<TopologyLocation>, start: Location)
    ensures Reached(labels, 0, start) == start && NoConflictUpTo(labels, 0)
  {
  }

  /** No conflict has been met before edge n. */
  ghost predicate NoConflictUpTo(labels: seq<TopologyLocation>, n: nat)
    requires n <= |labels|
  {
    forall i :: 0 <= i < n && Labelled(labels[i]) ==> labels[i].right == Reached(labels, i, StartLocation(labels))
  }

  lemma ConflictStep(labels: seq<TopologyLocation>, n: nat)
    requires n < |labels| && NoConflictUpTo(labels, n)
    ensures var clash := Labelled(labels[n]) && labels[n].right != Reached(labels, n, StartLocation(labels));
            && (clash ==> !NoConflict(labels)) && (!clash ==> NoConflictUpTo(labels, n + 1))
    ensures Reached(labels, n + 1, StartLocation(labels))
         == if Labelled(labels[n]) then labels[n].left else Reached(labels, n, StartLocation(labels))
  {
  }

  lemma PropagatedAll(labels: seq<TopologyLocation>, result: seq<TopologyLocation>)
    requires PropagatedTo(labels, result, |labels|) && NoConflictUpTo(labels, |labels|)
    ensures Propagated(labels, result) && NoConflict(labels)
  {
  }

  /** Position j holds the last area edge before position i, going round. */
  ghost predicate AreaBefore(labels: seq<TopologyLocation>, j: int, i: int) {
    && 0 <= i < |labels| && 0 <= j < |labels| && labels[j].Area?
    && if j < i then forall k :: j < k < i ==> !labels[k].Area?
       else (forall k :: j < k < |labels| ==> !labels[k].Area?) && (forall k :: 0 <= k < i ==> !labels[k].Area?)
  }

  /** Position i holds an area edge and j the area edge before it, going round. */
  ghost predicate PrecedingArea(labels: seq<TopologyLocation>, j: int, i: int) {
    AreaBefore(labels, j, i) && labels[i].Area?
  }

  lemma {:induction false} ReachedKnown(labels: seq<TopologyLocation>, i: nat, start: Location)
    requires i <= |labels| && start != UNDEF && forall k :: 0 <= k < |labels| ==> Whole(labels[k])
    ensures Reached(labels, i, start) != UNDEF
  {
    if i > 0 && !Labelled(labels[i - 1]) {
      ReachedKnown(labels, i - 1, start);
    }
  }

  /** Over a stretch without area edges the location stays. */
  lemma {:induction false} ReachedOverLines(labels: seq<TopologyLocation>, j: nat, i: nat, start: Location)
    requires j <= i <= |labels| && forall k :: j <= k < i ==> !labels[k].Area?
    ensures Reached(labels, i, start) == Reached(labels, j, start)
  {
    if j < i {
      ReachedOverLines(labels, j, i - 1, start);
    }
  }

  /** If any edge is labelled, the location reached at the end does not depend on the one at the start. */
  lemma {:induction false} ReachedEnd(labels: seq<TopologyLocation>, i: nat, start: Location)
    requires i <= |labels| && Reached(labels, i, UNDEF) != UNDEF
    ensures Reached(labels, i, start) == Reached(labels, i, UNDEF)
  {
    if !Labelled(labels[i - 1]) {
      ReachedEnd(labels, i - 1, start);
    }
  }

  // ---------- completions, and conflicts that rule them out ----------

  /** Labels filled in so that unlabelled area edges have one location on both sides, and going round,
      right sides agree with the left sides before them. */
  ghost predicate Completion(labels: seq<TopologyLocation>, result: seq<TopologyLocation>) {
    && |result| == |labels|
    && (forall i :: 0 <= i < |labels| ==> result[i].Area? == labels[i].Area?)
    && (forall i :: 0 <= i < |labels| && Labelled(labels[i]) ==>
          result[i].left == labels[i].left && result[i].right == labels[i].right)
    && (forall i :: 0 <= i < |labels| && labels[i].Area? && !Labelled(labels[i]) ==> result[i].left == result[i].right)
    && (forall i, j :: PrecedingArea(result, j, i) ==> result[i].right == result[j].left)
  }

  /** Nothing unknown is left, and no known ON location has changed. */
  ghost predicate Known(labels: seq<TopologyLocation>, result: seq<TopologyLocation>) {
    && |result| == |labels|
    && (forall i :: 0 <= i < |result| ==> result[i].on != UNDEF)
    && (forall i :: 0 <= i < |result| && result[i].Area? ==> result[i].left != UNDEF && result[i].right != UNDEF)
    && (forall i :: 0 <= i < |labels| && labels[i].on != UNDEF ==> result[i].on == labels[i].on)
  }

  lemma FilledSides(labels: seq<TopologyLocation>, result: seq<TopologyLocation>, i: nat)
    requires NoConflict(labels) && Propagated(labels, result) && i < |labels| && labels[i].Area?
    ensures result[i].Area? && result[i].right == Reached(labels, i, StartLocation(labels))
    ensures result[i].left == Reached(labels, i + 1, StartLocation(labels))
  {
  }

  lemma ReachedAround(labels: seq<TopologyLocation>, i: nat, j: nat)
    requires StartLocation(labels) != UNDEF && AreaBefore(labels, j, i)
    ensures Reached(labels, j + 1, StartLocation(labels)) == Reached(labels, i, StartLocation(labels))
  {
    var start := StartLocation(labels);
    if j < i {
      ReachedOverLines(labels, j + 1, i, start);
    } else {
      ReachedOverLines(labels, j + 1, |labels|, start);
      ReachedOverLines(labels, 0, i, start);
      ReachedEnd(labels, |labels|, start);
    }
  }

  lemma PropagationAgrees(labels: seq<TopologyLocation>, result: seq<TopologyLocation>, i: nat, j: nat)
    requires StartLocation(labels) != UNDEF && NoConflict(labels) && Propagated(labels, result)
    requires PrecedingArea(labels, j, i)
    ensures result[i].Area? && result[j].Area? && result[i].right == result[j].left
  {
    FilledSides(labels, result, i);
    FilledSides(labels, result, j);
    ReachedAround(labels, i, j);
  }

  lemma PropagationKnows(labels: seq<TopologyLocation>, result: seq<TopologyLocation>)
    requires StartLocation(labels) != UNDEF && Propagated(labels, result)
    requires forall k :: 0 <= k < |labels| ==> Whole(labels[k])
    ensures Known(labels, result)
  {
    forall i | 0 <= i < |labels|
      ensures Reached(labels, i, StartLocation(labels)) != UNDEF
    {
      ReachedKnown(labels, i, StartLocation(labels));
    }
  }

  /** Every unknown ON location has become the one on the left of the area edge before it. */
  ghost predicate OnFromLeft(labels: seq<TopologyLocation>, result: seq<TopologyLocation>) {
    && |result| == |labels|
    && forall i, j :: AreaBefore(result, j, i) && labels[i].on == UNDEF ==> result[i].on == result[j].left
  }

  lemma PropagationSetsOn(labels: seq<TopologyLocation>, result: seq<TopologyLocation>)
    requires StartLocation(labels) != UNDEF && NoConflict(labels) && Propagated(labels, result)
    ensures OnFromLeft(labels, result)
  {
    forall i, j | AreaBefore(result, j, i) && labels[i].on == UNDEF
      ensures result[i].on == result[j].left
    {
      assert AreaBefore(labels, j, i);
      FilledSides(labels, result, j);
      ReachedAround(labels, i, j);
    }
  }

  /** On labels without conflict, propagation is a completion that leaves nothing unknown, and an unknown ON location
      becomes the one on the left of the area edge before it. */
  lemma PropagationCompletes(labels: seq<TopologyLocation>, result: seq<TopologyLocation>)
    requires StartLocation(labels) != UNDEF && NoConflict(labels) && Propagated(labels, result)
    requires forall k :: 0 <= k < |labels| ==> Whole(labels[k])
    ensures Completion(labels, result) && Known(labels, result) && OnFromLeft(labels, result)
  {
    PropagationKnows(labels, result);
    PropagationSetsOn(labels, result);
    forall i, j | PrecedingArea(result, j, i)
      ensures result[i].right == result[j].left
    {
      assert PrecedingArea(labels, j, i);
      PropagationAgrees(labels, result, i, j);
    }
  }

  /** The last area edge before position i, or -1. */
  ghost function LastArea(labels: seq<TopologyLocation>, i: nat): (j: int)
    requires i <= |labels|
    ensures -1 <= j < i && (j >= 0 ==> labels[j].Area?)
    ensures forall k :: j < k < i ==> !labels[k].Area?
  {
    if i == 0 then -1
    else if labels[i - 1].Area? then i - 1
    else LastArea(labels, i - 1)
  }

  /** Left of the area edge before position i, going round. */
  ghost function LeftBefore(labels: seq<TopologyLocation>, i: nat): Location
    requires i <= |labels|
  {
    if LastArea(labels, i) >= 0 then labels[LastArea(labels, i)].left
    else if LastArea(labels, |labels|) >= 0 then labels[LastArea(labels, |labels|)].left
    else UNDEF
  }

  /** One step keeps the completion's location and the reached one equal; a labelled edge makes them so. */
  lemma CompletionStep(labels: seq<TopologyLocation>, result: seq<TopologyLocation>, i: nat, start: Location)
    requires Completion(labels, result) && i < |labels|
    requires Labelled(labels[i]) || LeftBefore(result, i) == Reached(labels, i, start)
    ensures LeftBefore(result, i + 1) == Reached(labels, i + 1, start)
  {
    if labels[i].Area? {
      var j := if LastArea(result, i) >= 0 then LastArea(result, i) else LastArea(result, |result|);
      assert PrecedingArea(result, j, i);
    }
  }

  lemma {:induction false} CompletionRun(labels: seq<TopologyLocation>, result: seq<TopologyLocation>, m: nat, i: nat, start: Location)
    requires Completion(labels, result) && m <= i <= |labels|
    requires LeftBefore(result, m) == Reached(labels, m, start)
    ensures LeftBefore(result, i) == Reached(labels, i, start)
    decreases i - m
  {
    if m < i {
      CompletionStep(labels, result, m, start);
      CompletionRun(labels, result, m + 1, i, start);
    }
  }

  /** Labels that can be completed have no conflict; so a conflict cannot be mended. */
  lemma ConflictIsReal(labels: seq<TopologyLocation>, result: seq<TopologyLocation>)
    requires Completion(labels, result)
    ensures NoConflict(labels)
  {
    var start := StartLocation(labels);
    forall i | 0 <= i < |labels| && Labelled(labels[i])
      ensures labels[i].right == Reached(labels, i, start)
    {
      CompletionStep(labels, result, i, start);
      CompletionRun(labels, result, i + 1, |labels|, start);
      ReachedAfter(labels, i, |labels|, UNDEF, start);
      assert LeftBefore(result, 0) == LeftBefore(result, |labels|) == start;
      CompletionRun(labels, result, 0, i, start);
      var j := if LastArea(result, i) >= 0 then LastArea(result, i) else LastArea(result, |result|);
      assert PrecedingArea(result, j, i);
    }
  }

  /** Past a labelled edge, what was reached before it no longer matters. */
  lemma {:induction false} ReachedAfter(labels: seq<TopologyLocation>, i: nat, n: nat, s: Location, t: Location)
    requires i < n <= |labels| && Labelled(labels[i])
    ensures Reached(labels, n, s) == Reached(labels, n, t)
  {
    if i + 1 < n {
      ReachedAfter(labels, i, n - 1, s, t);
    }
  }
}
