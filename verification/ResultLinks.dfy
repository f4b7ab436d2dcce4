/** The two-state machine that pairs incoming with outgoing result edges around a node. */
module ResultLinks {
  import opened Numbers

  /** Whether the outgoing edge at a place belongs to the result, and whether its incoming twin does. */
  datatype Ends = Ends(outgoing: bool, incoming: bool)

  /** The machine between two edges: the place of the incoming edge still to be linked (-1 while it scans
      for one), and the links made so far, from the place of the incoming to that of the outgoing edge. */
  datatype Machine = Machine(pending: int, links: map<int, int>)

  ghost function Run(ends: seq<Ends>, n: nat): (m: Machine)
    requires n <= |ends|
    ensures -1 <= m.pending < n
    ensures forall i :: i in m.links ==> 0 <= i < m.links[i] < n
    ensures m.pending !in m.links
  {
    if n == 0 then Machine(-1, map[])
    else
      var before := Run(ends, n - 1);
      if before.pending < 0 then
        if ends[n - 1].incoming then Machine(n - 1, before.links) else before
      else
        if ends[n - 1].outgoing then Machine(-1, before.links[before.pending := n - 1]) else before
  }

  /** The first outgoing edge among the first n, or -1. */
  ghost function FirstOut(ends: seq<Ends>, n: nat): (j: int)
    requires n <= |ends|
    ensures -1 <= j < n && (j >= 0 ==> ends[j].outgoing)
    ensures forall k :: 0 <= k < n && (j < 0 || k < j) ==> !ends[k].outgoing
  {
    if n == 0 then -1
    else if FirstOut(ends, n - 1) >= 0 then FirstOut(ends, n - 1)
    else if ends[n - 1].outgoing then n - 1
    else -1
  }

  /** One step of the machine. */
  lemma RunStep(ends: seq<Ends>, n: nat)
    requires n < |ends|
    ensures Run(ends, n).pending < 0 && !ends[n].incoming ==> Run(ends, n + 1) == Run(ends, n)
    ensures Run(ends, n).pending < 0 && ends[n].incoming ==> Run(ends, n + 1) == Machine(n, Run(ends, n).links)
    ensures Run(ends, n).pending >= 0 && !ends[n].outgoing ==> Run(ends, n + 1) == Run(ends, n)
    ensures Run(ends, n).pending >= 0 && ends[n].outgoing ==>
            Run(ends, n + 1) == Machine(-1, Run(ends, n).links[Run(ends, n).pending := n])
    ensures FirstOut(ends, n + 1) == if FirstOut(ends, n) < 0 && ends[n].outgoing then n else FirstOut(ends, n)
  {
  }

  /** The machine ends with an incoming edge to link and nothing to link it to. */
  ghost predicate Stuck(ends: seq<Ends>) {
    Run(ends, |ends|).pending >= 0 && FirstOut(ends, |ends|) < 0
  }

  /** All links, with the last incoming edge wrapped round to the first outgoing one. */
  ghost function Links(ends: seq<Ends>): map<int, int>
    requires !Stuck(ends)
  {
    var m := Run(ends, |ends|);
    if m.pending < 0 then m.links else m.links[m.pending := FirstOut(ends, |ends|)]
  }

  /** The machine is stuck exactly when there is an incoming but no outgoing result edge. */
  lemma StuckIff(ends: seq<Ends>)
    ensures Stuck(ends) <==>
            (exists i :: 0 <= i < |ends| && ends[i].incoming) && (forall i :: 0 <= i < |ends| ==> !ends[i].outgoing)
  {
    RunWithoutOut(ends, |ends|);
    if Stuck(ends) {
      PendingIsIncoming(ends, |ends|);
      assert ends[Run(ends, |ends|).pending].incoming;
    }
  }

  lemma {:induction false} PendingIsIncoming(ends: seq<Ends>, n: nat)
    requires n <= |ends|
    ensures Run(ends, n).pending >= 0 ==> ends[Run(ends, n).pending].incoming
  {
    if n > 0 {
      PendingIsIncoming(ends, n - 1);
    }
  }

  lemma {:induction false} RunWithoutOut(ends: seq<Ends>, n: nat)
    requires n <= |ends|
    ensures (forall i :: 0 <= i < n ==> !ends[i].outgoing) ==>
            (Run(ends, n).pending >= 0 <==> exists i :: 0 <= i < n && ends[i].incoming)
  {
    if n > 0 {
      RunWithoutOut(ends, n - 1);
      if i :| 0 <= i < n && ends[i].incoming {
        if i < n - 1 {
          assert exists k :: 0 <= k < n - 1 && ends[k].incoming;
        }
      }
    }
  }

  /** j holds the outgoing edge that follows place i, going round. */
  ghost predicate NextOut(ends: seq<Ends>, i: int, j: int) {
    && 0 <= i < |ends| && 0 <= j < |ends| && ends[j].outgoing
    && if i < j then forall k :: i < k < j ==> !ends[k].outgoing
       else (forall k :: i < k < |ends| ==> !ends[k].outgoing) && (forall k :: 0 <= k < j ==> !ends[k].outgoing)
  }

  lemma {:induction false} RunLinksToNext(ends: seq<Ends>, n: nat)
    requires n <= |ends|
    ensures var m := Run(ends, n);
            && (forall i :: i in m.links ==> ends[i].incoming && NextOut(ends, i, m.links[i]))
            && (m.pending >= 0 ==> ends[m.pending].incoming && forall k :: m.pending < k < n ==> !ends[k].outgoing)
  {
    if n > 0 {
      RunLinksToNext(ends, n - 1);
    }
  }

  /** Every link goes from an incoming result edge to the outgoing one that follows it, going round. */
  lemma LinksGoToNext(ends: seq<Ends>)
    requires !Stuck(ends)
    ensures forall i :: i in Links(ends) ==> 0 <= i < |ends| && ends[i].incoming && NextOut(ends, i, Links(ends)[i])
  {
    RunLinksToNext(ends, |ends|);
  }

  // ---------- the alternating case ----------

  /** Going round, incoming and outgoing result edges alternate. */
  ghost predicate Alternating(ends: seq<Ends>) {
    forall i :: 0 <= i < |ends| ==>
      && ends[i].incoming != ends[i].outgoing
      && ends[i].incoming == ends[After(i, |ends|)].outgoing
  }

  ghost predicate AlternatingState(ends: seq<Ends>, n: nat, m: Machine)
    requires n <= |ends|
  {
    && m.pending == (if n > 0 && ends[n - 1].incoming then n - 1 else -1)
    && (forall i :: i in m.links <==> 0 <= i < n - 1 && ends[i].incoming)
    && (forall i :: i in m.links ==> m.links[i] == i + 1)
  }

  lemma {:induction false} AlternatingRun(ends: seq<Ends>, n: nat)
    requires Alternating(ends) && n <= |ends|
    ensures AlternatingState(ends, n, Run(ends, n))
  {
    if n > 0 {
      AlternatingRun(ends, n - 1);
      AlternatingStep(ends, n - 1, Run(ends, n - 1), Run(ends, n));
    }
  }

  lemma AlternatingStep(ends: seq<Ends>, n: nat, before: Machine, m: Machine)
    requires Alternating(ends) && n < |ends| && AlternatingState(ends, n, before)
    requires m == if before.pending < 0 then (if ends[n].incoming then Machine(n, before.links) else before)
                  else if ends[n].outgoing then Machine(-1, before.links[before.pending := n]) else before
    ensures AlternatingState(ends, n + 1, m)
  {
    hide Alternating;
    AlternatingAt(ends, n);
    if n > 0 {
      AlternatingAt(ends, n - 1);
    }
  }

  lemma AlternatingAt(ends: seq<Ends>, i: nat)
    requires Alternating(ends) && i < |ends|
    ensures ends[i].incoming != ends[i].outgoing && ends[i].incoming == ends[After(i, |ends|)].outgoing
  {
  }

  /** When they alternate the machine is never stuck, and links each incoming edge, and no other,
      to the very next edge. */
  lemma AlternatingLinks(ends: seq<Ends>)
    requires Alternating(ends)
    ensures !Stuck(ends)
    ensures forall i :: i in Links(ends) <==> 0 <= i < |ends| && ends[i].incoming
    ensures forall i :: i in Links(ends) ==> Links(ends)[i] == After(i, |ends|)
  {
    var n := |ends|;
    AlternatingRun(ends, n);
    if n > 0 && ends[n - 1].incoming {
      assert After(n - 1, n) == 0;
      assert ends[0].outgoing;
      assert FirstOut(ends, n) == 0;
    }
  }

  /** So the links are a bijection from the incoming onto the outgoing result edges. */
  lemma AlternatingBijection(ends: seq<Ends>)
    requires Alternating(ends)
    ensures !Stuck(ends)
    ensures forall i, j :: i in Links(ends) && j in Links(ends) && Links(ends)[i] == Links(ends)[j] ==> i == j
    ensures forall j :: 0 <= j < |ends| ==> (ends[j].outgoing <==> exists i :: i in Links(ends) && Links(ends)[i] == j)
  {
    hide Links, Stuck, Alternating;
    var n := |ends|;
    AlternatingLinks(ends);
    forall j | 0 <= j < n
      ensures ends[j].outgoing <==> exists i :: i in Links(ends) && Links(ends)[i] == j
    {
      var i := if j > 0 then j - 1 else n - 1;
      assert After(i, n) == j;
      AlternatingAt(ends, i);
      if ends[j].outgoing {
        assert i in Links(ends) && Links(ends)[i] == j;
      }
      if k :| k in Links(ends) && Links(ends)[k] == j {
        AlternatingAt(ends, k);
      }
    }
  }
}
