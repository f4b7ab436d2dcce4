/** Coordinate lists read as paths and rings, and sums taken over their segments. */
module Paths {
  import opened Coordinates

  /** A ring is a path that ends where it began. */
  predicate IsClosed(path: seq<Coordinate>) {
    path != [] ==> path[0] == path[|path| - 1]
  }

  /** The sum of f over the segments of the path. */
  ghost function PathSum(f: (Coordinate, Coordinate) -> int, path: seq<Coordinate>): int {
    if |path| < 2 then 0
    else PathSum(f, path[..|path| - 1]) + f(path[|path| - 2], path[|path| - 1])
  }

  ghost function Reversed(path: seq<Coordinate>): (r: seq<Coordinate>)
    ensures |r| == |path|
    ensures forall i :: 0 <= i < |path| ==> r[i] == path[|path| - 1 - i]
  {
    if path == [] then [] else [path[|path| - 1]] + Reversed(path[..|path| - 1])
  }

  /** The closed path that starts at vertex k instead of vertex 0. */
  ghost function StartingAt(path: seq<Coordinate>, k: nat): seq<Coordinate>
    requires k < |path|
  {
    path[k..] + path[1..k + 1]
  }

  /** A path cut at a shared vertex sums to the sum of its two parts. */
  lemma {:induction false} PathSumJoin(f: (Coordinate, Coordinate) -> int, a: seq<Coordinate>, b: seq<Coordinate>)
    requires a != [] && b != [] && a[|a| - 1] == b[0]
    ensures PathSum(f, a + b[1..]) == PathSum(f, a) + PathSum(f, b)
    decreases |b|
  {
    var joined := a + b[1..];
    if |b| == 1 {
      assert joined == a;
    } else {
      var b' := b[..|b| - 1];
      assert joined[..|joined| - 1] == a + b'[1..];
      assert joined[|joined| - 2] == b[|b| - 2];
      PathSumJoin(f, a, b');
    }
  }

  lemma {:induction false} PathSumReversed(f: (Coordinate, Coordinate) -> int, g: (Coordinate, Coordinate) -> int,
                                           path: seq<Coordinate>)
    requires forall a, b :: g(a, b) == f(b, a)
    ensures PathSum(f, Reversed(path)) == PathSum(g, path)
  {
    var n := |path|;
    if n >= 2 {
      var front := path[..n - 1];
      PathSumReversed(f, g, front);
      var head := [path[n - 1], path[n - 2]];
      assert Reversed(path) == head + Reversed(front)[1..];
      PathSumJoin(f, head, Reversed(front));
      assert head[..1] == [path[n - 1]];
      assert PathSum(f, head) == f(path[n - 1], path[n - 2]);
    }
  }

  lemma PathSumStartingAt(f: (Coordinate, Coordinate) -> int, ring: seq<Coordinate>, k: nat)
    requires IsClosed(ring) && k < |ring|
    ensures PathSum(f, StartingAt(ring, k)) == PathSum(f, ring)
    ensures IsClosed(StartingAt(ring, k))
  {
    hide PathSum;
    var head, tail := ring[..k + 1], ring[k..];
    PathSumJoin(f, head, tail);
    PathSumJoin(f, tail, head);
    RingParts(ring, k);
  }

  lemma RingParts(ring: seq<Coordinate>, k: nat)
    requires IsClosed(ring) && k < |ring|
    ensures ring[..k + 1] + ring[k..][1..] == ring
    ensures ring[k..] + ring[..k + 1][1..] == StartingAt(ring, k)
    ensures IsClosed(StartingAt(ring, k))
  {
  }

  /** Sums of pointwise sums. */
  lemma {:induction false} PathSumAdd(f: (Coordinate, Coordinate) -> int, g: (Coordinate, Coordinate) -> int,
                                      h: (Coordinate, Coordinate) -> int, path: seq<Coordinate>)
    requires forall i :: 0 < i < |path| ==>
      h(path[i - 1], path[i]) == f(path[i - 1], path[i]) + g(path[i - 1], path[i])
    ensures PathSum(h, path) == PathSum(f, path) + PathSum(g, path)
  {
    if |path| >= 2 {
      var front := path[..|path| - 1];
      forall i | 0 < i < |front|
        ensures h(front[i - 1], front[i]) == f(front[i - 1], front[i]) + g(front[i - 1], front[i])
      {
        assert front[i - 1] == path[i - 1] && front[i] == path[i];
      }
      PathSumAdd(f, g, h, front);
    }
  }

  /** A sum of indicators is positive iff some segment has the indicated property. */
  lemma {:induction false} PathSumPositive(f: (Coordinate, Coordinate) -> int, path: seq<Coordinate>)
    requires forall a, b :: f(a, b) >= 0
    ensures PathSum(f, path) >= 0
    ensures PathSum(f, path) > 0 <==> exists i :: 0 < i < |path| && f(path[i - 1], path[i]) > 0
  {
    if |path| >= 2 {
      var front := path[..|path| - 1];
      PathSumPositive(f, front);
      if exists i :: 0 < i < |front| && f(front[i - 1], front[i]) > 0 {
        var i :| 0 < i < |front| && f(front[i - 1], front[i]) > 0;
        assert f(path[i - 1], path[i]) > 0;
      }
      forall i | 0 < i < |path| && f(path[i - 1], path[i]) > 0
        ensures PathSum(f, path) > 0
      {
        if i < |front| {
          assert f(front[i - 1], front[i]) > 0;
        }
      }
    }
  }
}
