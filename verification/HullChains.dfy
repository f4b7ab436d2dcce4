/** Chains of points that never turn left about their first, lowest point: what the Graham scan keeps
    on its stack, and what cleaning such a chain leaves. */
module HullChains {
  import opened Coordinates
  import opened HullGeometry

  /** Points in strict radial order about s[0], no three of which, taken in order, turn left. */
  ghost predicate Chain(s: seq<Coordinate>) {
    s != [] && RadialOrder(s) && NoLeftTurns(s)
  }

  ghost predicate RadialOrder(s: seq<Coordinate>) {
    && (forall i, j :: 0 < i < j < |s| ==> Precedes(s[0], s[i], s[j]))
    && (forall i :: 0 < i < |s| ==> Above(s[0], s[i]) && s[i] != s[0])
  }

  ghost predicate NoLeftTurns(s: seq<Coordinate>) {
    forall i, j, k :: 0 <= i < j < k < |s| ==> Cross(s[i], s[j], s[k]) <= 0
  }

  ghost predicate Distinct(s: seq<Coordinate>) {
    forall i, j :: 0 <= i < j < |s| ==> s[i] != s[j]
  }

  lemma ChainDistinct(s: seq<Coordinate>)
    requires RadialOrder(s)
    ensures Distinct(s)
  {
    forall i, j | 0 <= i < j < |s|
      ensures s[i] != s[j]
    {
      if i > 0 {
        assert Precedes(s[0], s[i], s[j]);
      }
    }
  }

  lemma ChainPrefix(s: seq<Coordinate>, n: nat)
    requires Chain(s) && 0 < n <= |s|
    ensures Chain(s[..n])
  {
  }

  /** Chain points on the ray of a later chain point share it with all points before them. */
  lemma RayFromStart(s: seq<Coordinate>, i: nat, j: nat, k: nat)
    requires Chain(s) && 0 < i <= j < k < |s| && Cross(s[0], s[j], s[k]) == 0
    ensures Cross(s[0], s[i], s[k]) == 0 && (i < j ==> Cross(s[0], s[i], s[j]) == 0)
  {
    if i < j {
      RayPropagates(s[0], s[i], s[j], s[k]);
    }
  }

  /** A point that makes no left turn at the top makes none with any two chain points. */
  lemma NoLeftTurnAnywhere(s: seq<Coordinate>, r: Coordinate, i: nat, j: nat)
    requires Chain(s) && |s| >= 2
    requires forall k :: 0 < k < |s| ==> Precedes(s[0], s[k], r)
    requires Cross(s[|s| - 2], s[|s| - 1], r) <= 0
    requires i < j < |s|
    ensures Cross(s[i], s[j], r) <= 0
    decreases |s| - j
  {
    var top := |s| - 1;
    var o, a, b := s[0], s[top - 1], s[top];
    if i == 0 {
      assert Precedes(o, s[j], r);
    } else if j == top {
      if i < top - 1 {
        assert Precedes(o, a, b) && Precedes(o, s[i], b) && Precedes(o, b, r);
        if Cross(o, a, b) < 0 {
          TurnPastTop(o, s[i], a, b, r);
        } else {
          RayFromStart(s, i, top - 1, top);
          SameRayTurn(o, s[i], b, r);
        }
      }
    } else {
      NoLeftTurnAnywhere(s, r, j, top);
      assert Precedes(o, s[i], s[j]) && Precedes(o, s[j], b) && Precedes(o, s[j], r);
      if Cross(o, s[j], b) < 0 {
        TurnBelowTop(o, s[i], s[j], b, r);
      } else {
        RayFromStart(s, i, j, top);
        SameRayTurn(o, s[i], s[j], r);
      }
    }
  }

  lemma ExtendChain(s: seq<Coordinate>, r: Coordinate)
    requires Chain(s) && |s| >= 2
    requires forall k :: 0 < k < |s| ==> Precedes(s[0], s[k], r)
    requires Cross(s[|s| - 2], s[|s| - 1], r) <= 0
    ensures Chain(s + [r])
  {
    var t := s + [r];
    forall i, j, k | 0 <= i < j < k < |t|
      ensures Cross(t[i], t[j], t[k]) <= 0
    {
      if k == |s| {
        NoLeftTurnAnywhere(s, r, i, j);
      }
    }
    assert Precedes(s[0], s[1], r);
  }

  // ---------- cleaning ----------

  /** ConvexHull::isBetween: c2 is on the line of c1 and c3, and between them. */
  predicate IsBetween(c1: Coordinate, c2: Coordinate, c3: Coordinate) {
    && Cross(c1, c2, c3) == 0
    && (  (c1.x != c3.x && (c1.x <= c2.x <= c3.x || c3.x <= c2.x <= c1.x))
       || (c1.y != c3.y && (c1.y <= c2.y <= c3.y || c3.y <= c2.y <= c1.y)))
  }

  lemma BetweenIsSpanned(c1: Coordinate, c2: Coordinate, c3: Coordinate)
    requires IsBetween(c1, c2, c3)
    ensures Spans({c1, c3}, {c2})
  {
    forall h | Holds(h, {c1, c3})
      ensures Holds(h, {c2})
    {
      var e1, e2, e3 := Excess(h, c1), Excess(h, c2), Excess(h, c3);
      var u, v, w, z := c2.x - c1.x, c3.x - c2.x, c2.y - c1.y, c3.y - c2.y;
      assert e2 == e1 + h.a * u + h.b * w && e3 == e2 + h.a * v + h.b * z;
      LineCombination(h.a, h.b, u, v, w, z, e1, e2, e3);
      LineCombination(h.b, h.a, w, z, u, v, e1, e2, e3);
      Product(v, e1); Product(u, e3); Product(u + v, e2);
      Product(z, e1); Product(w, e3); Product(w + z, e2);
    }
  }

  lemma LineCombination(a: int, b: int, u: int, v: int, w: int, z: int, e1: int, e2: int, e3: int)
    requires e2 == e1 + a * u + b * w && e3 == e2 + a * v + b * z && u * z == v * w
    ensures (u + v) * e2 == v * e1 + u * e3
  {
    assert v * e1 == v * e2 - v * (a * u) - b * (v * w);
    assert u * e3 == u * e2 + u * (a * v) + b * (u * z);
  }

  /** Collinear chain points lie between their neighbours. */
  lemma CollinearIsBetween(s: seq<Coordinate>, i: nat, j: nat, k: nat)
    requires Chain(s) && i < j < k < |s| && Cross(s[i], s[j], s[k]) == 0
    ensures IsBetween(s[i], s[j], s[k])
  {
    var o, x, p, q := s[0], s[i], s[j], s[k];
    assert Precedes(o, p, q);
    if i == 0 {
      RayIsBetween(o, p, q);
    } else {
      assert Precedes(o, x, p) && Precedes(o, x, q);
      CollinearInOrder(o, x, p, q);
    }
  }

  lemma RayIsBetween(o: Coordinate, p: Coordinate, q: Coordinate)
    requires Precedes(o, p, q) && Cross(o, p, q) == 0
    ensures IsBetween(o, p, q)
    ensures (o.x <= p.x <= q.x || q.x <= p.x <= o.x) && (o.y <= p.y <= q.y || q.y <= p.y <= o.y)
  {
    var n, d := SameRayPoints(o, p, q);
    Between(n - d, d, o.x, p.x, q.x);
    Between(n - d, d, o.y, p.y, q.y);
  }

  lemma CollinearInOrder(o: Coordinate, x: Coordinate, p: Coordinate, q: Coordinate)
    requires Precedes(o, x, p) && Precedes(o, p, q) && Precedes(o, x, q) && Cross(x, p, q) == 0
    ensures IsBetween(x, p, q)
  {
    PrecedesDistinct(o, x, q);
    if Cross(o, p, q) + Cross(o, x, p) < 0 {
      WeightedBetween(o, x, p, q);
    } else {
      RayIsBetween(o, p, q);
      RayIsBetween(o, x, p);
      SameRayBetween(o.x, x.x, p.x, q.x);
      SameRayBetween(o.y, x.y, p.y, q.y);
    }
  }

  lemma PrecedesDistinct(o: Coordinate, x: Coordinate, q: Coordinate)
    requires Precedes(o, x, q)
    ensures x != q
  {
    assert PolarCompare(o, x, x) == 0;
  }

  lemma WeightedBetween(o: Coordinate, x: Coordinate, p: Coordinate, q: Coordinate)
    requires Cross(o, p, q) <= 0 && Cross(o, x, p) <= 0 && Cross(o, p, q) + Cross(o, x, p) < 0 && Cross(x, p, q) == 0
    ensures (x.x <= p.x <= q.x || q.x <= p.x <= x.x) && (x.y <= p.y <= q.y || q.y <= p.y <= x.y)
  {
    var alpha, beta := -Cross(o, p, q), -Cross(o, x, p);
    Affine(HalfPlane(1, 0, 0), o, x, p, q);
    Affine(HalfPlane(0, 1, 0), o, x, p, q);
    Between(alpha, beta, x.x, p.x, q.x);
    Between(alpha, beta, x.y, p.y, q.y);
  }

  lemma SameRayBetween(o: int, x: int, p: int, q: int)
    requires (o <= x <= p || p <= x <= o) && (o <= p <= q || q <= p <= o)
    ensures x <= p <= q || q <= p <= x
  {
  }

  /** p of the ray from o to q, nearer than q: n*(p - o) == d*(q - o). */
  lemma SameRayPoints(o: Coordinate, p: Coordinate, q: Coordinate) returns (n: int, d: int)
    requires Precedes(o, p, q) && Cross(o, p, q) == 0
    ensures 0 < d < n
    ensures n * p.x == (n - d) * o.x + d * q.x
    ensures n * p.y == (n - d) * o.y + d * q.y
  {
    VectorCross(o, p, q);
    n, d := SameRay(p.x - o.x, p.y - o.y, q.x - o.x, q.y - o.y);
  }

  lemma Between(alpha: int, beta: int, a: int, m: int, b: int)
    requires alpha >= 0 && beta >= 0 && alpha + beta > 0
    requires (alpha + beta) * m == alpha * a + beta * b
    ensures a <= m <= b || b <= m <= a
  {
    assert alpha * (m - a) == beta * (b - m);
    Product(alpha, m - a);
    Product(beta, b - m);
    Product(-beta, b - m);
  }

  /** What `CleanRing` has pushed after looking at the first n points of the ring. */
  ghost function CleanPrefix(ring: seq<Coordinate>, n: nat): seq<Coordinate>
    requires n < |ring|
  {
    if n == 0 then []
    else
      var cleaned := CleanPrefix(ring, n - 1);
      if ring[n - 1] == ring[n] then cleaned
      else if cleaned != [] && IsBetween(cleaned[|cleaned| - 1], ring[n - 1], ring[n]) then cleaned
      else cleaned + [ring[n - 1]]
  }

  ghost function Cleaned(ring: seq<Coordinate>): seq<Coordinate>
    requires ring != []
  {
    CleanPrefix(ring, |ring| - 1) + [ring[|ring| - 1]]
  }

  /** p is a combination of a and b. */
  ghost predicate Within(a: Coordinate, b: Coordinate, p: Coordinate) {
    Spans({a, b}, {p})
  }

  /** c holds the chain points at the increasing positions `kept`, starting with position 0. */
  ghost predicate Picks(s: seq<Coordinate>, n: nat, c: seq<Coordinate>, kept: seq<int>) {
    && |kept| == |c| > 0 && kept[0] == 0
    && (forall j :: 0 <= j < |c| ==> 0 <= kept[j] < n <= |s| && c[j] == s[kept[j]])
    && (forall i, j :: 0 <= i < j < |c| ==> kept[i] < kept[j])
  }

  /** The chain points skipped between two picked ones are combinations of these. */
  ghost predicate NoneLost(s: seq<Coordinate>, n: nat, c: seq<Coordinate>, kept: seq<int>)
    requires Picks(s, n, c, kept)
  {
    forall j, t :: 0 < j < |c| && kept[j - 1] <= t <= kept[j] ==> Within(c[j - 1], c[j], s[t])
  }

  /** The chain points after the last picked one lead straight to s[n]. */
  ghost predicate Leading(s: seq<Coordinate>, n: nat, last: Coordinate, from: nat) {
    n < |s| && forall t :: from <= t <= n ==> Within(last, s[n], s[t])
  }

  /** Each picked inner point was picked for the right turn the chain takes there. */
  ghost predicate RightTurns(s: seq<Coordinate>, n: nat, c: seq<Coordinate>, kept: seq<int>)
    requires Picks(s, n, c, kept)
  {
    n < |s| && forall j :: 0 < j < |c| ==> Cross(c[j - 1], c[j], s[kept[j] + 1]) < 0
  }

  ghost predicate CleanedSoFar(s: seq<Coordinate>, n: nat, c: seq<Coordinate>, kept: seq<int>) {
    && Picks(s, n, c, kept)
    && NoneLost(s, n, c, kept)
    && Leading(s, n, c[|c| - 1], kept[|c| - 1])
    && RightTurns(s, n, c, kept)
  }

  lemma SpansThrough(a: Coordinate, m: Coordinate, b: Coordinate, p: Coordinate)
    requires Spans({a, m}, {p}) && Spans({a, b}, {m})
    ensures Spans({a, b}, {p})
  {
    forall h | Holds(h, {a, b})
      ensures Holds(h, {p})
    {
      assert Holds(h, {m});
      assert Holds(h, {a, m});
    }
  }

  lemma CleanedSkip(s: seq<Coordinate>, n: nat, c: seq<Coordinate>, kept: seq<int>)
    requires CleanedSoFar(s, n, c, kept) && n + 1 < |s|
    requires Within(c[|c| - 1], s[n + 1], s[n])
    ensures CleanedSoFar(s, n + 1, c, kept)
  {
    var last := c[|c| - 1];
    forall t | kept[|c| - 1] <= t <= n + 1
      ensures Within(last, s[n + 1], s[t])
    {
      if t <= n {
        SpansThrough(last, s[n], s[n + 1], s[t]);
      }
    }
  }

  lemma PicksPush(s: seq<Coordinate>, n: nat, c: seq<Coordinate>, kept: seq<int>)
    requires Picks(s, n, c, kept) && n + 1 < |s|
    ensures Picks(s, n + 1, c + [s[n]], kept + [n])
  {
  }

  lemma NoneLostPush(s: seq<Coordinate>, n: nat, c: seq<Coordinate>, kept: seq<int>)
    requires Picks(s, n, c, kept) && NoneLost(s, n, c, kept) && Leading(s, n, c[|c| - 1], kept[|c| - 1]) && n + 1 < |s|
    requires Picks(s, n + 1, c + [s[n]], kept + [n])
    ensures NoneLost(s, n + 1, c + [s[n]], kept + [n])
  {
    var d, kept' := c + [s[n]], kept + [n];
    forall j, t | 0 < j < |d| && kept'[j - 1] <= t <= kept'[j]
      ensures Within(d[j - 1], d[j], s[t])
    {
      if j < |c| {
        assert Within(c[j - 1], c[j], s[t]);
      }
    }
  }

  lemma RightTurnsPush(s: seq<Coordinate>, n: nat, c: seq<Coordinate>, kept: seq<int>)
    requires Picks(s, n, c, kept) && RightTurns(s, n, c, kept) && n + 1 < |s|
    requires Picks(s, n + 1, c + [s[n]], kept + [n])
    requires Cross(c[|c| - 1], s[n], s[n + 1]) < 0
    ensures RightTurns(s, n + 1, c + [s[n]], kept + [n])
  {
    var d, kept' := c + [s[n]], kept + [n];
    forall j | 0 < j < |d|
      ensures Cross(d[j - 1], d[j], s[kept'[j] + 1]) < 0
    {
      if j < |c| {
        assert Cross(c[j - 1], c[j], s[kept[j] + 1]) < 0;
      }
    }
  }

  lemma CleanedPush(s: seq<Coordinate>, n: nat, c: seq<Coordinate>, kept: seq<int>)
    requires CleanedSoFar(s, n, c, kept) && n + 1 < |s|
    requires Cross(c[|c| - 1], s[n], s[n + 1]) < 0
    ensures CleanedSoFar(s, n + 1, c + [s[n]], kept + [n])
  {
    PicksPush(s, n, c, kept);
    NoneLostPush(s, n, c, kept);
    RightTurnsPush(s, n, c, kept);
    assert Leading(s, n + 1, s[n], n);
  }

  /** What the cleaner does with chain point n, once it has seen the points before it. */
  lemma CleanStep(s: seq<Coordinate>, n: nat, last: nat)
    requires Chain(s) && last < n && n + 1 < |s|
    ensures s[n] != s[n + 1]
    ensures IsBetween(s[last], s[n], s[n + 1]) ==> Within(s[last], s[n + 1], s[n])
    ensures !IsBetween(s[last], s[n], s[n + 1]) ==> Cross(s[last], s[n], s[n + 1]) < 0
  {
    assert Precedes(s[0], s[n], s[n + 1]);
    assert PolarCompare(s[0], s[n], s[n]) == 0;
    if IsBetween(s[last], s[n], s[n + 1]) {
      BetweenIsSpanned(s[last], s[n], s[n + 1]);
    } else if Cross(s[last], s[n], s[n + 1]) == 0 {
      CollinearIsBetween(s, last, n, n + 1);
    }
  }

  lemma CleanBase(s: seq<Coordinate>)
    requires |s| > 1
    ensures CleanedSoFar(s, 1, [s[0]], [0])
  {
  }

  /** One step of the cleaner, as a fact about `CleanPrefix`. */
  lemma CleanPrefixStep(s: seq<Coordinate>, n: nat, c: seq<Coordinate>)
    requires n + 1 < |s| && s[n] != s[n + 1]
    requires c == CleanPrefix(s + [s[0]], n)
    ensures c != [] && IsBetween(c[|c| - 1], s[n], s[n + 1]) ==> CleanPrefix(s + [s[0]], n + 1) == c
    ensures c == [] || !IsBetween(c[|c| - 1], s[n], s[n + 1]) ==> CleanPrefix(s + [s[0]], n + 1) == c + [s[n]]
  {
    var ring := s + [s[0]];
    assert ring[n] == s[n] && ring[n + 1] == s[n + 1];
  }

  lemma CleanChainStep(s: seq<Coordinate>, n: nat, c0: seq<Coordinate>, kept0: seq<int>)
      returns (c: seq<Coordinate>, kept: seq<int>)
    requires Chain(s) && CleanedSoFar(s, n, c0, kept0) && n + 1 < |s|
    requires c0 == CleanPrefix(s + [s[0]], n)
    ensures CleanedSoFar(s, n + 1, c, kept)
    ensures c == CleanPrefix(s + [s[0]], n + 1)
  {
    CleanStep(s, n, kept0[|c0| - 1]);
    CleanPrefixStep(s, n, c0);
    if IsBetween(c0[|c0| - 1], s[n], s[n + 1]) {
      CleanedSkip(s, n, c0, kept0);
      c, kept := c0, kept0;
    } else {
      CleanedPush(s, n, c0, kept0);
      c, kept := c0 + [s[n]], kept0 + [n];
    }
  }

  lemma {:induction false} CleanChainPrefix(s: seq<Coordinate>, n: nat) returns (c: seq<Coordinate>, kept: seq<int>)
    requires Chain(s) && 0 < n < |s|
    ensures CleanedSoFar(s, n, c, kept)
    ensures c == CleanPrefix(s + [s[0]], n)
  {
    if n == 1 {
      c, kept := [s[0]], [0];
      CleanBase(s);
      CleanFirst(s);
    } else {
      hide *;
      c, kept := CleanChainPrefix(s, n - 1);
      c, kept := CleanChainStep(s, n - 1, c, kept);
    }
  }

  lemma CleanFirst(s: seq<Coordinate>)
    requires Chain(s) && |s| > 1
    ensures CleanPrefix(s + [s[0]], 1) == [s[0]]
  {
    hide RadialOrder, NoLeftTurns, Chain;
    ChainStartsApart(s);
    CleanPrefixStep(s, 0, []);
  }

  lemma ChainStartsApart(s: seq<Coordinate>)
    requires Chain(s) && |s| > 1
    ensures s[0] != s[1]
  {
  }
}
