/** std::set and std::map keys as strictly sorted sequences under a caller-given comparator. */
module OrderedSets {

  /** What the C++ containers demand of a comparator, on the elements that can be stored. */
  ghost predicate StrictWeakOrder<T>(less: (T, T) -> bool, dom: set<T>) {
    && (forall a :: a in dom ==> !less(a, a))
    && (forall a, b, c :: a in dom && b in dom && c in dom && less(a, b) && less(b, c) ==> less(a, c))
    && (forall a, b, c :: a in dom && b in dom && c in dom && !less(a, b) && !less(b, c) ==> !less(a, c))
  }

  ghost function Elements<T>(s: seq<T>): set<T> {
    set x | x in s
  }

  /** Neither comes first: the container treats a and b as the same key. */
  predicate Equivalent<T>(less: (T, T) -> bool, a: T, b: T) {
    !less(a, b) && !less(b, a)
  }

  ghost predicate Sorted<T>(less: (T, T) -> bool, s: seq<T>) {
    forall i, j :: 0 <= i < j < |s| ==> less(s[i], s[j])
  }

  /** Inserts x unless an equivalent element is already present. */
  function Insert<T>(less: (T, T) -> bool, s: seq<T>, x: T): (r: seq<T>)
    ensures forall y :: y in r ==> y in s || y == x
    ensures forall y :: y in s ==> y in r
    ensures x in r || exists y :: y in s && Equivalent(less, x, y)
  {
    if s == [] then [x]
    else if less(x, s[0]) then [x] + s
    else if less(s[0], x) then [s[0]] + Insert(less, s[1..], x)
    else assert Equivalent(less, x, s[0]); s
  }

  lemma {:induction false} InsertKeepsSorted<T>(less: (T, T) -> bool, s: seq<T>, x: T)
    requires StrictWeakOrder(less, Elements(s) + {x}) && Sorted(less, s)
    ensures Sorted(less, Insert(less, s, x))
    ensures (exists y :: y in s && Equivalent(less, x, y)) <==> Insert(less, s, x) == s
  {
    if s == [] {
    } else if less(x, s[0]) {
      AllAfter(less, s, x);
      assert |Insert(less, s, x)| != |s|;
    } else if less(s[0], x) {
      var rest := s[1..];
      assert s == [s[0]] + rest;
      InsertKeepsSorted(less, rest, x);
      HeadFirst(less, s[0], Insert(less, rest, x), rest, x);
      assert !Equivalent(less, x, s[0]);
    }
  }

  /** What comes before the first element comes before all. */
  lemma AllAfter<T>(less: (T, T) -> bool, s: seq<T>, x: T)
    requires StrictWeakOrder(less, Elements(s) + {x}) && Sorted(less, s) && s != [] && less(x, s[0])
    ensures Sorted(less, [x] + s) && forall y :: y in s ==> less(x, y)
  {
    forall j | 0 <= j < |s|
      ensures less(x, s[j])
    {
      assert s[j] in Elements(s);
    }
  }

  lemma HeadFirst<T>(less: (T, T) -> bool, head: T, r: seq<T>, rest: seq<T>, x: T)
    requires Sorted(less, r) && Sorted(less, [head] + rest) && less(head, x)
    requires forall y :: y in r ==> y in rest || y == x
    ensures Sorted(less, [head] + r)
  {
    forall j | 0 <= j < |r|
      ensures less(head, r[j])
    {
      assert r[j] in r;
      if r[j] != x {
        var k :| 0 <= k < |rest| && rest[k] == r[j];
        assert less(([head] + rest)[0], ([head] + rest)[k + 1]);
      }
    }
  }
}
