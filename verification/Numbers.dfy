/** Small functions on integers that several components use. */
module Numbers {

  function Abs(a: int): nat {
    if a < 0 then -a else a
  }

  function Min(a: int, b: int): int {
    if a < b then a else b
  }

  function Max(a: int, b: int): int {
    if a > b then a else b
  }

  /** The place after place i, going round n places. */
  function After(i: nat, n: nat): (j: nat)
    ensures n > 0 ==> j < n
  {
    if i + 1 < n then i + 1 else 0
  }
}
