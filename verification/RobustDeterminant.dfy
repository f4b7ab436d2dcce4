/** The Euclid-like sign computation for a 2x2 determinant. */
module RobustDeterminant {
  import opened Coordinates
  import opened Numbers

  /** The number of times n can be divided by four before it falls below four. */
  ghost function Log4(n: nat): nat {
    if n < 4 then 0 else 1 + Log4(n / 4)
  }

  ghost function Pow4(k: nat): nat {
    if k == 0 then 1 else 4 * Pow4(k - 1)
  }

  /** The whole part of the logarithm to the base four. */
  lemma {:induction false} Log4IsLogarithm(n: nat)
    requires n > 0
    ensures Pow4(Log4(n)) <= n < Pow4(Log4(n) + 1)
  {
    if n >= 4 {
      Log4IsLogarithm(n / 4);
    }
  }

  lemma Log4Shrinks(small: nat, large: nat)
    requires 4 * small <= large
    ensures small > 0 ==> Log4(small) < Log4(large)
    ensures Log4(small) <= Log4(large)
    decreases large
  {
    if small >= 4 {
      Log4Shrinks(small / 4, large / 4);
    }
  }

  /** The sign of the determinant with rows (x1, y1) and (x2, y2). */
  function DetSign(x1: int, y1: int, x2: int, y2: int): int {
    SignOf(x1 * y2 - x2 * y1)
  }

  lemma ProductSign(a: int, b: int)
    ensures SignOf(a * b) == SignOf(a) * SignOf(b)
  {
    if a > 0 && b > 0 { assert a * b > 0; }
    if a > 0 && b < 0 { assert a * b < 0; }
    if a < 0 && b > 0 { assert a * b < 0; }
    if a < 0 && b < 0 { assert a * b > 0; }
  }

  /** A null diagonal leaves minus the other product; a null antidiagonal leaves the diagonal. */
  lemma NullEntries(x1: int, y1: int, x2: int, y2: int)
    ensures x1 == 0 || y2 == 0 ==> DetSign(x1, y1, x2, y2) == -(SignOf(x2) * SignOf(y1))
    ensures x2 == 0 || y1 == 0 ==> DetSign(x1, y1, x2, y2) == SignOf(x1) * SignOf(y2)
  {
    ProductSign(x1, y2);
    ProductSign(x2, y1);
  }

  /** Swapping the rows or negating one of them flips the sign of the determinant. */
  lemma RowSymmetry(x1: int, y1: int, x2: int, y2: int)
    ensures DetSign(x2, y2, x1, y1) == -DetSign(x1, y1, x2, y2)
    ensures DetSign(-x1, -y1, x2, y2) == -DetSign(x1, y1, x2, y2)
    ensures DetSign(x1, y1, -x2, -y2) == -DetSign(x1, y1, x2, y2)
    ensures DetSign(-x1, y1, -x2, y2) == -DetSign(x1, y1, x2, y2)
  {
  }

  /** With the y entries positive and ordered, x entries out of order decide the sign. */
  lemma LargerFirst(x1: int, y1: int, x2: int, y2: int)
    requires 0 < y1 <= y2
    ensures 0 < x1 && x2 < x1 ==> DetSign(x1, y1, x2, y2) == 1
    ensures x1 < 0 && x1 < x2 ==> DetSign(x1, y1, x2, y2) == -1
    ensures x1 < 0 < x2 ==> DetSign(x1, y1, x2, y2) == -1
  {
    if 0 < x1 && x2 < x1 {
      assert x1 * y2 >= x1 * y1 > x2 * y1;
    }
    if x1 < 0 && x1 < x2 {
      assert x1 * y2 <= x1 * y1 < x2 * y1;
    }
  }

  /** Subtracting a multiple of row 1 from row 2 keeps the sign; the mirror image flips it. */
  lemma RowReduction(x1: int, y1: int, x2: int, y2: int, k: int)
    ensures DetSign(x1, y1, x2 - k * x1, y2 - k * y1) == DetSign(x1, y1, x2, y2)
    ensures DetSign(x1, y1, x1 - x2, y1 - y2) == -DetSign(x1, y1, x2, y2)
  {
    assert x1 * (y2 - k * y1) == x1 * y2 - x1 * (k * y1);
    assert (x2 - k * x1) * y1 == x2 * y1 - (k * x1) * y1;
    assert x1 * (k * y1) == (k * x1) * y1;
    assert x1 * (y1 - y2) - (x1 - x2) * y1 == -(x1 * y2 - x2 * y1);
  }

  /** Where (u, v) lies outside the rectangle of (x1, y1), or on its border, the sign is known. */
  lemma Outside(x1: int, y1: int, u: int, v: int)
    requires 0 < x1 && 0 < y1 && 0 <= u < x1
    ensures v < 0 ==> DetSign(x1, y1, u, v) == -1
    ensures v > y1 ==> DetSign(x1, y1, u, v) == 1
    ensures x1 > u + u && y1 < v + v ==> DetSign(x1, y1, u, v) == 1
    ensures x1 <= u + u && y1 > v + v ==> DetSign(x1, y1, u, v) == -1
  {
    if v < 0 {
      assert x1 * v < 0 <= u * y1;
    }
    if v > y1 {
      assert x1 * v > x1 * y1 >= u * y1;
    }
    if x1 > u + u && y1 < v + v {
      assert x1 * (v + v) > x1 * y1 > (u + u) * y1;
    }
    if x1 <= u + u && y1 > v + v {
      assert x1 * (v + v) < x1 * y1 <= (u + u) * y1;
    }
  }

  /** The first half of a round: the exits all give the sign of the determinant they entered with. */
  lemma FirstHalf(x1: int, y1: int, x2: int, y2: int, u: int, v: int)
    requires 0 < x1 && 0 < y1
    requires u == x2 - (x2 / x1) * x1 && v == y2 - (x2 / x1) * y1
    ensures 0 <= u < x1
    ensures DetSign(x1, y1, x2, y2) == DetSign(x1, y1, u, v) == -DetSign(x1, y1, x1 - u, y1 - v)
    ensures v < 0 ==> DetSign(x1, y1, x2, y2) == -1
    ensures v > y1 ==> DetSign(x1, y1, x2, y2) == 1
    ensures x1 > u + u && y1 < v + v ==> DetSign(x1, y1, x2, y2) == 1
    ensures x1 <= u + u && y1 > v + v ==> DetSign(x1, y1, x2, y2) == -1
  {
    RowReduction(x1, y1, x2, y2, x2 / x1);
    RowReduction(x1, y1, u, v, 0);
    Outside(x1, y1, u, v);
  }

  /** The second half of a round is the first with the rows exchanged. */
  lemma SecondHalf(x1: int, y1: int, x2: int, y2: int, u: int, v: int)
    requires 0 < x2 && 0 < y2
    requires u == x1 - (x1 / x2) * x2 && v == y1 - (x1 / x2) * y2
    ensures 0 <= u < x2
    ensures DetSign(x1, y1, x2, y2) == DetSign(u, v, x2, y2) == -DetSign(x2 - u, y2 - v, x2, y2)
    ensures v < 0 ==> DetSign(x1, y1, x2, y2) == 1
    ensures v > y2 ==> DetSign(x1, y1, x2, y2) == -1
    ensures x2 > u + u && y2 < v + v ==> DetSign(x1, y1, x2, y2) == -1
    ensures x2 <= u + u && y2 > v + v ==> DetSign(x1, y1, x2, y2) == 1
  {
    FirstHalf(x2, y2, x1, y1, u, v);
    RowSwap(x1, y1, x2, y2);
    RowSwap(u, v, x2, y2);
    RowSwap(x2 - u, y2 - v, x2, y2);
  }

  lemma RowSwap(x1: int, y1: int, x2: int, y2: int)
    ensures DetSign(x2, y2, x1, y1) == -DetSign(x1, y1, x2, y2)
  {
  }

  /**
   * The Euclid-like loop, entered with both rows positive and the second row the larger.
   * `rounds` counts completed rounds: x1 shrinks at least four-fold in each.
   */
  method ReduceRows(X1: int, Y1: int, X2: int, Y2: int, s: int) returns (result: int, ghost rounds: nat)
    requires 0 < X1 <= X2 && 0 < Y1 <= Y2
    requires s == 1 || s == -1
    ensures result == s * DetSign(X1, Y1, X2, Y2)
    ensures rounds <= Log4(X1)
  {
    hide DetSign, Log4;
    var x1, y1, x2, y2, sign := X1, Y1, X2, Y2, s;
    rounds := 0;
    while true
      invariant 0 < x1 <= x2 && 0 < y1 <= y2
      invariant || (sign == s && DetSign(x1, y1, x2, y2) == DetSign(X1, Y1, X2, Y2))
                || (sign == -s && DetSign(x1, y1, x2, y2) == -DetSign(X1, Y1, X2, Y2))
      invariant rounds + Log4(x1) <= Log4(X1)
      decreases x1
    {
      ghost var x1Start, d := x1, DetSign(x1, y1, x2, y2);
      var k := x2 / x1;
      FirstHalf(x1, y1, x2, y2, x2 - k * x1, y2 - k * y1);
      x2 := x2 - k * x1;
      y2 := y2 - k * y1;

      if y2 < 0 {
        return -sign, rounds;
      }
      if y2 > y1 {
        return sign, rounds;
      }

      if x1 > x2 + x2 {
        if y1 < y2 + y2 {
          return sign, rounds;
        }
      } else {
        if y1 > y2 + y2 {
          return -sign, rounds;
        } else {
          x2 := x1 - x2;
          y2 := y1 - y2;
          sign := -sign;
        }
      }
      NullEntries(x1, y1, x2, y2);
      if y2 == 0 {
        if x2 == 0 {
          return 0, rounds;
        } else {
          return -sign, rounds;
        }
      }
      if x2 == 0 {
        return sign, rounds;
      }

      k := x1 / x2;
      SecondHalf(x1, y1, x2, y2, x1 - k * x2, y1 - k * y2);
      x1 := x1 - k * x2;
      y1 := y1 - k * y2;

      if y1 < 0 {
        return sign, rounds;
      }
      if y1 > y2 {
        return -sign, rounds;
      }

      if x2 > x1 + x1 {
        if y2 < y1 + y1 {
          return -sign, rounds;
        }
      } else {
        if y2 > y1 + y1 {
          return sign, rounds;
        } else {
          x1 := x2 - x1;
          y1 := y2 - y1;
          sign := -sign;
        }
      }
      NullEntries(x1, y1, x2, y2);
      if y1 == 0 {
        if x1 == 0 {
          return 0, rounds;
        } else {
          return sign, rounds;
        }
      }
      if x1 == 0 {
        return -sign, rounds;
      }
      Log4Shrinks(x1, x1Start);
      rounds := rounds + 1;
    }
  }

  /**
   * The sign of x1*y2 - x2*y1, computed without forming either product.
   *
   * `rounds` counts completed rounds of the loop: the magnitudes shrink at least four-fold
   * in each, so it is logarithmic in the larger of the two x entries.
   */
  method SignOfDet2x2(X1: int, Y1: int, X2: int, Y2: int) returns (result: int, ghost rounds: nat)
    ensures result == DetSign(X1, Y1, X2, Y2)
    ensures rounds <= Log4(Abs(X1)) || rounds <= Log4(Abs(X2))
  {
    hide DetSign, Log4;
    var x1, y1, x2, y2 := X1, Y1, X2, Y2;
    var sign := 1;
    rounds := 0;

    NullEntries(x1, y1, x2, y2);
    if x1 == 0 || y2 == 0 {
      if y1 == 0 || x2 == 0 {
        return 0, rounds;
      } else if y1 > 0 {
        if x2 > 0 {
          return -sign, rounds;
        } else {
          return sign, rounds;
        }
      } else {
        if x2 > 0 {
          return sign, rounds;
        } else {
          return -sign, rounds;
        }
      }
    }
    if y1 == 0 || x2 == 0 {
      if y2 > 0 {
        if x1 > 0 {
          return sign, rounds;
        } else {
          return -sign, rounds;
        }
      } else {
        if x1 > 0 {
          return -sign, rounds;
        } else {
          return sign, rounds;
        }
      }
    }

    RowSymmetry(x1, y1, x2, y2);
    RowSymmetry(x2, y2, x1, y1);
    // Make the y entries positive and y2 the larger of the two.
    if 0 < y1 {
      if 0 < y2 {
        if y1 <= y2 {
        } else {
          sign := -sign;
          x1, x2 := x2, x1;
          y1, y2 := y2, y1;
        }
      } else {
        if y1 <= -y2 {
          sign := -sign;
          x2 := -x2;
          y2 := -y2;
        } else {
          x1, x2 := -x2, x1;
          y1, y2 := -y2, y1;
        }
      }
    } else {
      if 0 < y2 {
        if -y1 <= y2 {
          sign := -sign;
          x1 := -x1;
          y1 := -y1;
        } else {
          x1, x2 := x2, -x1;
          y1, y2 := y2, -y1;
        }
      } else {
        if y1 >= y2 {
          x1, y1, x2, y2 := -x1, -y1, -x2, -y2;
        } else {
          sign := -sign;
          x1, x2 := -x2, -x1;
          y1, y2 := -y2, -y1;
        }
      }
    }
    assert 0 < y1 <= y2;
    LargerFirst(x1, y1, x2, y2);
    RowSymmetry(x1, y1, x2, y2);

    // Make the x entries positive; decide at once when |x2| < |x1|.
    if 0 < x1 {
      if 0 < x2 {
        if x1 <= x2 {
        } else {
          return sign, rounds;
        }
      } else {
        return sign, rounds;
      }
    } else {
      if 0 < x2 {
        return -sign, rounds;
      } else {
        if x1 >= x2 {
          sign := -sign;
          x1 := -x1;
          x2 := -x2;
        } else {
          return -sign, rounds;
        }
      }
    }

    result, rounds := ReduceRows(x1, y1, x2, y2, sign);
  }
}
