/**
 * Integer division as C++ defines it: the quotient is truncated toward zero and
 * the remainder takes the sign of the dividend. Dafny's own `/` and `%` are
 * Euclidean, so the C++ operators are written out here.
 */
module IntegerDivision {

  function IntAbs(a: int): nat {
    if a < 0 then -a else a
  }

  /** C++ integer division: the quotient of the magnitudes, negated when the signs differ (rounds toward zero). */
  function TruncDiv(a: int, b: int): int
    requires b != 0
  {
    if (a < 0) == (b < 0) then IntAbs(a) / IntAbs(b) else -(IntAbs(a) / IntAbs(b))
  }

  /** C++ remainder: what TruncDiv leaves over, a - b * TruncDiv(a, b). */
  function TruncRem(a: int, b: int): int
    requires b != 0
  {
    a - b * TruncDiv(a, b)
  }

  /**
   * Quotient and remainder put the dividend back together, (a / b) * b + a % b == a,
   * and the remainder is smaller than the divisor in absolute value and is zero
   * or has the sign of the dividend.
   */
  lemma {:induction false} RemainderBounds(a: int, b: int)
    requires b != 0
    ensures TruncDiv(a, b) * b + TruncRem(a, b) == a
    ensures IntAbs(TruncRem(a, b)) < IntAbs(b)
    ensures TruncRem(a, b) == 0 || ((TruncRem(a, b) < 0) == (a < 0))
  {
    var x: int, y: int := IntAbs(a), IntAbs(b);
    var q, m := x / y, x % y;
    assert x == y * q + m && 0 <= m < y;
    assert TruncDiv(a, b) * b == b * TruncDiv(a, b);
    if b < 0 {
      assert b * q == -(y * q);
    } else {
      assert b * q == y * q;
    }
    if (a < 0) == (b < 0) {
      assert TruncRem(a, b) == a - b * q;
    } else {
      assert TruncRem(a, b) == a + b * q;
    }
    assert TruncRem(a, b) == if a < 0 then -m else m;
  }

  /** Truncation toward zero: for a non-negative dividend and positive divisor it is Euclidean division; negating the dividend negates the quotient. */
  lemma {:induction false} TruncDivSymmetry(a: int, b: int)
    requires b != 0
    ensures a >= 0 && b > 0 ==> TruncDiv(a, b) == a / b
    ensures TruncDiv(-a, b) == -TruncDiv(a, b)
  {
    assert IntAbs(-a) == IntAbs(a);
    if a == 0 {
      assert TruncDiv(a, b) == 0 && TruncDiv(-a, b) == 0;
    } else {
      assert (-a < 0) != (a < 0);
    }
  }

}
