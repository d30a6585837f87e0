/**
 * The arithmetic operators of BigInteger (BigInteger/big_integer.cpp:91-314):
 * schoolbook addition, subtraction, multiplication and long division over
 * base-1000 limbs, and the compound and increment operators built on them.
 *
 * Every operator that builds a fresh result is specified against plain integer
 * arithmetic: its result is `Canonical` of the mathematical value.
 */
module BigArithmetic {
  import opened LimbArithmetic
  import opened Results
  import opened BigIntegers
  import opened IntegerDivision

  /**
   * The tail every operator shares: store the limbs and the sign in a fresh
   * BigInteger, pop the zero limbs off the top, and clear the sign of a zero.
   */
  method Normalize(res: seq<int>, negative: bool) returns (b: BigInt)
    requires |res| >= 1 && AllLimbs(res)
    ensures Magnitude(res) >= 0
    ensures b == BigInt(Limbs(Magnitude(res)), negative && Magnitude(res) != 0)
  {
    MagnitudeBounds(res);
    var result := new BigInteger();
    result.digits := res;
    result.isNegative := negative;
    result.RemoveLeadingZeros();
    LimbsUnique(result.digits);
    if IsZero(result.Snapshot()) {
      result.isNegative := false;
    }
    b := result.Snapshot();
  }

  /**
   * The loop of operator+ for operands of the same sign: limb-wise sum with a
   * carry of 0 or 1, run until both operands are consumed and no carry is left.
   */
  method SumLimbs(l: BigInt, r: BigInt) returns (res: seq<int>)
    requires Valid(l) && Valid(r)
    ensures |res| == |l.digits| + |r.digits| + 1 && AllLimbs(res)
    ensures Magnitude(res) == Magnitude(l.digits) + Magnitude(r.digits)
  {
    res := seq(|l.digits| + |r.digits| + 1, _ => 0);
    var size := Max(|l.digits|, |r.digits|);
    var carry := 0;
    var i := 0;
    MagnitudeOfZeros(res);
    while i < size || carry != 0
      invariant 0 <= i <= size + 1
      invariant carry == 0 || carry == 1
      invariant i == size + 1 ==> carry == 0
      invariant |res| == |l.digits| + |r.digits| + 1
      invariant forall k :: 0 <= k < i ==> IsLimb(res[k])
      invariant forall k :: i <= k < |res| ==> res[k] == 0
      invariant Magnitude(res) + carry * Scale(i) == MagnitudeBelow(l.digits, i) + MagnitudeBelow(r.digits, i)
      decreases size + 1 - i
    {
      var lDigit := if i < |l.digits| then l.digits[i] else 0;
      var rDigit := if i < |r.digits| then r.digits[i] else 0;
      var partSum := lDigit + rDigit + carry;
      ghost var oldCarry := carry;
      if partSum >= Divider {
        partSum := partSum - Divider;
        carry := 1;
      } else {
        carry := 0;
      }
      CarryRound(res, i, partSum, oldCarry, carry, l.digits, r.digits);
      res := res[i := partSum];
      i := i + 1;
    }
  }

  /**
   * The loop of operator+ for operands of different signs: the limbs of the
   * operand with the smaller magnitude are subtracted from those of the other,
   * with a borrow of 0 or 1; which operand is larger is asked again each round.
   */
  method DiffLimbs(l: BigInt, r: BigInt) returns (res: seq<int>)
    requires Valid(l) && Valid(r)
    ensures |res| == |l.digits| + |r.digits| + 1 && AllLimbs(res)
    ensures Magnitude(res) == if Magnitude(r.digits) >= Magnitude(l.digits)
                              then Magnitude(r.digits) - Magnitude(l.digits)
                              else Magnitude(l.digits) - Magnitude(r.digits)
  {
    res := seq(|l.digits| + |r.digits| + 1, _ => 0);
    var size := Max(|l.digits|, |r.digits|);
    var carry := 0;
    var i := 0;
    ghost var rBig := Magnitude(r.digits) >= Magnitude(l.digits);
    ghost var big := if rBig then r.digits else l.digits;
    ghost var small := if rBig then l.digits else r.digits;
    MagnitudeOfZeros(res);
    while i < size || carry != 0
      invariant 0 <= i <= size
      invariant carry == 0 || carry == 1
      invariant i == size ==> carry == 0
      invariant |res| == |l.digits| + |r.digits| + 1
      invariant forall k :: 0 <= k < i ==> IsLimb(res[k])
      invariant forall k :: i <= k < |res| ==> res[k] == 0
      invariant Magnitude(res) - carry * Scale(i) == MagnitudeBelow(big, i) - MagnitudeBelow(small, i)
      decreases size - i
    {
      ghost var oldCarry := carry;
      var partSum;
      partSum, carry := DiffRound(l, r, i, carry);
      BorrowRound(res, i, partSum, oldCarry, carry, big, small);
      res := res[i := partSum];
      i := i + 1;
      if i == size {
        DiffSettles(res, i, carry, big, small);
      }
    }
  }

  /**
   * One round of the borrowing loop: limb i of the larger magnitude minus limb i
   * of the smaller and the borrow, brought back into [0, 1000) with a new borrow.
   */
  method DiffRound(l: BigInt, r: BigInt, i: nat, carry: int) returns (partSum: int, borrow: int)
    requires Valid(l) && Valid(r) && (carry == 0 || carry == 1)
    ensures IsLimb(partSum) && (borrow == 0 || borrow == 1)
    ensures Magnitude(r.digits) >= Magnitude(l.digits) ==>
              partSum - Divider * borrow == Digit(r.digits, i) - Digit(l.digits, i) - carry
    ensures Magnitude(r.digits) < Magnitude(l.digits) ==>
              partSum - Divider * borrow == Digit(l.digits, i) - Digit(r.digits, i) - carry
  {
    var lDigit := if i < |l.digits| then l.digits[i] else 0;
    var rDigit := if i < |r.digits| then r.digits[i] else 0;
    var rAbs := Abs(r);
    var lAbs := Abs(l);
    var rLarger := GreaterOrEqual(rAbs, lAbs);
    if rLarger {
      partSum := rDigit - lDigit - carry;
    } else {
      partSum := lDigit - rDigit - carry;
    }
    if partSum < 0 {
      partSum := partSum + Divider;
      borrow := 1;
    } else {
      borrow := 0;
    }
  }

  /** One round of the carrying sum keeps `sum + carry * Scale(i)` equal to the sum of the operands below i. */
  lemma {:induction false} CarryStep(m: int, c: int, s: int, a: int, b: int, x: int, y: int, p: int, c2: int)
    requires m + c * s == a + b
    requires p + Divider * c2 == x + y + c
    ensures (m + p * s) + c2 * (Divider * s) == (a + x * s) + (b + y * s)
  {
    calc {
      (m + p * s) + c2 * (Divider * s);
      m + (p + Divider * c2) * s;
      m + (x + y + c) * s;
    }
  }

  /** Storing the limb of one carrying round at position i keeps the loop equation of SumLimbs. */
  lemma CarryRound(res: seq<int>, i: nat, p: int, c: int, c2: int, a: seq<int>, b: seq<int>)
    requires i < |res| && res[i] == 0
    requires Magnitude(res) + c * Scale(i) == MagnitudeBelow(a, i) + MagnitudeBelow(b, i)
    requires p + Divider * c2 == Digit(a, i) + Digit(b, i) + c
    ensures Magnitude(res[i := p]) + c2 * Scale(i + 1) == MagnitudeBelow(a, i + 1) + MagnitudeBelow(b, i + 1)
  {
    MagnitudeUpdate(res, i, p);
    MagnitudeBelowStep(a, i);
    MagnitudeBelowStep(b, i);
    CarryStep(Magnitude(res), c, Scale(i), MagnitudeBelow(a, i), MagnitudeBelow(b, i), Digit(a, i), Digit(b, i), p, c2);
  }

  /** Storing the limb of one borrowing round at position i keeps the loop equation of DiffLimbs. */
  lemma BorrowRound(res: seq<int>, i: nat, p: int, c: int, c2: int, big: seq<int>, small: seq<int>)
    requires i < |res| && res[i] == 0
    requires Magnitude(res) - c * Scale(i) == MagnitudeBelow(big, i) - MagnitudeBelow(small, i)
    requires p - Divider * c2 == Digit(big, i) - Digit(small, i) - c
    ensures Magnitude(res[i := p]) - c2 * Scale(i + 1) == MagnitudeBelow(big, i + 1) - MagnitudeBelow(small, i + 1)
  {
    MagnitudeUpdate(res, i, p);
    MagnitudeBelowStep(big, i);
    MagnitudeBelowStep(small, i);
    BorrowStep(Magnitude(res), c, Scale(i), MagnitudeBelow(big, i), MagnitudeBelow(small, i),
               Digit(big, i), Digit(small, i), p, c2);
  }

  /** One round of the borrowing difference keeps `difference - borrow * Scale(i)` equal to big minus small below i. */
  lemma {:induction false} BorrowStep(m: int, c: int, s: int, a: int, b: int, x: int, y: int, p: int, c2: int)
    requires m - c * s == a - b
    requires p - Divider * c2 == x - y - c
    ensures (m + p * s) - c2 * (Divider * s) == (a + x * s) - (b + y * s)
  {
    calc {
      (m + p * s) - c2 * (Divider * s);
      m + (p - Divider * c2) * s;
      m + (x - y - c) * s;
    }
  }

  /** At the top of the longer operand the difference of magnitudes leaves no borrow. */
  lemma {:induction false} DiffSettles(res: seq<int>, i: nat, carry: int, big: seq<int>, small: seq<int>)
    requires i <= |res| && |big| <= i && |small| <= i
    requires forall k :: 0 <= k < i ==> IsLimb(res[k])
    requires forall k :: i <= k < |res| ==> res[k] == 0
    requires carry == 0 || carry == 1
    requires Magnitude(big) >= Magnitude(small)
    requires Magnitude(res) - carry * Scale(i) == MagnitudeBelow(big, i) - MagnitudeBelow(small, i)
    ensures carry == 0
  {
    MagnitudeZeroTail(res, i);
    MagnitudeBounds(res[..i]);
  }

  /**
   * operator+: the same-sign branch adds magnitudes and keeps the sign; the
   * other branch subtracts the smaller magnitude from the larger and takes the
   * sign of the larger operand. Either way a zero result is non-negative.
   */
  method Add(l: BigInt, r: BigInt) returns (sum: BigInt)
    requires Valid(l) && Valid(r)
    ensures sum == Canonical(Value(l) + Value(r))
  {
    if l.isNegative == r.isNegative {
      var res := SumLimbs(l, r);
      sum := Normalize(res, l.isNegative);
      CanonicalFromParts(sum.digits, sum.isNegative, Value(l) + Value(r));
      return;
    }
    var rAbs := Abs(r);
    var lAbs := Abs(l);
    var negative;
    if l.isNegative {
      negative := Less(r, lAbs);
    } else {
      negative := Less(l, rAbs);
    }
    var res := DiffLimbs(l, r);
    sum := Normalize(res, negative);
    CanonicalFromParts(sum.digits, sum.isNegative, Value(l) + Value(r));
  }

  /** operator-: l + (-r). */
  method Sub(l: BigInt, r: BigInt) returns (difference: BigInt)
    requires Valid(l) && Valid(r)
    ensures difference == Canonical(Value(l) - Value(r))
  {
    difference := Add(l, Neg(r));
  }

  /**
   * One pass of the inner loop of operator*: limb i of l times every limb of r,
   * added into the result from position i on, with a carry below 1000 that is
   * pushed on until it is used up.
   */
  method MulRow(l: BigInt, r: BigInt, i: nat, res: seq<int>) returns (next: seq<int>)
    requires Valid(l) && Valid(r) && i < |l.digits|
    requires |res| == |l.digits| + |r.digits| + 1 && AllLimbs(res)
    requires forall k :: i + |r.digits| <= k < |res| ==> res[k] == 0
    requires Magnitude(res) == MagnitudeBelow(l.digits, i) * Magnitude(r.digits)
    ensures |next| == |res| && AllLimbs(next)
    ensures forall k :: i + 1 + |r.digits| <= k < |next| ==> next[k] == 0
    ensures Magnitude(next) == MagnitudeBelow(l.digits, i + 1) * Magnitude(r.digits)
  {
    next := res;
    var lDigit := if i < |l.digits| then l.digits[i] else 0;
    var carry := 0;
    var j := 0;
    while j < |r.digits| || carry != 0
      invariant 0 <= j <= |r.digits| + 1
      invariant 0 <= carry < Divider
      invariant j == |r.digits| + 1 ==> carry == 0
      invariant |next| == |res| && AllLimbs(next)
      invariant forall k :: i + 1 + |r.digits| <= k < |next| ==> next[k] == 0
      invariant j <= |r.digits| ==> next[i + |r.digits|] == 0
      invariant Magnitude(next) + carry * Scale(i + j)
             == MagnitudeBelow(l.digits, i) * Magnitude(r.digits) + lDigit * MagnitudeBelow(r.digits, j) * Scale(i)
      decreases |r.digits| + 1 - j
    {
      var rDigit := if j < |r.digits| then r.digits[j] else 0;
      LimbProduct(lDigit, rDigit);
      var partMult := lDigit * rDigit + carry;
      var total := next[j + i] + partMult;
      ghost var oldCarry := carry;
      if total >= Divider {
        LimbSplit(total);
        carry := total / Divider;
        total := total % Divider;
      } else {
        carry := 0;
      }
      MulRound(next, i, j, total, oldCarry, carry, lDigit, r.digits, MagnitudeBelow(l.digits, i) * Magnitude(r.digits));
      next := next[j + i := total];
      j := j + 1;
    }
    MagnitudeBelowStep(l.digits, i);
    assert MagnitudeBelow(r.digits, j) == Magnitude(r.digits);
    RowDone(MagnitudeBelow(l.digits, i), Magnitude(r.digits), lDigit, Scale(i));
  }

  /** A product of two limbs is at most 999 * 999, so a limb plus a product plus a carry below 1000 stays below a million. */
  lemma {:induction false} LimbProduct(x: int, y: int)
    requires IsLimb(x) && IsLimb(y)
    ensures 0 <= x * y <= (Divider - 1) * (Divider - 1)
  {
    var m := Divider - 1;
    MulMonotone(x, 0, y);
    MulMonotone(x, y, m);
    MulMonotone(m, x, m);
    assert x * m == m * x;
  }

  /** One round of the inner multiplication loop keeps its magnitude equation. */
  lemma {:induction false} MulStep(m: int, c: int, s: int, si: int, sj: int, a: int, ld: int, rd: int, b: int,
                                   before: int, t: int, c2: int)
    requires m + c * s == a + ld * b * si
    requires t + Divider * c2 == before + ld * rd + c
    requires s == si * sj
    ensures (m + (t - before) * s) + c2 * (Divider * s) == a + ld * (b + rd * sj) * si
  {
    calc {
      (m + (t - before) * s) + c2 * (Divider * s);
      m + (t + Divider * c2 - before) * s;
      m + (ld * rd + c) * s;
      m + c * s + ld * rd * s;
      a + ld * b * si + ld * rd * (si * sj);
      { assert ld * rd * (si * sj) == ld * (rd * sj) * si; }
      a + ld * b * si + ld * (rd * sj) * si;
      a + ld * (b + rd * sj) * si;
    }
  }

  /** Storing the limb of one round of the row at position i + j keeps the loop equation of MulRow. */
  lemma MulRound(next: seq<int>, i: nat, j: nat, t: int, c: int, c2: int, ld: int, rd: seq<int>, below: int)
    requires i + j < |next|
    requires Magnitude(next) + c * Scale(i + j) == below + ld * MagnitudeBelow(rd, j) * Scale(i)
    requires t + Divider * c2 == next[i + j] + ld * Digit(rd, j) + c
    ensures Magnitude(next[i + j := t]) + c2 * Scale(i + j + 1) == below + ld * MagnitudeBelow(rd, j + 1) * Scale(i)
  {
    MagnitudeUpdate(next, i + j, t);
    MagnitudeBelowStep(rd, j);
    ScaleAdd(i, j);
    MulStep(Magnitude(next), c, Scale(i + j), Scale(i), Scale(j), below, ld, Digit(rd, j),
            MagnitudeBelow(rd, j), next[i + j], t, c2);
  }

  /** A sum below 1000 * 1000 splits into a limb and a carry that is itself below 1000. */
  lemma LimbSplit(total: int)
    requires 0 <= total < Divider * Divider
    ensures total == total % Divider + Divider * (total / Divider)
    ensures IsLimb(total % Divider) && 0 <= total / Divider < Divider
  {
  }

  /** After a full row the partial product has grown by one limb of l. */
  lemma {:induction false} RowDone(below: int, rm: int, ld: int, si: int)
    ensures below * rm + ld * rm * si == (below + ld * si) * rm
  {
  }

  /**
   * operator*: the rows of the schoolbook product, one per limb of l, then the
   * shared tail; the sign flag is set when exactly one operand is negative.
   */
  method Mul(l: BigInt, r: BigInt) returns (product: BigInt)
    requires Valid(l) && Valid(r)
    ensures product == Canonical(Value(l) * Value(r))
  {
    var res := seq(|l.digits| + |r.digits| + 1, _ => 0);
    var negative := if l.isNegative then !r.isNegative else r.isNegative;
    MagnitudeOfZeros(res);
    var i := 0;
    while i < |l.digits|
      invariant 0 <= i <= |l.digits|
      invariant |res| == |l.digits| + |r.digits| + 1 && AllLimbs(res)
      invariant forall k :: i + |r.digits| <= k < |res| ==> res[k] == 0
      invariant Magnitude(res) == MagnitudeBelow(l.digits, i) * Magnitude(r.digits)
    {
      res := MulRow(l, r, i, res);
      i := i + 1;
    }
    product := Normalize(res, negative);
    SignedProduct(l, r);
    MagnitudeBounds(l.digits);
    MagnitudeBounds(r.digits);
    ProductOfNaturals(Magnitude(l.digits), Magnitude(r.digits));
    CanonicalFromParts(product.digits, product.isNegative, Value(l) * Value(r));
  }

  /** A product of values is the product of magnitudes, negated when exactly one sign flag is set. */
  lemma {:induction false} SignedProduct(l: BigInt, r: BigInt)
    ensures Value(l) * Value(r) == if l.isNegative != r.isNegative
                                   then -(Magnitude(l.digits) * Magnitude(r.digits))
                                   else Magnitude(l.digits) * Magnitude(r.digits)
  {
    var a, b := Magnitude(l.digits), Magnitude(r.digits);
    if l.isNegative && r.isNegative {
      assert (-a) * (-b) == a * b;
    } else if l.isNegative {
      assert (-a) * b == -(a * b);
    } else if r.isNegative {
      assert a * (-b) == -(a * b);
    }
  }

  lemma {:induction false} ProductOfNaturals(a: int, b: int)
    requires a >= 0 && b >= 0
    ensures a * b >= 0 && (a * b == 0 <==> a == 0 || b == 0)
  {
    if a > 0 && b > 0 {
      MulMonotone(a, 1, b);
    }
  }

  /** A quotient and remainder with the remainder in [0, d) are the Euclidean ones. */
  lemma {:induction false} DivisionUnique(a: int, q: int, d: int, c: int)
    requires d > 0 && 0 <= c < d && a == q * d + c
    ensures q == a / d && c == a % d
  {
    var q2, c2 := a / d, a % d;
    assert (q - q2) * d == c2 - c;
    if q > q2 {
      MulMonotone(d, 1, q - q2);
    } else if q < q2 {
      MulMonotone(d, 1, q2 - q);
    }
  }

  /**
   * The binary search of operator/: the largest x in [0, 1000] whose multiple
   * divisor * x does not exceed current, each probe built with the int
   * constructor and operator* and compared with operator<=.
   */
  method QuotientLimb(divisor: BigInt, current: BigInt) returns (x: int)
    requires Valid(divisor) && Valid(current) && !divisor.isNegative && !current.isNegative
    requires Magnitude(divisor.digits) > 0
    ensures 0 <= x <= Divider
    ensures Magnitude(divisor.digits) * x <= Magnitude(current.digits)
    ensures x < Divider ==> Magnitude(current.digits) < Magnitude(divisor.digits) * (x + 1)
  {
    ghost var d, c := Magnitude(divisor.digits), Magnitude(current.digits);
    MagnitudeBounds(current.digits);
    x := 0;
    var left := 0;
    var right := Divider;
    while left <= right
      invariant 0 <= left <= right + 1 <= Divider + 1
      invariant d * x <= c
      invariant left > 0 ==> x == left - 1
      invariant left == 0 ==> x == 0
      invariant right < Divider ==> c < d * (right + 1)
      decreases right - left + 1
    {
      var mid := (left + right) / 2;
      var midInt := FromInt(mid);
      var midValue := Mul(divisor, midInt);
      var fits := LessOrEqual(midValue, current);
      if fits {
        x := mid;
        left := mid + 1;
      } else {
        right := mid - 1;
      }
    }
  }

  /** One limb of long division: bringing down limb `digit` and taking x multiples of d off keeps the division identity. */
  lemma {:induction false} LongDivisionStep(a: int, q: int, d: int, c: int, digit: int, x: int, c2: int)
    requires a == q * d + c
    requires digit + Divider * c == x * d + c2
    ensures digit + Divider * a == (x + Divider * q) * d + c2
  {
  }

  /** The division identity moves down one limb when quotient limb x is stored at position i. */
  lemma {:induction false} DivisionLoopStep(dd: seq<int>, res: seq<int>, i: nat, x: int, d: int, high: int, low: int)
    requires i < |dd| && |res| == |dd|
    requires Magnitude(dd[i + 1..]) == Magnitude(res[i + 1..]) * d + high
    requires dd[i] + Divider * high == x * d + low
    ensures Magnitude(dd[i..]) == Magnitude(res[i := x][i..]) * d + low
  {
    var next := res[i := x];
    assert dd[i..][1..] == dd[i + 1..];
    assert next[i..][1..] == res[i + 1..];
    assert Magnitude(dd[i..]) == dd[i] + Divider * Magnitude(dd[i + 1..]);
    assert Magnitude(next[i..]) == x + Divider * Magnitude(res[i + 1..]);
    LongDivisionStep(Magnitude(dd[i + 1..]), Magnitude(res[i + 1..]), d, high, dd[i], x, low);
  }

  /**
   * One round of the loop of operator/: limb `digit` of the dividend is put in
   * front of `current`, the binary search picks the quotient limb x, and x
   * multiples of the divisor are subtracted from `current`.
   */
  method DivisionRound(divisor: BigInt, current: BigInteger, digit: int) returns (x: int)
    requires Valid(divisor) && !divisor.isNegative && Magnitude(divisor.digits) > 0 && IsLimb(digit)
    requires !current.isNegative && (current.digits == [] || Normalized(current.digits))
    requires 0 <= Magnitude(current.digits) < Magnitude(divisor.digits)
    modifies current
    ensures IsLimb(x)
    ensures !current.isNegative && Normalized(current.digits)
    ensures 0 <= Magnitude(current.digits) < Magnitude(divisor.digits)
    ensures digit + Divider * old(Magnitude(current.digits)) == x * Magnitude(divisor.digits) + Magnitude(current.digits)
  {
    ghost var d := Magnitude(divisor.digits);
    ghost var high := Magnitude(current.digits);
    assert ([digit] + current.digits)[1..] == current.digits;
    current.digits := [digit] + current.digits;
    current.RemoveLeadingZeros();
    ghost var brought := Magnitude(current.digits);
    assert brought < Divider * d by {
      MulMonotone(Divider, high, d - 1);
    }
    x := QuotientLimb(divisor, current.Snapshot());
    assert x < Divider;
    SubtractMultiple(divisor, current, x);
  }

  /** The last statement of a round of operator/: current = current - divisor * BigInteger(x). */
  method SubtractMultiple(divisor: BigInt, current: BigInteger, x: int)
    requires Valid(divisor) && !divisor.isNegative && IsLimb(x)
    requires Valid(current.Snapshot()) && !current.isNegative
    modifies current
    ensures current.Snapshot() == Canonical(Value(old(current.Snapshot())) - Value(divisor) * x)
  {
    var xInt := FromInt(x);
    var taken := Mul(divisor, xInt);
    var rest := Sub(current.Snapshot(), taken);
    current.digits := rest.digits;
    current.isNegative := rest.isNegative;
  }

  /**
   * operator/: DivisionByZero for a zero divisor; otherwise schoolbook long
   * division of the magnitudes from the top limb down, with the sign flag set
   * when the operands' flags differ and cleared on a zero quotient.
   */
  method Div(l: BigInt, r: BigInt) returns (q: Result<BigInt, Error>)
    requires Valid(l) && Valid(r)
    ensures q.Err? <==> IsZero(r)
    ensures q.Err? ==> q.error == DivisionByZero
    ensures q.Ok? ==> Value(r) != 0 && q.value == Canonical(TruncDiv(Value(l), Value(r)))
  {
    if IsZero(r) {
      return Err(DivisionByZero);
    }
    var dividend := Abs(l);
    var divisor := Abs(r);
    MagnitudeBounds(r.digits);
    var res, rem := LongDivision(dividend, divisor);
    var quotient := Normalize(res, l.isNegative != r.isNegative);
    QuotientCanonical(l, r, Magnitude(res), rem);
    return Ok(quotient);
  }

  /**
   * The loop of operator/: brings the dividend's limbs down from the top into
   * `current` and stores one quotient limb per position, so that the limbs
   * times the divisor plus what is left in `current` rebuild the dividend.
   */
  method LongDivision(dividend: BigInt, divisor: BigInt) returns (res: seq<int>, ghost rem: int)
    requires Valid(dividend) && Valid(divisor) && !divisor.isNegative && Magnitude(divisor.digits) > 0
    ensures |res| == |dividend.digits| && AllLimbs(res)
    ensures 0 <= rem < Magnitude(divisor.digits)
    ensures Magnitude(dividend.digits) == Magnitude(res) * Magnitude(divisor.digits) + rem
  {
    var n := |dividend.digits|;
    ghost var d := Magnitude(divisor.digits);
    res := seq(n, _ => 0);
    var current := new BigInteger();
    current.digits := [];
    var i := n - 1;
    while i >= 0
      invariant -1 <= i < n && |res| == n
      invariant forall k :: i < k < n ==> IsLimb(res[k])
      invariant !current.isNegative
      invariant current.digits == [] || Normalized(current.digits)
      invariant 0 <= Magnitude(current.digits) < d
      invariant Magnitude(dividend.digits[i + 1..]) == Magnitude(res[i + 1..]) * d + Magnitude(current.digits)
    {
      ghost var high := Magnitude(current.digits);
      var x := DivisionRound(divisor, current, dividend.digits[i]);
      DivisionLoopStep(dividend.digits, res, i, x, d, high, Magnitude(current.digits));
      res := res[i := x];
      i := i - 1;
    }
    rem := Magnitude(current.digits);
    assert i + 1 == 0;
    assert res[0..] == res && dividend.digits[0..] == dividend.digits;
  }

  /** Limbs m and a remainder below the divisor that rebuild the dividend make, with the flags' sign, the truncated quotient. */
  lemma {:induction false} QuotientCanonical(l: BigInt, r: BigInt, m: int, rem: int)
    requires Valid(l) && Valid(r) && !IsZero(r)
    requires m >= 0 && 0 <= rem < Magnitude(r.digits)
    requires Magnitude(l.digits) == m * Magnitude(r.digits) + rem
    ensures Value(r) != 0
    ensures BigInt(Limbs(m), l.isNegative != r.isNegative && m != 0) == Canonical(TruncDiv(Value(l), Value(r)))
  {
    MagnitudeBounds(r.digits);
    DivisionUnique(Magnitude(l.digits), m, Magnitude(r.digits), rem);
    QuotientSign(l, r);
    var t := TruncDiv(Value(l), Value(r));
    assert IntAbs(t) == m;
    assert (t < 0) == (l.isNegative != r.isNegative && m != 0);
  }

  /** The truncated quotient of two values is the quotient of the magnitudes, negative iff the flags differ and it is not zero. */
  lemma {:induction false} QuotientSign(l: BigInt, r: BigInt)
    requires Valid(l) && Valid(r) && Value(r) != 0
    ensures Magnitude(l.digits) >= 0 && Magnitude(r.digits) > 0
    ensures IntAbs(TruncDiv(Value(l), Value(r))) == Magnitude(l.digits) / Magnitude(r.digits)
    ensures (TruncDiv(Value(l), Value(r)) < 0)
        == (l.isNegative != r.isNegative && Magnitude(l.digits) / Magnitude(r.digits) != 0)
  {
    MagnitudeBounds(l.digits);
    MagnitudeBounds(r.digits);
    var a, b := Magnitude(l.digits), Magnitude(r.digits);
    assert IntAbs(Value(l)) == a && IntAbs(Value(r)) == b;
    if a / b != 0 {
      assert a > 0;
    }
  }

  /** operator%: l - (l / r) * r, so it fails exactly when the division does. */
  method Mod(l: BigInt, r: BigInt) returns (m: Result<BigInt, Error>)
    requires Valid(l) && Valid(r)
    ensures m.Err? <==> IsZero(r)
    ensures m.Err? ==> m.error == DivisionByZero
    ensures m.Ok? ==> Value(r) != 0 && m.value == Canonical(TruncRem(Value(l), Value(r)))
  {
    var q := Div(l, r);
    if q.Err? {
      return Err(q.error);
    }
    var product := Mul(q.value, r);
    var rest := Sub(l, product);
    RemainderValue(Value(l), Value(r), Value(q.value), Value(product));
    return Ok(rest);
  }

  /** What operator% computes from the quotient is the truncated remainder. */
  lemma {:induction false} RemainderValue(a: int, b: int, t: int, p: int)
    requires b != 0 && t == TruncDiv(a, b) && p == t * b
    ensures a - p == TruncRem(a, b)
  {
    assert t * b == b * t;
  }

  /** operator+(BigInteger, int): the int goes through the int constructor. */
  method AddInt(l: BigInt, r: int) returns (sum: BigInt)
    requires Valid(l) && -0x8000_0000 <= r < 0x8000_0000
    ensures sum == Canonical(Value(l) + r)
  {
    var right := FromInt(r);
    sum := Add(l, right);
  }

  /** operator-(BigInteger, int). */
  method SubInt(l: BigInt, r: int) returns (difference: BigInt)
    requires Valid(l) && -0x8000_0000 <= r < 0x8000_0000
    ensures difference == Canonical(Value(l) - r)
  {
    var right := FromInt(r);
    difference := Sub(l, right);
  }

  /** operator*(BigInteger, int). */
  method MulInt(l: BigInt, r: int) returns (product: BigInt)
    requires Valid(l) && -0x8000_0000 <= r < 0x8000_0000
    ensures product == Canonical(Value(l) * r)
  {
    var right := FromInt(r);
    product := Mul(l, right);
  }

  /** operator+(int, BigInteger). */
  method IntAdd(l: int, r: BigInt) returns (sum: BigInt)
    requires -0x8000_0000 <= l < 0x8000_0000 && Valid(r)
    ensures sum == Canonical(l + Value(r))
  {
    var left := FromInt(l);
    sum := Add(left, r);
  }

  /** operator-(int, BigInteger). */
  method IntSub(l: int, r: BigInt) returns (difference: BigInt)
    requires -0x8000_0000 <= l < 0x8000_0000 && Valid(r)
    ensures difference == Canonical(l - Value(r))
  {
    var left := FromInt(l);
    difference := Sub(left, r);
  }

  /** operator*(int, BigInteger). */
  method IntMul(l: int, r: BigInt) returns (product: BigInt)
    requires -0x8000_0000 <= l < 0x8000_0000 && Valid(r)
    ensures product == Canonical(l * Value(r))
  {
    var left := FromInt(l);
    product := Mul(left, r);
  }

  /** operator+=: the object is reassigned the sum. */
  method AddAssign(l: BigInteger, r: BigInt)
    requires l.Invariant() && Valid(r)
    modifies l
    ensures l.Snapshot() == Canonical(Value(old(l.Snapshot())) + Value(r))
  {
    var sum := Add(l.Snapshot(), r);
    l.digits, l.isNegative := sum.digits, sum.isNegative;
  }

  /** operator-=. */
  method SubAssign(l: BigInteger, r: BigInt)
    requires l.Invariant() && Valid(r)
    modifies l
    ensures l.Snapshot() == Canonical(Value(old(l.Snapshot())) - Value(r))
  {
    var difference := Sub(l.Snapshot(), r);
    l.digits, l.isNegative := difference.digits, difference.isNegative;
  }

  /** operator*=. */
  method MulAssign(l: BigInteger, r: BigInt)
    requires l.Invariant() && Valid(r)
    modifies l
    ensures l.Snapshot() == Canonical(Value(old(l.Snapshot())) * Value(r))
  {
    var product := Mul(l.Snapshot(), r);
    l.digits, l.isNegative := product.digits, product.isNegative;
  }

  /** operator/=: on a zero divisor the exception leaves the object as it was. */
  method DivAssign(l: BigInteger, r: BigInt) returns (outcome: Outcome<Error>)
    requires l.Invariant() && Valid(r)
    modifies l
    ensures outcome.Fail? <==> IsZero(r)
    ensures outcome.Fail? ==> outcome.error == DivisionByZero && l.Snapshot() == old(l.Snapshot())
    ensures outcome.Pass? ==> Value(r) != 0 && l.Snapshot() == Canonical(TruncDiv(Value(old(l.Snapshot())), Value(r)))
  {
    var q := Div(l.Snapshot(), r);
    if q.Err? {
      return Fail(q.error);
    }
    l.digits, l.isNegative := q.value.digits, q.value.isNegative;
    return Pass;
  }

  /** operator%=: on a zero divisor the exception leaves the object as it was. */
  method ModAssign(l: BigInteger, r: BigInt) returns (outcome: Outcome<Error>)
    requires l.Invariant() && Valid(r)
    modifies l
    ensures outcome.Fail? <==> IsZero(r)
    ensures outcome.Fail? ==> outcome.error == DivisionByZero && l.Snapshot() == old(l.Snapshot())
    ensures outcome.Pass? ==> Value(r) != 0 && l.Snapshot() == Canonical(TruncRem(Value(old(l.Snapshot())), Value(r)))
  {
    var m := Mod(l.Snapshot(), r);
    if m.Err? {
      return Fail(m.error);
    }
    l.digits, l.isNegative := m.value.digits, m.value.isNegative;
    return Pass;
  }

  /** operator+=(BigInteger, int). */
  method AddAssignInt(l: BigInteger, r: int)
    requires l.Invariant() && -0x8000_0000 <= r < 0x8000_0000
    modifies l
    ensures l.Snapshot() == Canonical(Value(old(l.Snapshot())) + r)
  {
    var right := FromInt(r);
    AddAssign(l, right);
  }

  /** operator-=(BigInteger, int). */
  method SubAssignInt(l: BigInteger, r: int)
    requires l.Invariant() && -0x8000_0000 <= r < 0x8000_0000
    modifies l
    ensures l.Snapshot() == Canonical(Value(old(l.Snapshot())) - r)
  {
    var right := FromInt(r);
    SubAssign(l, right);
  }

  /** operator*=(BigInteger, int). */
  method MulAssignInt(l: BigInteger, r: int)
    requires l.Invariant() && -0x8000_0000 <= r < 0x8000_0000
    modifies l
    ensures l.Snapshot() == Canonical(Value(old(l.Snapshot())) * r)
  {
    var right := FromInt(r);
    MulAssign(l, right);
  }

  /** operator+=(int, BigInteger): the BigInteger on the right is the one updated. */
  method IntAddAssign(l: int, r: BigInteger)
    requires -0x8000_0000 <= l < 0x8000_0000 && r.Invariant()
    modifies r
    ensures r.Snapshot() == Canonical(Value(old(r.Snapshot())) + l)
  {
    var left := FromInt(l);
    AddAssign(r, left);
  }

  /** operator-=(int, BigInteger): the int is subtracted from the BigInteger, which is the one updated. */
  method IntSubAssign(l: int, r: BigInteger)
    requires -0x8000_0000 <= l < 0x8000_0000 && r.Invariant()
    modifies r
    ensures r.Snapshot() == Canonical(Value(old(r.Snapshot())) - l)
  {
    var left := FromInt(l);
    SubAssign(r, left);
  }

  /** operator*=(int, BigInteger): the BigInteger on the right is the one updated. */
  method IntMulAssign(l: int, r: BigInteger)
    requires -0x8000_0000 <= l < 0x8000_0000 && r.Invariant()
    modifies r
    ensures r.Snapshot() == Canonical(Value(old(r.Snapshot())) * l)
  {
    var left := FromInt(l);
    MulAssign(r, left);
  }

  /** Prefix operator++: *this += 1. */
  method PreIncrement(self: BigInteger)
    requires self.Invariant()
    modifies self
    ensures self.Snapshot() == Canonical(Value(old(self.Snapshot())) + 1)
  {
    AddAssignInt(self, 1);
  }

  /** Postfix operator++: increments and returns the value before. */
  method PostIncrement(self: BigInteger) returns (before: BigInt)
    requires self.Invariant()
    modifies self
    ensures before == old(self.Snapshot())
    ensures self.Snapshot() == Canonical(Value(before) + 1)
  {
    before := self.Snapshot();
    PreIncrement(self);
  }

  /** Prefix operator--: *this -= 1. */
  method PreDecrement(self: BigInteger)
    requires self.Invariant()
    modifies self
    ensures self.Snapshot() == Canonical(Value(old(self.Snapshot())) - 1)
  {
    SubAssignInt(self, 1);
  }

  /** Postfix operator--: decrements and returns the value before. */
  method PostDecrement(self: BigInteger) returns (before: BigInt)
    requires self.Invariant()
    modifies self
    ensures before == old(self.Snapshot())
    ensures self.Snapshot() == Canonical(Value(before) - 1)
  {
    before := self.Snapshot();
    PreDecrement(self);
  }

  /** base raised to a natural exponent. */
  function IntPow(base: int, exponent: nat): int {
    if exponent == 0 then 1 else base * IntPow(base, exponent - 1)
  }

  lemma {:induction false} IntPowStep(base: int, n: nat)
    ensures IntPow(base, n + 1) == IntPow(base, n) * base
  {
    assert IntPow(base, n + 1) == base * IntPow(base, n);
  }

  /**
   * Pow: 1 for a zero power (of either sign); otherwise the base is multiplied
   * into a copy of itself while a counter running from 2 stays <= power. A
   * negative power stops the loop at once, so it and the power 1 return the
   * base unchanged.
   */
  method Pow(base: BigInt, power: BigInt) returns (result: BigInt)
    requires Valid(base) && Valid(power)
    ensures IsZero(power) ==> result == Canonical(1)
    ensures !IsZero(power) && (power.isNegative || Value(power) == 1) ==> result == base
    ensures Value(power) >= 2 ==> result == Canonical(IntPow(Value(base), Value(power)))
  {
    if IsZero(power) {
      result := FromInt64(1);
      return;
    }
    MagnitudeBounds(power.digits);
    result := base;
    var counter := new BigInteger();
    var two := FromInt64(2);
    counter.digits, counter.isNegative := two.digits, two.isNegative;
    var go := LessOrEqual(counter.Snapshot(), power);
    ghost var k: int := 2;
    while go
      invariant counter.Invariant() && !counter.isNegative && k == Value(counter.Snapshot())
      invariant 2 <= k && (k == 2 || (!power.isNegative && k <= Value(power) + 1))
      invariant go <==> !power.isNegative && k <= Value(power)
      invariant Valid(result) && Value(result) == IntPow(Value(base), k - 1)
      invariant k > 2 ==> result == Canonical(Value(result))
      invariant k == 2 ==> result == base
      decreases Value(power) - k
    {
      result := Mul(result, base);
      IntPowStep(Value(base), k - 1);
      PreIncrement(counter);
      k := k + 1;
      go := LessOrEqual(counter.Snapshot(), power);
    }
  }
}
