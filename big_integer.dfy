/**
 * A signed arbitrary-precision integer kept as base-1000 limbs, least-significant
 * first, plus a sign flag (BigInteger/big_integer.h, BigInteger/big_integer.cpp).
 *
 * A value of the class is a `BigInt`; operators that build a fresh result are
 * methods over `BigInt` values, and the members that rewrite `*this` are methods
 * of the class `BigInteger`.
 */
module BigIntegers {
  import opened LimbArithmetic
  import opened Decimal
  import opened Results

  /** The two exception types: BigIntegerOverflow and BigIntegerDivisionByZero. */
  datatype Error = Overflow | DivisionByZero

  /** The state of one BigInteger: `digits_` and `is_negative_`. */
  datatype BigInt = BigInt(digits: seq<int>, isNegative: bool)

  /** The representation invariant every operation keeps; the sign is free (a negative zero exists). */
  predicate Valid(b: BigInt) {
    Normalized(b.digits)
  }

  /** The integer a BigInt denotes. A negative zero denotes 0. */
  function Value(b: BigInt): int {
    if b.isNegative then -Magnitude(b.digits) else Magnitude(b.digits)
  }

  /** The representation the arithmetic operators produce for v: canonical limbs, zero non-negative. */
  function Canonical(v: int): (b: BigInt)
    ensures Valid(b) && Value(b) == v && b.isNegative == (v < 0)
  {
    BigInt(Limbs(if v < 0 then -v else v), v < 0)
  }

  function Max(a: int, b: int): int {
    if a < b then b else a
  }

  /** Whether the value is the single limb 0, whatever its sign (IsZero). */
  function IsZero(b: BigInt): (r: bool)
    ensures Valid(b) ==> (r <==> Magnitude(b.digits) == 0)
  {
    if Valid(b) then NormalizedZero(b.digits); b.digits == [0] else |b.digits| == 1 && b.digits[0] == 0
  }

  /** A valid value whose zero is non-negative is the canonical representation of its value. */
  lemma {:induction false} CanonicalOf(b: BigInt)
    requires Valid(b) && (IsZero(b) ==> !b.isNegative)
    ensures b == Canonical(Value(b))
  {
    LimbsUnique(b.digits);
  }

  /** Normalized limbs and a sign that is set exactly for a negative v make up Canonical(v). */
  lemma {:induction false} CanonicalFromParts(d: seq<int>, negative: bool, v: int)
    requires Normalized(d) && Magnitude(d) == (if v < 0 then -v else v) && negative == (v < 0)
    ensures BigInt(d, negative) == Canonical(v)
  {
    LimbsUnique(d);
  }

  /** The string grammar the parser assumes: an optional sign, then one or more decimal digits. */
  predicate IsDecimalLiteral(str: string) {
    |str| >= 1 && |Unsigned(str)| >= 1 && AllDigits(Unsigned(str))
  }

  /** The text after an optional leading sign. */
  function Unsigned(str: string): string
    requires |str| >= 1
  {
    if str[0] == '-' || str[0] == '+' then str[1..] else str
  }

  /** What parsing str stores: the canonical limbs of its digits, and the sign flag set by a leading '-'. */
  function Parsed(str: string): BigInt
    requires IsDecimalLiteral(str)
  {
    BigInt(Limbs(DecimalValue(Unsigned(str))), str[0] == '-')
  }

  /** Group j of an n-digit string runs from GroupStart to GroupEnd, counting 3-digit groups from the right. */
  function GroupStart(n: nat, j: nat): nat {
    if n >= DigitWidth * (j + 1) then n - DigitWidth * (j + 1) else 0
  }

  function GroupEnd(n: nat, j: nat): int {
    n - DigitWidth * j
  }

  /** The number of groups an n-digit string splits into. */
  function GroupCount(n: nat): nat {
    (n + DigitWidth - 1) / DigitWidth
  }

  /** The digits of group j of s. */
  function Group(s: string, j: nat): string
    requires j < GroupCount(|s|)
  {
    s[GroupStart(|s|, j)..GroupEnd(|s|, j)]
  }

  /** The parse of str overflows when its limbs would hold more than MaxDigits digits. */
  predicate Overflows(str: string)
    requires IsDecimalLiteral(str)
  {
    |Parsed(str).digits| * DigitWidth > MaxDigits
  }

  /** Digits without a leading zero fill exactly GroupCount limbs. */
  lemma {:induction false} LimbCount(body: string)
    requires AllDigits(body) && |body| >= 1 && body[0] != '0'
    ensures |Limbs(DecimalValue(body))| == GroupCount(|body|)
  {
    var n := |body|;
    var v := DecimalValue(body);
    var d := Limbs(v);
    var k := |d|;
    DecimalLowerBound(body);
    DecimalUpperBound(body);
    MagnitudeLowerBound(d);
    MagnitudeBounds(d);
    ScaleIsPow10(k - 1);
    ScaleIsPow10(k);
    Pow10Order(DigitWidth * (k - 1), n);
    Pow10Order(n - 1, DigitWidth * k);
  }

  /**
   * For a literal without redundant leading zeros the ceiling is exact:
   * 30000 digits parse, 30001 digits overflow.
   */
  lemma {:induction false} OverflowBoundary(str: string)
    requires IsDecimalLiteral(str) && Unsigned(str)[0] != '0'
    ensures Overflows(str) <==> |Unsigned(str)| > MaxDigits
  {
    LimbCount(Unsigned(str));
  }

  /** The int64_t constructor; std::abs(INT64_MIN) is undefined, so that one value is excluded. */
  method FromInt64(value: int) returns (b: BigInt)
    requires -0x8000_0000_0000_0000 < value < 0x8000_0000_0000_0000
    ensures b == Canonical(value)
    ensures |b.digits| * DigitWidth <= MaxDigits
  {
    var isNegative := value < 0;
    var v := if value < 0 then -value else value;
    ghost var absolute := v;
    var digits: seq<int> := [];
    while v > 0
      invariant v >= 0
      invariant v > 0 ==> digits + Limbs(v) == Limbs(absolute)
      invariant v == 0 ==> digits == Limbs(absolute) || (digits == [] && absolute == 0)
    {
      LimbsPeel(v, digits, absolute);
      digits := digits + [v % Divider];
      v := v / Divider;
    }
    if |digits| == 0 {
      digits := digits + [0];
    }
    if absolute == 0 {
      assert Limbs(0) == [0];
    }
    assert digits == Limbs(absolute);
    Int64FitsSevenLimbs(absolute);
    // The overflow check of the constructor never fires: at most 7 limbs.
    b := BigInt(digits, isNegative);
  }

  /** Peeling the low limb off v: one step of the int64_t constructor's loop. */
  lemma {:induction false} LimbsPeel(v: nat, digits: seq<int>, all: nat)
    requires v > 0 && digits + Limbs(v) == Limbs(all)
    ensures v / Divider > 0 ==> (digits + [v % Divider]) + Limbs(v / Divider) == Limbs(all)
    ensures v / Divider == 0 ==> digits + [v % Divider] == Limbs(all)
  {
    var low := [v % Divider];
    if v >= Divider {
      var rest := Limbs(v / Divider);
      assert Limbs(v) == low + rest;
      assert digits + (low + rest) == (digits + low) + rest;
    } else {
      assert Limbs(v) == low;
    }
  }

  lemma {:induction false} Int64FitsSevenLimbs(n: nat)
    requires n < 0x8000_0000_0000_0000
    ensures |Limbs(n)| <= 7
  {
    assert Scale(1) == 1000;
    assert Scale(2) == 1000 * Scale(1);
    assert Scale(3) == 1000 * Scale(2);
    assert Scale(4) == 1000 * Scale(3);
    assert Scale(5) == 1000 * Scale(4);
    assert Scale(6) == 1000 * Scale(5);
    assert Scale(7) == 1000 * Scale(6);
    LimbsLength(n, 7);
  }

  /** The int constructor delegates to the int64_t one. */
  method FromInt(value: int) returns (b: BigInt)
    requires -0x8000_0000 <= value < 0x8000_0000
    ensures b == Canonical(value)
  {
    b := FromInt64(value);
  }

  /** Construction from text: FromString on a fresh object; the overflow leaves no object behind. */
  method Parse(str: string) returns (r: Result<BigInt, Error>)
    requires IsDecimalLiteral(str)
    ensures r.Err? <==> Overflows(str)
    ensures r.Err? ==> r.error == Overflow
    ensures r.Ok? ==> r.value == Parsed(str) && Valid(r.value)
  {
    var n := new BigInteger();
    var outcome := n.FromString(str);
    if outcome.Fail? {
      return Err(outcome.error);
    }
    return Ok(n.Snapshot());
  }

  /** Abs: the same limbs with the sign flag cleared. */
  function Abs(n: BigInt): (r: BigInt)
    ensures Valid(n) ==> Valid(r) && Value(r) == if Value(n) < 0 then -Value(n) else Value(n)
    ensures !r.isNegative
  {
    if Valid(n) then MagnitudeBounds(n.digits); BigInt(n.digits, false) else BigInt(n.digits, false)
  }

  /** Unary minus flips the sign flag, also on zero, where it makes a negative zero. */
  function Neg(n: BigInt): (r: BigInt)
    ensures Value(r) == -Value(n)
    ensures Valid(n) ==> Valid(r)
    ensures r.isNegative != n.isNegative
  {
    BigInt(n.digits, !n.isNegative)
  }

  /** operator bool: false exactly for the single limb 0, whatever the sign. */
  function ToBool(n: BigInt): (r: bool)
    ensures r == !IsZero(n)
    ensures Valid(n) ==> (r <==> Value(n) != 0)
  {
    |n.digits| != 1 || n.digits[0] != 0
  }

  /**
   * operator==: identical sign flags and limbs. On valid values this is equality of
   * sign and denoted magnitude, so 0 and a negative zero differ.
   */
  function Equal(a: BigInt, b: BigInt): (r: bool)
    requires Valid(a) && Valid(b)
    ensures r <==> a.isNegative == b.isNegative && Magnitude(a.digits) == Magnitude(b.digits)
    ensures !(IsZero(a) && a.isNegative) && !(IsZero(b) && b.isNegative) ==> (r <==> Value(a) == Value(b))
  {
    MagnitudeBounds(a.digits);
    MagnitudeBounds(b.digits);
    if Magnitude(a.digits) == Magnitude(b.digits) then NormalizedInjective(a.digits, b.digits); a.isNegative == b.isNegative && a.digits == b.digits
    else a.isNegative == b.isNegative && a.digits == b.digits
  }

  /** operator!=: the negation of operator==. */
  function NotEqual(a: BigInt, b: BigInt): (r: bool)
    requires Valid(a) && Valid(b)
    ensures r <==> a.isNegative != b.isNegative || Magnitude(a.digits) != Magnitude(b.digits)
  {
    !Equal(a, b)
  }

  /**
   * operator<: a negative flag against a non-negative one is smaller; with equal flags
   * the magnitudes are compared, by limb count and then limb by limb from the top.
   * With two negative operands the magnitude order is not reversed.
   */
  method Less(a: BigInt, b: BigInt) returns (r: bool)
    requires Valid(a) && Valid(b)
    ensures a.isNegative != b.isNegative ==> r == a.isNegative
    ensures a.isNegative == b.isNegative ==> (r <==> Magnitude(a.digits) < Magnitude(b.digits))
    ensures !a.isNegative && !b.isNegative ==> (r <==> Value(a) < Value(b))
  {
    if a.isNegative != b.isNegative {
      return a.isNegative;
    }
    if |a.digits| != |b.digits| {
      if |a.digits| < |b.digits| {
        ShorterIsSmaller(a.digits, b.digits);
      } else {
        ShorterIsSmaller(b.digits, a.digits);
      }
      return |a.digits| < |b.digits|;
    }
    r := LessSameLength(a.digits, b.digits);
  }

  /** The limb-by-limb comparison of operator<, from the top limb down, for limb sequences of equal length. */
  method LessSameLength(x: seq<int>, y: seq<int>) returns (r: bool)
    requires Normalized(x) && Normalized(y) && |x| == |y|
    ensures r <==> Magnitude(x) < Magnitude(y)
  {
    var i := |x| - 1;
    while i >= 0
      invariant -1 <= i < |x|
      invariant x[i + 1..] == y[i + 1..]
    {
      if x[i] != y[i] {
        if x[i] < y[i] {
          MagnitudeCompare(x, y, i);
        } else {
          MagnitudeCompare(y, x, i);
        }
        return x[i] < y[i];
      }
      assert x[i..] == [x[i]] + x[i + 1..];
      assert y[i..] == [y[i]] + y[i + 1..];
      i := i - 1;
    }
    assert x == x[0..] && y == y[0..];
    return false;
  }

  /** operator<=: operator< or operator==. */
  method LessOrEqual(a: BigInt, b: BigInt) returns (r: bool)
    requires Valid(a) && Valid(b)
    ensures a.isNegative != b.isNegative ==> r == a.isNegative
    ensures a.isNegative == b.isNegative ==> (r <==> Magnitude(a.digits) <= Magnitude(b.digits))
    ensures !a.isNegative && !b.isNegative ==> (r <==> Value(a) <= Value(b))
  {
    r := Less(a, b);
    r := r || Equal(a, b);
  }

  /** operator>: not operator<=. */
  method Greater(a: BigInt, b: BigInt) returns (r: bool)
    requires Valid(a) && Valid(b)
    ensures a.isNegative != b.isNegative ==> r == b.isNegative
    ensures a.isNegative == b.isNegative ==> (r <==> Magnitude(a.digits) > Magnitude(b.digits))
    ensures !a.isNegative && !b.isNegative ==> (r <==> Value(a) > Value(b))
  {
    r := LessOrEqual(a, b);
    r := !r;
  }

  /** operator>=: not operator<. */
  method GreaterOrEqual(a: BigInt, b: BigInt) returns (r: bool)
    requires Valid(a) && Valid(b)
    ensures a.isNegative != b.isNegative ==> r == b.isNegative
    ensures a.isNegative == b.isNegative ==> (r <==> Magnitude(a.digits) >= Magnitude(b.digits))
    ensures !a.isNegative && !b.isNegative ==> (r <==> Value(a) >= Value(b))
  {
    r := Less(a, b);
    r := !r;
  }

  /**
   * operator< with two negative operands compares their magnitudes the other way
   * round: for -5 and -3 both flags are set and 5 < 3 fails, so operator< says
   * false, although -5 < -3.
   */
  lemma NegativeOrderReversed()
    ensures var a, b := Canonical(-5), Canonical(-3);
      && a.isNegative && b.isNegative
      && !(Magnitude(a.digits) < Magnitude(b.digits))
      && Value(a) < Value(b)
  {
  }

  /**
   * The order operator< evidently intends: by value, with a negative zero equal
   * to zero; two negative operands compare their magnitudes reversed.
   */
  method OrderedLess(a: BigInt, b: BigInt) returns (r: bool)
    requires Valid(a) && Valid(b)
    ensures r <==> Value(a) < Value(b)
  {
    MagnitudeBounds(a.digits);
    MagnitudeBounds(b.digits);
    if IsZero(a) && IsZero(b) {
      return false;
    }
    if a.isNegative && b.isNegative {
      r := Less(Abs(b), Abs(a));
    } else {
      r := Less(a, b);
    }
  }

  /** The C++ object: its two fields, rewritten in place by the members below. */
  class BigInteger {
    var digits: seq<int>
    var isNegative: bool

    function Snapshot(): BigInt
      reads this
    {
      BigInt(digits, isNegative)
    }

    ghost predicate Invariant()
      reads this
    {
      Valid(Snapshot())
    }

    /** The default constructor: the single limb 0, non-negative. */
    constructor ()
      ensures Invariant() && Snapshot() == Canonical(0)
    {
      digits := [0];
      isNegative := false;
    }

    /** Pops zero limbs off the top while more than one limb is left. */
    method RemoveLeadingZeros()
      modifies this
      ensures isNegative == old(isNegative)
      ensures |digits| <= |old(digits)| && digits == old(digits)[..|digits|]
      ensures |old(digits)| >= 1 ==> |digits| >= 1
      ensures |digits| <= 1 || digits[|digits| - 1] != 0
      ensures forall k :: |digits| <= k < |old(digits)| ==> old(digits)[k] == 0
      ensures Magnitude(digits) == Magnitude(old(digits))
      ensures |old(digits)| >= 1 && AllLimbs(old(digits)) ==> Normalized(digits)
    {
      while |digits| > 1 && digits[|digits| - 1] == 0
        invariant isNegative == old(isNegative)
        invariant |digits| <= |old(digits)| && digits == old(digits)[..|digits|]
        invariant |old(digits)| >= 1 ==> |digits| >= 1
        invariant forall k :: |digits| <= k < |old(digits)| ==> old(digits)[k] == 0
        invariant Magnitude(digits) == Magnitude(old(digits))
      {
        MagnitudeSnoc(digits[..|digits| - 1], 0);
        assert digits == digits[..|digits| - 1] + [0];
        digits := digits[..|digits| - 1];
      }
    }

    /**
     * Clears and refills the limbs from str, 3-digit groups taken from the right,
     * sets the sign flag from a leading '-', and reports Overflow (with the limbs
     * already stored) when they would hold more than MaxDigits digits.
     */
    method FromString(str: string) returns (outcome: Outcome<Error>)
      requires IsDecimalLiteral(str)
      modifies this
      ensures Snapshot() == Parsed(str) && Invariant()
      ensures |digits| <= GroupCount(|Unsigned(str)|)
      ensures forall j :: 0 <= j < |digits| ==> digits[j] == DecimalValue(Group(Unsigned(str), j))
      ensures outcome.Fail? <==> Overflows(str)
      ensures outcome.Fail? ==> outcome.error == Overflow
    {
      digits := [];
      isNegative := str[0] == '-';
      var absolute := str;
      if isNegative || str[0] == '+' {
        absolute := str[1..];
      }
      assert absolute == Unsigned(str);
      var groups := SplitGroups(absolute);
      digits := groups;
      RemoveLeadingZeros();
      TrimmedGroups(absolute, groups, digits);
      if |digits| * DigitWidth > MaxDigits {
        return Fail(Overflow);
      }
      return Pass;
    }
  }

  /**
   * The loop of FromString: 3-digit groups taken from the right of the digit
   * string, each converted to a limb, least-significant limb first.
   */
  method SplitGroups(absolute: string) returns (digits: seq<int>)
    requires |absolute| >= 1 && AllDigits(absolute)
    ensures |digits| == GroupCount(|absolute|)
    ensures forall j :: 0 <= j < |digits| ==> digits[j] == DecimalValue(Group(absolute, j))
    ensures AllLimbs(digits)
    ensures Magnitude(digits) == DecimalValue(absolute)
  {
    digits := [];
    var n := |absolute|;
    // The index is unsigned: stepping below zero wraps it past the bound, which ends the loop.
    var i: int := n - 1;
    while i >= 0
      invariant -DigitWidth <= i < n
      invariant n - 1 - i == DigitWidth * |digits|
      invariant AllLimbs(digits)
      invariant |digits| <= GroupCount(n)
      invariant forall j :: 0 <= j < |digits| ==> digits[j] == DecimalValue(Group(absolute, j))
      invariant Magnitude(digits) == DecimalValue(absolute[Unparsed(i)..])
      decreases i
    {
      var end := i + 1;
      var begin := if i < DigitWidth then 0 else i - DigitWidth + 1;
      var limb := DecimalValue(absolute[begin..end]);
      ParseGroupStep(absolute, i, digits);
      AppendGroup(absolute, digits, limb);
      digits := digits + [limb];
      i := i - DigitWidth;
    }
    assert absolute[Unparsed(i)..] == absolute;
  }

  /**
   * The groups of a digit string with the zero limbs above the top one removed
   * are the canonical limbs of its value, and each is still the value of its group.
   */
  lemma TrimmedGroups(absolute: string, groups: seq<int>, trimmed: seq<int>)
    requires |absolute| >= 1 && AllDigits(absolute)
    requires |groups| == GroupCount(|absolute|) && AllLimbs(groups)
    requires forall j :: 0 <= j < |groups| ==> groups[j] == DecimalValue(Group(absolute, j))
    requires Magnitude(groups) == DecimalValue(absolute)
    requires |trimmed| >= 1 && |trimmed| <= |groups| && trimmed == groups[..|trimmed|]
    requires Magnitude(trimmed) == Magnitude(groups) && Normalized(trimmed)
    ensures trimmed == Limbs(DecimalValue(absolute))
    ensures |trimmed| <= GroupCount(|absolute|)
    ensures forall j :: 0 <= j < |trimmed| ==> trimmed[j] == DecimalValue(Group(absolute, j))
  {
    LimbsUnique(trimmed);
    forall j | 0 <= j < |trimmed|
      ensures trimmed[j] == DecimalValue(Group(absolute, j))
    {
      assert trimmed[j] == groups[j];
    }
  }

  /** The number of digits not yet parsed when the parse loop stands at index i. */
  function Unparsed(i: int): nat {
    if i < 0 then 0 else i + 1
  }

  /** Appending the value of the next group keeps every limb the value of its group. */
  lemma AppendGroup(s: string, digits: seq<int>, limb: int)
    requires AllDigits(s) && |digits| < GroupCount(|s|)
    requires forall j :: 0 <= j < |digits| ==> digits[j] == DecimalValue(Group(s, j))
    requires limb == DecimalValue(Group(s, |digits|))
    ensures forall j :: 0 <= j < |digits| + 1 ==> (digits + [limb])[j] == DecimalValue(Group(s, j))
  {
  }

  /** One turn of the parse loop: the group ending at i becomes the next limb. */
  lemma {:induction false} ParseGroupStep(s: string, i: int, digits: seq<int>)
    requires AllDigits(s) && 0 <= i < |s|
    requires |s| - 1 - i == DigitWidth * |digits|
    requires Magnitude(digits) == DecimalValue(s[i + 1..])
    ensures var begin := if i < DigitWidth then 0 else i - DigitWidth + 1;
      var limb := DecimalValue(s[begin..i + 1]);
      && IsLimb(limb)
      && |digits| < GroupCount(|s|)
      && Group(s, |digits|) == s[begin..i + 1]
      && Magnitude(digits + [limb]) == DecimalValue(s[Unparsed(i - DigitWidth)..])
  {
    var begin := if i < DigitWidth then 0 else i - DigitWidth + 1;
    var group := s[begin..i + 1];
    DecimalUpperBound(group);
    Pow10Monotone(|group|, 3);
    ParseStep(s, begin, i + 1, digits);
  }

  /** One group of the parse: appending its value as the next limb keeps the limbs denoting the consumed digits. */
  lemma {:induction false} ParseStep(s: string, begin: nat, end: nat, digits: seq<int>)
    requires AllDigits(s) && begin < end <= |s|
    requires |s| - end == DigitWidth * |digits|
    requires Magnitude(digits) == DecimalValue(s[end..])
    ensures Magnitude(digits + [DecimalValue(s[begin..end])]) == DecimalValue(s[begin..])
  {
    var tail := s[begin..];
    DecimalSplit(tail, end - begin);
    assert tail[..end - begin] == s[begin..end];
    assert tail[end - begin..] == s[end..];
    MagnitudeSnoc(digits, DecimalValue(s[begin..end]));
    ScaleIsPow10(|digits|);
  }
}
