/**
 * The digit logic of BigInteger's operator<< (BigInteger/big_integer.cpp:362-378):
 * a '-' when the sign flag is set, the top limb in plain decimal, then every
 * lower limb zero-padded to three digits. The stream itself is not modelled;
 * the text is returned as a string.
 */
module BigFormat {
  import opened LimbArithmetic
  import opened Decimal
  import opened BigIntegers

  /** The text printed for one limb: padded to three digits unless it is the top limb or already has three. */
  function LimbText(x: nat, top: bool): string {
    if x < 100 && !top then (if x < 10 then "00" else "0") + DecimalText(x) else DecimalText(x)
  }

  /** The limbs printed from the most significant down. */
  function LimbsText(d: seq<int>): string
    requires |d| >= 1 && AllLimbs(d)
    decreases |d|
  {
    if |d| == 1 then LimbText(d[0], true) else LimbsText(d[1..]) + LimbText(d[0], false)
  }

  /** Everything operator<< writes for b. */
  function FormatText(b: BigInt): string
    requires Valid(b)
  {
    (if b.isNegative then "-" else "") + LimbsText(b.digits)
  }

  /** operator<<: the sign, then one limb at a time from the top down. */
  method Format(b: BigInt) returns (s: string)
    requires Valid(b)
    ensures s == FormatText(b)
  {
    var sign := if b.isNegative then "-" else "";
    var limbs := PrintLimbs(b.digits);
    s := sign + limbs;
  }

  /** The loop of operator<<: limbs from the most significant down. */
  method PrintLimbs(d: seq<int>) returns (s: string)
    requires |d| >= 1 && AllLimbs(d)
    ensures s == LimbsText(d)
  {
    s := "";
    var i := |d| - 1;
    while i >= 0
      invariant -1 <= i < |d|
      invariant s == TextFrom(d, i + 1)
    {
      var piece := PrintLimb(d[i], i == |d| - 1);
      TextFromStep(d, i);
      s := s + piece;
      i := i - 1;
    }
    assert d[0..] == d;
  }

  /** What the loop of operator<< has printed once it is below limb k: limbs k and up, or nothing. */
  function TextFrom(d: seq<int>, k: nat): string
    requires AllLimbs(d) && k <= |d|
  {
    if k == |d| then "" else LimbsText(d[k..])
  }

  /**
   * The body of the loop of operator<<: the top limb as a numeral without
   * leading zeros, any other limb below 1000 as exactly three digits, both
   * reading back as the limb.
   */
  method PrintLimb(limb: nat, top: bool) returns (piece: string)
    ensures top ==> AllDigits(piece) && NoLeadingZero(piece) && DecimalValue(piece) == limb
    ensures !top && limb < Divider ==>
              |piece| == DigitWidth && AllDigits(piece) && DecimalValue(piece) == limb
    ensures piece == LimbText(limb, top)
  {
    if !top && limb < Divider {
      LowerLimbText(limb);
    }
    if limb < 100 && !top {
      if limb < 10 {
        piece := "00" + DecimalText(limb);
      } else {
        piece := "0" + DecimalText(limb);
      }
    } else {
      piece := DecimalText(limb);
    }
  }

  /** Printing from limb i upwards is printing from limb i + 1 upwards, then limb i. */
  lemma {:induction false} TextFromStep(d: seq<int>, i: nat)
    requires i < |d| && AllLimbs(d)
    ensures TextFrom(d, i) == TextFrom(d, i + 1) + LimbText(d[i], i == |d| - 1)
  {
    assert d[i..][1..] == d[i + 1..];
  }

  /** A natural number between 10^(k-1) and 10^k has a k-digit decimal text. */
  lemma {:induction false} TextLength(n: nat, k: nat)
    requires k >= 1 && (k == 1 || Pow10(k - 1) <= n) && n < Pow10(k)
    ensures |DecimalText(n)| == k
  {
    var s := DecimalText(n);
    DecimalUpperBound(s);
    if k > 1 {
      Pow10Order(k - 1, |s|);
    }
    if |s| > 1 {
      DecimalLowerBound(s);
      Pow10Monotone(1, |s| - 1);
      Pow10Order(|s| - 1, k);
    }
  }

  /** Every limb below the top is printed as exactly three digits that read back as the limb. */
  lemma {:induction false} LowerLimbText(x: nat)
    requires x < Divider
    ensures |LimbText(x, false)| == DigitWidth && AllDigits(LimbText(x, false))
    ensures DecimalValue(LimbText(x, false)) == x
  {
    var t := DecimalText(x);
    var pad := if x < 100 then (if x < 10 then "00" else "0") else "";
    assert Pow10(1) == 10 && Pow10(2) == 100 && Pow10(3) == 1000;
    if x < 10 {
      TextLength(x, 1);
    } else if x < 100 {
      TextLength(x, 2);
    } else {
      TextLength(x, 3);
    }
    assert LimbText(x, false) == pad + t;
    assert DecimalValue(pad) == 0;
    DecimalSplit(pad + t, |pad|);
    assert (pad + t)[..|pad|] == pad && (pad + t)[|pad|..] == t;
  }

  /** The printed limbs are a decimal numeral without a leading zero, and its value is the magnitude. */
  lemma {:induction false} LimbsTextValue(d: seq<int>)
    requires Normalized(d)
    ensures |LimbsText(d)| >= 1 && AllDigits(LimbsText(d)) && NoLeadingZero(LimbsText(d))
    ensures DecimalValue(LimbsText(d)) == Magnitude(d)
    ensures d[|d| - 1] != 0 ==> LimbsText(d)[0] != '0'
    decreases |d|
  {
    if |d| > 1 {
      var rest := d[1..];
      assert rest[|rest| - 1] == d[|d| - 1];
      LimbsTextValue(rest);
      LowerLimbText(d[0]);
      AppendLimbText(LimbsText(rest), LimbText(d[0], false));
      assert Magnitude(d) == d[0] + Divider * Magnitude(rest);
    }
  }

  /** A numeral followed by a three-digit block is a numeral worth a thousand times the first plus the block. */
  lemma {:induction false} AppendLimbText(high: string, low: string)
    requires AllDigits(high) && |high| >= 1 && high[0] != '0'
    requires AllDigits(low) && |low| == DigitWidth
    ensures AllDigits(high + low) && NoLeadingZero(high + low) && (high + low)[0] == high[0]
    ensures DecimalValue(high + low) == DecimalValue(high) * Divider + DecimalValue(low)
  {
    var t := high + low;
    assert t[..|high|] == high && t[|high|..] == low;
    DecimalSplit(t, |high|);
    assert Pow10(3) == 1000;
  }

  /** The printed text starts with '-' exactly for a set sign flag, and the rest reads back as the magnitude. */
  lemma {:induction false} FormatShape(b: BigInt)
    requires Valid(b)
    ensures IsDecimalLiteral(FormatText(b))
    ensures (FormatText(b)[0] == '-') == b.isNegative && FormatText(b)[0] != '+'
    ensures Unsigned(FormatText(b)) == LimbsText(b.digits)
    ensures NoLeadingZero(Unsigned(FormatText(b)))
    ensures DecimalValue(Unsigned(FormatText(b))) == Magnitude(b.digits)
  {
    var t := LimbsText(b.digits);
    LimbsTextValue(b.digits);
    if b.isNegative {
      assert FormatText(b) == "-" + t;
      assert ("-" + t)[1..] == t;
    } else {
      assert FormatText(b) == t;
      assert IsDigit(t[0]);
    }
  }

  /** Parsing what operator<< prints gives back the same value, sign flag included (a negative zero too). */
  lemma {:induction false} ParseFormat(b: BigInt)
    requires Valid(b)
    ensures IsDecimalLiteral(FormatText(b)) && Parsed(FormatText(b)) == b
  {
    FormatShape(b);
    LimbsUnique(b.digits);
  }

  /** Printing the parse of a numeral without '+' and without leading zeros gives the numeral back. */
  lemma {:induction false} FormatParse(s: string)
    requires IsDecimalLiteral(s) && s[0] != '+' && NoLeadingZero(Unsigned(s))
    ensures Valid(Parsed(s)) && FormatText(Parsed(s)) == s
  {
    var b := Parsed(s);
    var u := Unsigned(s);
    FormatShape(b);
    var t := LimbsText(b.digits);
    DecimalTextOfValue(t);
    DecimalTextOfValue(u);
    if s[0] == '-' {
      assert s == "-" + u;
    }
  }
}
