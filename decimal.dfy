/** Decimal digit strings: the number they denote and the canonical text of a number. */
module Decimal {
  import opened LimbArithmetic

  predicate IsDigit(c: char) {
    '0' <= c <= '9'
  }

  predicate AllDigits(s: string) {
    forall k :: 0 <= k < |s| ==> IsDigit(s[k])
  }

  /** At least one digit and no redundant leading zero. */
  predicate NoLeadingZero(s: string) {
    |s| >= 1 && (s[0] != '0' || |s| == 1)
  }

  function DigitValue(c: char): int {
    (c as int) - ('0' as int)
  }

  function DigitChar(v: int): char
    requires 0 <= v < 10
  {
    (('0' as int) + v) as char
  }

  function Pow10(n: nat): (r: int)
    ensures r >= 1
  {
    if n == 0 then 1 else 10 * Pow10(n - 1)
  }

  /** The number a string of decimal digits denotes, most-significant digit first. */
  function DecimalValue(s: string): nat
    requires AllDigits(s)
  {
    if |s| == 0 then 0 else DecimalValue(s[..|s| - 1]) * 10 + DigitValue(s[|s| - 1])
  }

  /** The canonical decimal text of n, as an output stream prints an integer. */
  function DecimalText(n: nat): (s: string)
    ensures AllDigits(s) && NoLeadingZero(s) && DecimalValue(s) == n
    ensures n > 0 ==> s[0] != '0'
  {
    if n < 10 then
      var s := [DigitChar(n)];
      assert s[..0] == [];
      s
    else
      var prefix := DecimalText(n / 10);
      var s := prefix + [DigitChar(n % 10)];
      assert s[..|s| - 1] == prefix;
      s
  }

  lemma {:induction false} Pow10Add(a: nat, b: nat)
    ensures Pow10(a + b) == Pow10(a) * Pow10(b)
  {
    if b > 0 {
      Pow10Add(a, b - 1);
      calc {
        Pow10(a + b);
        10 * Pow10(a + b - 1);
        10 * (Pow10(a) * Pow10(b - 1));
        Pow10(a) * (10 * Pow10(b - 1));
      }
    }
  }

  lemma {:induction false} Pow10Monotone(a: nat, b: nat)
    requires a <= b
    ensures Pow10(a) <= Pow10(b)
  {
    if a < b {
      Pow10Monotone(a, b - 1);
    }
  }

  lemma {:induction false} Pow10Order(a: nat, b: nat)
    requires Pow10(a) < Pow10(b)
    ensures a < b
  {
    if b <= a {
      Pow10Monotone(b, a);
    }
  }

  /** A limb weighs three decimal digits. */
  lemma {:induction false} ScaleIsPow10(n: nat)
    ensures Scale(n) == Pow10(DigitWidth * n)
  {
    if n > 0 {
      ScaleIsPow10(n - 1);
      Pow10Add(3, DigitWidth * (n - 1));
      assert Pow10(3) == 1000;
    }
  }

  /** Cutting a digit string at k: the head counts Pow10(|s| - k) times. */
  lemma {:induction false} DecimalSplit(s: string, k: nat)
    requires AllDigits(s) && k <= |s|
    ensures DecimalValue(s) == DecimalValue(s[..k]) * Pow10(|s| - k) + DecimalValue(s[k..])
  {
    if k == |s| {
      assert s[..k] == s;
      assert s[k..] == [];
    } else {
      var init := s[..|s| - 1];
      var tail := s[k..];
      var last := DigitValue(s[|s| - 1]);
      DecimalSplit(init, k);
      assert init[..k] == s[..k];
      assert tail[..|tail| - 1] == init[k..] && tail[|tail| - 1] == s[|s| - 1];
      var head, rest, p := DecimalValue(s[..k]), DecimalValue(init[k..]), Pow10(|init| - k);
      assert DecimalValue(s) == DecimalValue(init) * 10 + last;
      assert DecimalValue(tail) == rest * 10 + last;
      assert Pow10(|s| - k) == 10 * p;
      ShiftDigit(head, p, rest, last);
    }
  }

  /** Appending a digit to both halves of a split multiplies the head's weight by 10. */
  lemma ShiftDigit(head: int, p: int, rest: int, last: int)
    ensures (head * p + rest) * 10 + last == head * (10 * p) + (rest * 10 + last)
  {
  }

  lemma {:induction false} DecimalUpperBound(s: string)
    requires AllDigits(s)
    ensures DecimalValue(s) < Pow10(|s|)
  {
    if |s| > 0 {
      DecimalUpperBound(s[..|s| - 1]);
    }
  }

  lemma {:induction false} DecimalLowerBound(s: string)
    requires AllDigits(s) && |s| >= 1 && s[0] != '0'
    ensures DecimalValue(s) >= Pow10(|s| - 1)
  {
    if |s| > 1 {
      var init := s[..|s| - 1];
      DecimalLowerBound(init);
    }
  }

  /** Text without redundant leading zeros is the canonical text of its value. */
  lemma {:induction false} DecimalTextOfValue(s: string)
    requires AllDigits(s) && NoLeadingZero(s)
    ensures DecimalText(DecimalValue(s)) == s
  {
    var init := s[..|s| - 1];
    if |s| == 1 {
      assert init == [];
      assert DigitChar(DigitValue(s[0])) == s[0];
    } else {
      DecimalLowerBound(init);
      DecimalTextOfValue(init);
      var n := DecimalValue(s);
      assert n / 10 == DecimalValue(init) && n % 10 == DigitValue(s[|s| - 1]);
      assert DigitChar(DigitValue(s[|s| - 1])) == s[|s| - 1];
      assert s == init + [s[|s| - 1]];
    }
  }
}
