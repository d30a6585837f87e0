/**
 * The arithmetic of base-1000 limb sequences: what a sequence of limbs,
 * least-significant first, denotes, and the canonical limbs of a number.
 */
module LimbArithmetic {

  /** The limb base, the decimal digits per limb and the decimal-digit ceiling. */
  const Divider: int := 1000
  const DigitWidth: int := 3
  const MaxDigits: int := 30000

  /** Divider raised to the power n: the weight of limb n. */
  function Scale(n: nat): (r: int)
    ensures r >= 1
  {
    if n == 0 then 1 else Divider * Scale(n - 1)
  }

  predicate IsLimb(x: int) {
    0 <= x < Divider
  }

  predicate AllLimbs(d: seq<int>) {
    forall k :: 0 <= k < |d| ==> IsLimb(d[k])
  }

  /** At least one limb, every limb in range, and no zero limb on top unless it is the only one. */
  predicate Normalized(d: seq<int>) {
    |d| >= 1 && AllLimbs(d) && (|d| == 1 || d[|d| - 1] != 0)
  }

  /** The number a limb sequence denotes, least-significant limb first. */
  function Magnitude(d: seq<int>): int {
    if |d| == 0 then 0 else d[0] + Divider * Magnitude(d[1..])
  }

  /** Limb i of d, or 0 above the top limb. */
  function Digit(d: seq<int>, i: nat): int {
    if i < |d| then d[i] else 0
  }

  /** What the limbs of d below position i denote. */
  function MagnitudeBelow(d: seq<int>, i: nat): int {
    if i < |d| then Magnitude(d[..i]) else Magnitude(d)
  }

  /** The canonical limbs of n. */
  function Limbs(n: nat): (d: seq<int>)
    ensures Normalized(d) && Magnitude(d) == n
    ensures n > 0 ==> d[|d| - 1] != 0
  {
    if n < Divider then [n] else [n % Divider] + Limbs(n / Divider)
  }

  lemma {:induction false} ScaleAdd(a: nat, b: nat)
    ensures Scale(a + b) == Scale(a) * Scale(b)
  {
    if b > 0 {
      ScaleAdd(a, b - 1);
      calc {
        Scale(a + b);
        Divider * Scale(a + b - 1);
        Divider * (Scale(a) * Scale(b - 1));
        Scale(a) * (Divider * Scale(b - 1));
        Scale(a) * Scale(b);
      }
    }
  }

  lemma {:induction false} ScaleMonotone(a: nat, b: nat)
    requires a <= b
    ensures Scale(a) <= Scale(b)
  {
    if a < b {
      ScaleMonotone(a, b - 1);
    }
  }

  /** A number below Scale(b) but at least Scale(a) needs a < b. */
  lemma {:induction false} ScaleOrder(a: nat, b: nat)
    requires Scale(a) < Scale(b)
    ensures a < b
  {
    if b <= a {
      ScaleMonotone(b, a);
    }
  }

  lemma {:induction false} MagnitudeBounds(d: seq<int>)
    requires AllLimbs(d)
    ensures 0 <= Magnitude(d) < Scale(|d|)
  {
    if |d| > 0 {
      MagnitudeBounds(d[1..]);
    }
  }

  lemma {:induction false} MagnitudeAppend(a: seq<int>, b: seq<int>)
    ensures Magnitude(a + b) == Magnitude(a) + Scale(|a|) * Magnitude(b)
  {
    if |a| == 0 {
      assert a + b == b;
    } else {
      assert (a + b)[1..] == a[1..] + b;
      MagnitudeAppend(a[1..], b);
      calc {
        Magnitude(a + b);
        a[0] + Divider * (Magnitude(a[1..]) + Scale(|a| - 1) * Magnitude(b));
        a[0] + Divider * Magnitude(a[1..]) + (Divider * Scale(|a| - 1)) * Magnitude(b);
        Magnitude(a) + Scale(|a|) * Magnitude(b);
      }
    }
  }

  lemma {:induction false} MagnitudeSnoc(d: seq<int>, x: int)
    ensures Magnitude(d + [x]) == Magnitude(d) + x * Scale(|d|)
  {
    var single := [x];
    assert single[1..] == [];
    assert Magnitude(single) == x;
    MagnitudeAppend(d, single);
    var w := Scale(|d|);
    assert Magnitude(d + single) == Magnitude(d) + w * x;
    assert w * x == x * w;
  }

  lemma {:induction false} MagnitudeSplit(d: seq<int>, k: nat)
    requires k <= |d|
    ensures Magnitude(d) == Magnitude(d[..k]) + Scale(k) * Magnitude(d[k..])
  {
    assert d == d[..k] + d[k..];
    MagnitudeAppend(d[..k], d[k..]);
  }

  lemma {:induction false} MagnitudeBelowStep(d: seq<int>, i: nat)
    ensures MagnitudeBelow(d, i + 1) == MagnitudeBelow(d, i) + Digit(d, i) * Scale(i)
  {
    if i < |d| {
      assert d[..i + 1] == d[..i] + [d[i]];
      MagnitudeSnoc(d[..i], d[i]);
      if i + 1 == |d| {
        assert d[..i + 1] == d;
      }
    }
  }

  lemma {:induction false} MagnitudeBelowBound(d: seq<int>, i: nat)
    requires AllLimbs(d)
    ensures 0 <= MagnitudeBelow(d, i) <= Magnitude(d)
  {
    if i < |d| {
      MagnitudeSplit(d, i);
      assert AllLimbs(d[..i]) && AllLimbs(d[i..]);
      MagnitudeBounds(d[..i]);
      MagnitudeBounds(d[i..]);
    } else {
      MagnitudeBounds(d);
    }
  }

  lemma {:induction false} MagnitudeUpdate(d: seq<int>, k: nat, v: int)
    requires k < |d|
    ensures Magnitude(d[k := v]) == Magnitude(d) + (v - d[k]) * Scale(k)
  {
    if k == 0 {
      assert d[k := v][1..] == d[1..];
    } else {
      assert d[k := v][1..] == d[1..][k - 1 := v];
      MagnitudeUpdate(d[1..], k - 1, v);
      calc {
        Magnitude(d[k := v]);
        d[0] + Divider * (Magnitude(d[1..]) + (v - d[k]) * Scale(k - 1));
        d[0] + Divider * Magnitude(d[1..]) + (v - d[k]) * (Divider * Scale(k - 1));
      }
    }
  }

  /** Zero limbs above position k add nothing. */
  lemma {:induction false} MagnitudeZeroTail(d: seq<int>, k: nat)
    requires k <= |d|
    requires forall j :: k <= j < |d| ==> d[j] == 0
    ensures Magnitude(d) == Magnitude(d[..k])
  {
    MagnitudeSplit(d, k);
    MagnitudeOfZeros(d[k..]);
  }

  lemma {:induction false} MagnitudeOfZeros(z: seq<int>)
    requires forall j :: 0 <= j < |z| ==> z[j] == 0
    ensures Magnitude(z) == 0
  {
    if |z| > 0 {
      MagnitudeOfZeros(z[1..]);
    }
  }

  /** A normalized sequence whose top limb is nonzero is at least the weight of that limb. */
  lemma {:induction false} MagnitudeLowerBound(d: seq<int>)
    requires |d| >= 1 && AllLimbs(d) && d[|d| - 1] != 0
    ensures Magnitude(d) >= Scale(|d| - 1)
  {
    if |d| > 1 {
      assert d[1..][|d[1..]| - 1] == d[|d| - 1];
      MagnitudeLowerBound(d[1..]);
    }
  }

  /** A normalized sequence denotes zero exactly when it is the single limb 0. */
  lemma {:induction false} NormalizedZero(d: seq<int>)
    requires Normalized(d)
    ensures Magnitude(d) == 0 <==> d == [0]
  {
    if |d| > 1 {
      MagnitudeLowerBound(d);
    }
  }

  /** A normalized sequence with fewer limbs denotes a smaller number. */
  lemma {:induction false} ShorterIsSmaller(a: seq<int>, b: seq<int>)
    requires Normalized(a) && Normalized(b) && |a| < |b|
    ensures Magnitude(a) < Magnitude(b)
  {
    MagnitudeBounds(a);
    MagnitudeLowerBound(b);
    ScaleMonotone(|a|, |b| - 1);
  }

  /** Of two equally long sequences that agree above limb i, the one with the smaller limb i is smaller. */
  lemma {:induction false} MagnitudeCompare(a: seq<int>, b: seq<int>, i: nat)
    requires |a| == |b| && i < |a| && AllLimbs(a) && AllLimbs(b)
    requires a[i + 1..] == b[i + 1..] && a[i] < b[i]
    ensures Magnitude(a) < Magnitude(b)
  {
    if i == 0 {
      assert a[1..] == b[1..];
    } else {
      assert a[1..][i..] == a[i + 1..] && b[1..][i..] == b[i + 1..];
      MagnitudeCompare(a[1..], b[1..], i - 1);
    }
  }

  /** Normalized limbs are determined by the number they denote. */
  lemma {:induction false} LimbsUnique(d: seq<int>)
    requires Normalized(d)
    ensures Magnitude(d) >= 0 && Limbs(Magnitude(d)) == d
  {
    MagnitudeBounds(d);
    if |d| > 1 {
      var rest := d[1..];
      assert rest[|rest| - 1] == d[|d| - 1];
      MagnitudeLowerBound(d);
      assert Normalized(rest);
      MagnitudeBounds(rest);
      var n := Magnitude(d);
      assert n == d[0] + Divider * Magnitude(rest);
      assert n % Divider == d[0] && n / Divider == Magnitude(rest);
      LimbsUnique(rest);
      assert d == [d[0]] + rest;
    }
  }

  lemma {:induction false} NormalizedInjective(a: seq<int>, b: seq<int>)
    requires Normalized(a) && Normalized(b) && Magnitude(a) == Magnitude(b)
    ensures a == b
  {
    LimbsUnique(a);
    LimbsUnique(b);
  }

  /** A number below Scale(k) has at most k limbs. */
  lemma {:induction false} LimbsLength(n: nat, k: nat)
    requires k >= 1 && n < Scale(k)
    ensures |Limbs(n)| <= k
  {
    var d := Limbs(n);
    if n > 0 {
      MagnitudeLowerBound(d);
      ScaleOrder(|d| - 1, k);
    }
  }

  /** 0 <= x < X and 0 <= y < Y give x * y < X * Y. */
  lemma {:induction false} MulStrict(x: int, bigX: int, y: int, bigY: int)
    requires 0 <= x < bigX && 0 <= y < bigY
    ensures x * y < bigX * bigY
  {
    assert x * y <= x * bigY;
    assert x * bigY < bigX * bigY;
  }

  lemma {:induction false} MulMonotone(a: int, b: int, c: int)
    requires a >= 0 && b <= c
    ensures a * b <= a * c
  {
  }
}
