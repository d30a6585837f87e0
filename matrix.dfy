/**
 * The fixed-size matrix of Matrix/matrix.h over `int` entries. A
 * `Matrix<Number, N, M>` is an N x M `array2<int>`; the template dimensions
 * become the array's lengths, and operators that need equal dimensions
 * require them.
 *
 * Operators that build a fresh matrix are methods returning a fresh array;
 * the compound operators and `Transpose` update their left operand in place.
 * The determinant is specified by the cofactor recursion over `Grid` values.
 */
module Matrices {
  import opened Results
  import opened IntegerDivision

  /** MatrixOutOfRange and MatrixIsDegenerateError. */
  datatype MatrixError = OutOfRange | IsDegenerate

  /** A matrix as a value: its rows. */
  type Grid = seq<seq<int>>

  predicate IsSquare(g: Grid) {
    forall i :: 0 <= i < |g| ==> |g[i]| == |g|
  }

  /** The entries of a, row by row. */
  function Cells(a: array2<int>): (g: Grid)
    reads a
    ensures |g| == a.Length0 && forall i :: 0 <= i < |g| ==> |g[i]| == a.Length1
    ensures forall i, j :: 0 <= i < a.Length0 && 0 <= j < a.Length1 ==> g[i][j] == a[i, j]
  {
    seq(a.Length0, i requires 0 <= i < a.Length0 reads a =>
      seq(a.Length1, j requires 0 <= j < a.Length1 reads a => a[i, j]))
  }

  /** At(i, j): the entry when both indices are in range, MatrixOutOfRange otherwise. */
  function At(a: array2<int>, i: nat, j: nat): (r: Result<int, MatrixError>)
    reads a
    ensures r.Ok? <==> i < a.Length0 && j < a.Length1
    ensures r.Ok? ==> r.value == a[i, j]
    ensures r.Err? ==> r.error == OutOfRange
  {
    if i < a.Length0 && j < a.Length1 then Ok(a[i, j]) else Err(OutOfRange)
  }

  /** operator+: entry by entry. */
  method Add(left: array2<int>, right: array2<int>) returns (result: array2<int>)
    requires right.Length0 == left.Length0 && right.Length1 == left.Length1
    ensures fresh(result) && result.Length0 == left.Length0 && result.Length1 == left.Length1
    ensures forall i, j :: 0 <= i < left.Length0 && 0 <= j < left.Length1 ==>
              result[i, j] == left[i, j] + right[i, j]
  {
    result := new int[left.Length0, left.Length1];
    var i := 0;
    while i < left.Length0
      invariant 0 <= i <= left.Length0
      invariant forall p, q :: 0 <= p < i && 0 <= q < left.Length1 ==> result[p, q] == left[p, q] + right[p, q]
    {
      var j := 0;
      while j < left.Length1
        invariant 0 <= j <= left.Length1
        invariant forall p, q :: 0 <= p < i && 0 <= q < left.Length1 ==> result[p, q] == left[p, q] + right[p, q]
        invariant forall q :: 0 <= q < j ==> result[i, q] == left[i, q] + right[i, q]
      {
        result[i, j] := left[i, j] + right[i, j];
        j := j + 1;
      }
      i := i + 1;
    }
  }

  /** operator-: entry by entry. */
  method Sub(left: array2<int>, right: array2<int>) returns (result: array2<int>)
    requires right.Length0 == left.Length0 && right.Length1 == left.Length1
    ensures fresh(result) && result.Length0 == left.Length0 && result.Length1 == left.Length1
    ensures forall i, j :: 0 <= i < left.Length0 && 0 <= j < left.Length1 ==>
              result[i, j] == left[i, j] - right[i, j]
  {
    result := new int[left.Length0, left.Length1];
    var i := 0;
    while i < left.Length0
      invariant 0 <= i <= left.Length0
      invariant forall p, q :: 0 <= p < i && 0 <= q < left.Length1 ==> result[p, q] == left[p, q] - right[p, q]
    {
      var j := 0;
      while j < left.Length1
        invariant 0 <= j <= left.Length1
        invariant forall p, q :: 0 <= p < i && 0 <= q < left.Length1 ==> result[p, q] == left[p, q] - right[p, q]
        invariant forall q :: 0 <= q < j ==> result[i, q] == left[i, q] - right[i, q]
      {
        result[i, j] := left[i, j] - right[i, j];
        j := j + 1;
      }
      i := i + 1;
    }
  }

  /** Whether cell (p, q) comes before cell (i, j) in row-major order. */
  predicate Before(p: int, q: int, i: int, j: int) {
    p < i || (p == i && q < j)
  }

  /** operator+=: each entry of left grows by the entry of right; right may be left itself. */
  method AddAssign(left: array2<int>, right: array2<int>)
    requires right.Length0 == left.Length0 && right.Length1 == left.Length1
    modifies left
    ensures forall i, j :: 0 <= i < left.Length0 && 0 <= j < left.Length1 ==>
              left[i, j] == old(left[i, j]) + old(right[i, j])
  {
    var i := 0;
    while i < left.Length0
      invariant 0 <= i <= left.Length0
      invariant forall p, q :: 0 <= p < left.Length0 && 0 <= q < left.Length1 ==>
                  if Before(p, q, i, 0) then left[p, q] == old(left[p, q]) + old(right[p, q])
                  else left[p, q] == old(left[p, q]) && right[p, q] == old(right[p, q])
    {
      var j := 0;
      while j < left.Length1
        invariant 0 <= j <= left.Length1
        invariant forall p, q :: 0 <= p < left.Length0 && 0 <= q < left.Length1 ==>
                    if Before(p, q, i, j) then left[p, q] == old(left[p, q]) + old(right[p, q])
                    else left[p, q] == old(left[p, q]) && right[p, q] == old(right[p, q])
      {
        left[i, j] := left[i, j] + right[i, j];
        j := j + 1;
      }
      i := i + 1;
    }
  }

  /** operator-=: each entry of left shrinks by the entry of right; right may be left itself. */
  method SubAssign(left: array2<int>, right: array2<int>)
    requires right.Length0 == left.Length0 && right.Length1 == left.Length1
    modifies left
    ensures forall i, j :: 0 <= i < left.Length0 && 0 <= j < left.Length1 ==>
              left[i, j] == old(left[i, j]) - old(right[i, j])
  {
    var i := 0;
    while i < left.Length0
      invariant 0 <= i <= left.Length0
      invariant forall p, q :: 0 <= p < left.Length0 && 0 <= q < left.Length1 ==>
                  if Before(p, q, i, 0) then left[p, q] == old(left[p, q]) - old(right[p, q])
                  else left[p, q] == old(left[p, q]) && right[p, q] == old(right[p, q])
    {
      var j := 0;
      while j < left.Length1
        invariant 0 <= j <= left.Length1
        invariant forall p, q :: 0 <= p < left.Length0 && 0 <= q < left.Length1 ==>
                    if Before(p, q, i, j) then left[p, q] == old(left[p, q]) - old(right[p, q])
                    else left[p, q] == old(left[p, q]) && right[p, q] == old(right[p, q])
      {
        left[i, j] := left[i, j] - right[i, j];
        j := j + 1;
      }
      i := i + 1;
    }
  }

  /** The sum of left(i, t) * right(t, j) over t < k. */
  function Dot(left: array2<int>, right: array2<int>, i: nat, j: nat, k: nat): int
    reads left, right
    requires i < left.Length0 && k <= left.Length1 && left.Length1 == right.Length0 && j < right.Length1
  {
    if k == 0 then 0 else Dot(left, right, i, j, k - 1) + left[i, k - 1] * right[k - 1, j]
  }

  /** operator*: entry (i, j) of the N x K product is row i of left times column j of right. */
  method Mul(left: array2<int>, right: array2<int>) returns (result: array2<int>)
    requires left.Length1 == right.Length0
    ensures fresh(result) && result.Length0 == left.Length0 && result.Length1 == right.Length1
    ensures forall i, j :: 0 <= i < left.Length0 && 0 <= j < right.Length1 ==>
              result[i, j] == Dot(left, right, i, j, left.Length1)
  {
    result := new int[left.Length0, right.Length1];
    var i := 0;
    while i < left.Length0
      invariant 0 <= i <= left.Length0
      invariant forall p, q :: 0 <= p < i && 0 <= q < right.Length1 ==> result[p, q] == Dot(left, right, p, q, left.Length1)
    {
      var j := 0;
      while j < right.Length1
        invariant 0 <= j <= right.Length1
        invariant forall p, q :: 0 <= p < i && 0 <= q < right.Length1 ==> result[p, q] == Dot(left, right, p, q, left.Length1)
        invariant forall q :: 0 <= q < j ==> result[i, q] == Dot(left, right, i, q, left.Length1)
      {
        result[i, j] := 0;
        var k := 0;
        while k < left.Length1
          invariant 0 <= k <= left.Length1
          invariant forall p, q :: 0 <= p < i && 0 <= q < right.Length1 ==> result[p, q] == Dot(left, right, p, q, left.Length1)
          invariant forall q :: 0 <= q < j ==> result[i, q] == Dot(left, right, i, q, left.Length1)
          invariant result[i, j] == Dot(left, right, i, j, k)
        {
          result[i, j] := result[i, j] + left[i, k] * right[k, j];
          k := k + 1;
        }
        j := j + 1;
      }
      i := i + 1;
    }
  }

  /** Copies the entries of source into target (the assignment `left = result`). */
  method CopyInto(target: array2<int>, source: array2<int>)
    requires source.Length0 == target.Length0 && source.Length1 == target.Length1 && source != target
    modifies target
    ensures forall i, j :: 0 <= i < target.Length0 && 0 <= j < target.Length1 ==> target[i, j] == source[i, j]
  {
    var i := 0;
    while i < target.Length0
      invariant 0 <= i <= target.Length0
      invariant forall p, q :: 0 <= p < i && 0 <= q < target.Length1 ==> target[p, q] == source[p, q]
    {
      var j := 0;
      while j < target.Length1
        invariant 0 <= j <= target.Length1
        invariant forall p, q :: 0 <= p < i && 0 <= q < target.Length1 ==> target[p, q] == source[p, q]
        invariant forall q :: 0 <= q < j ==> target[i, q] == source[i, q]
      {
        target[i, j] := source[i, j];
        j := j + 1;
      }
      i := i + 1;
    }
  }

  /** operator*=(Matrix): left becomes left * right; the assignment only compiles for a square right operand. */
  method MulAssign(left: array2<int>, right: array2<int>)
    requires left.Length1 == right.Length0 == right.Length1
    modifies left
    ensures forall i, j :: 0 <= i < left.Length0 && 0 <= j < left.Length1 ==>
              left[i, j] == old(Dot(left, right, i, j, left.Length1))
  {
    var result := Mul(left, right);
    CopyInto(left, result);
  }

  /** operator*(Matrix, int): every entry times n. */
  method ScalarMul(a: array2<int>, n: int) returns (result: array2<int>)
    ensures fresh(result) && result.Length0 == a.Length0 && result.Length1 == a.Length1
    ensures forall i, j :: 0 <= i < a.Length0 && 0 <= j < a.Length1 ==> result[i, j] == a[i, j] * n
  {
    result := new int[a.Length0, a.Length1];
    var i := 0;
    while i < a.Length0
      invariant 0 <= i <= a.Length0
      invariant forall p, q :: 0 <= p < i && 0 <= q < a.Length1 ==> result[p, q] == a[p, q] * n
    {
      var j := 0;
      while j < a.Length1
        invariant 0 <= j <= a.Length1
        invariant forall p, q :: 0 <= p < i && 0 <= q < a.Length1 ==> result[p, q] == a[p, q] * n
        invariant forall q :: 0 <= q < j ==> result[i, q] == a[i, q] * n
      {
        result[i, j] := a[i, j] * n;
        j := j + 1;
      }
      i := i + 1;
    }
  }

  /** operator*(int, Matrix): the same as the matrix on the left. */
  method ScalarMulLeft(n: int, a: array2<int>) returns (result: array2<int>)
    ensures fresh(result) && result.Length0 == a.Length0 && result.Length1 == a.Length1
    ensures forall i, j :: 0 <= i < a.Length0 && 0 <= j < a.Length1 ==> result[i, j] == n * a[i, j]
  {
    result := ScalarMul(a, n);
  }

  /** operator*=(Matrix, int): every entry multiplied by n in place. */
  method ScalarMulAssign(a: array2<int>, n: int)
    modifies a
    ensures forall i, j :: 0 <= i < a.Length0 && 0 <= j < a.Length1 ==> a[i, j] == old(a[i, j]) * n
  {
    var i := 0;
    while i < a.Length0
      invariant 0 <= i <= a.Length0
      invariant forall p, q :: 0 <= p < a.Length0 && 0 <= q < a.Length1 ==>
                  a[p, q] == if Before(p, q, i, 0) then old(a[p, q]) * n else old(a[p, q])
    {
      var j := 0;
      while j < a.Length1
        invariant 0 <= j <= a.Length1
        invariant forall p, q :: 0 <= p < a.Length0 && 0 <= q < a.Length1 ==>
                    a[p, q] == if Before(p, q, i, j) then old(a[p, q]) * n else old(a[p, q])
      {
        a[i, j] := a[i, j] * n;
        j := j + 1;
      }
      i := i + 1;
    }
  }

  /** operator*=(int, Matrix): the matrix is the one updated. */
  method ScalarMulAssignLeft(n: int, a: array2<int>)
    modifies a
    ensures forall i, j :: 0 <= i < a.Length0 && 0 <= j < a.Length1 ==> a[i, j] == n * old(a[i, j])
  {
    ScalarMulAssign(a, n);
  }

  /** operator/(Matrix, int) on int entries: C++ division of every entry, truncating toward zero. */
  method ScalarDiv(a: array2<int>, n: int) returns (result: array2<int>)
    requires n != 0
    ensures fresh(result) && result.Length0 == a.Length0 && result.Length1 == a.Length1
    ensures forall i, j :: 0 <= i < a.Length0 && 0 <= j < a.Length1 ==> result[i, j] == TruncDiv(a[i, j], n)
  {
    result := new int[a.Length0, a.Length1];
    var i := 0;
    while i < a.Length0
      invariant 0 <= i <= a.Length0
      invariant forall p, q :: 0 <= p < i && 0 <= q < a.Length1 ==> result[p, q] == TruncDiv(a[p, q], n)
    {
      var j := 0;
      while j < a.Length1
        invariant 0 <= j <= a.Length1
        invariant forall p, q :: 0 <= p < i && 0 <= q < a.Length1 ==> result[p, q] == TruncDiv(a[p, q], n)
        invariant forall q :: 0 <= q < j ==> result[i, q] == TruncDiv(a[i, q], n)
      {
        result[i, j] := TruncDiv(a[i, j], n);
        j := j + 1;
      }
      i := i + 1;
    }
  }

  /** operator/(int, Matrix): divides the matrix by n; the operands are not reversed. */
  method ScalarDivLeft(n: int, a: array2<int>) returns (result: array2<int>)
    requires n != 0
    ensures fresh(result) && result.Length0 == a.Length0 && result.Length1 == a.Length1
    ensures forall i, j :: 0 <= i < a.Length0 && 0 <= j < a.Length1 ==> result[i, j] == TruncDiv(a[i, j], n)
  {
    result := ScalarDiv(a, n);
  }

  /** operator/=(Matrix, int): `matrix = matrix / n`. */
  method ScalarDivAssign(a: array2<int>, n: int)
    requires n != 0
    modifies a
    ensures forall i, j :: 0 <= i < a.Length0 && 0 <= j < a.Length1 ==> a[i, j] == TruncDiv(old(a[i, j]), n)
  {
    var result := ScalarDiv(a, n);
    CopyInto(a, result);
  }

  /** operator/=(int, Matrix): the matrix is divided by n. */
  method ScalarDivAssignLeft(n: int, a: array2<int>)
    requires n != 0
    modifies a
    ensures forall i, j :: 0 <= i < a.Length0 && 0 <= j < a.Length1 ==> a[i, j] == TruncDiv(old(a[i, j]), n)
  {
    ScalarDivAssign(a, n);
  }

  /** operator==: false at the first entry that differs. */
  method Equal(left: array2<int>, right: array2<int>) returns (r: bool)
    requires right.Length0 == left.Length0 && right.Length1 == left.Length1
    ensures r <==> forall i, j :: 0 <= i < left.Length0 && 0 <= j < left.Length1 ==> left[i, j] == right[i, j]
  {
    var i := 0;
    while i < left.Length0
      invariant 0 <= i <= left.Length0
      invariant forall p, q :: 0 <= p < i && 0 <= q < left.Length1 ==> left[p, q] == right[p, q]
    {
      var j := 0;
      while j < left.Length1
        invariant 0 <= j <= left.Length1
        invariant forall q :: 0 <= q < j ==> left[i, q] == right[i, q]
      {
        if left[i, j] != right[i, j] {
          return false;
        }
        j := j + 1;
      }
      i := i + 1;
    }
    return true;
  }

  /** operator!=: true at the first entry that differs, so exactly the negation of operator==. */
  method NotEqual(left: array2<int>, right: array2<int>) returns (r: bool)
    requires right.Length0 == left.Length0 && right.Length1 == left.Length1
    ensures r <==> exists i, j :: 0 <= i < left.Length0 && 0 <= j < left.Length1 && left[i, j] != right[i, j]
  {
    var i := 0;
    while i < left.Length0
      invariant 0 <= i <= left.Length0
      invariant forall p, q :: 0 <= p < i && 0 <= q < left.Length1 ==> left[p, q] == right[p, q]
    {
      var j := 0;
      while j < left.Length1
        invariant 0 <= j <= left.Length1
        invariant forall q :: 0 <= q < j ==> left[i, q] == right[i, q]
      {
        if left[i, j] != right[i, j] {
          return true;
        }
        j := j + 1;
      }
      i := i + 1;
    }
    return false;
  }

  /** GetTransposed: the M x N matrix whose entry (i, j) is entry (j, i) of a. */
  method GetTransposed(a: array2<int>) returns (t: array2<int>)
    ensures fresh(t) && t.Length0 == a.Length1 && t.Length1 == a.Length0
    ensures forall i, j :: 0 <= i < a.Length1 && 0 <= j < a.Length0 ==> t[i, j] == a[j, i]
  {
    t := new int[a.Length1, a.Length0];
    var i := 0;
    while i < a.Length1
      invariant 0 <= i <= a.Length1
      invariant forall p, q :: 0 <= p < i && 0 <= q < a.Length0 ==> t[p, q] == a[q, p]
    {
      var j := 0;
      while j < a.Length0
        invariant 0 <= j <= a.Length0
        invariant forall p, q :: 0 <= p < i && 0 <= q < a.Length0 ==> t[p, q] == a[q, p]
        invariant forall q :: 0 <= q < j ==> t[i, q] == a[q, i]
      {
        t[i, j] := a[j, i];
        j := j + 1;
      }
      i := i + 1;
    }
  }

  /** Transpose: `matrix = GetTransposed(matrix)`, which only compiles for a square matrix. */
  method Transpose(a: array2<int>)
    requires a.Length0 == a.Length1
    modifies a
    ensures forall i, j :: 0 <= i < a.Length0 && 0 <= j < a.Length1 ==> a[i, j] == old(a[j, i])
  {
    var t := GetTransposed(a);
    CopyInto(a, t);
  }

  /** Two matrices are each other's transposes. */
  predicate Transposes(a: array2<int>, t: array2<int>)
    reads a, t
  {
    t.Length0 == a.Length1 && t.Length1 == a.Length0 &&
    forall i, j :: 0 <= i < a.Length1 && 0 <= j < a.Length0 ==> t[i, j] == a[j, i]
  }

  /** Transposing twice gives the matrix back. */
  lemma TransposeTwice(a: array2<int>, t: array2<int>, u: array2<int>)
    requires Transposes(a, t) && Transposes(t, u)
    ensures u.Length0 == a.Length0 && u.Length1 == a.Length1
    ensures forall i, j :: 0 <= i < a.Length0 && 0 <= j < a.Length1 ==> u[i, j] == a[i, j]
  {
  }

  /** The sum of the first k diagonal entries. */
  function DiagonalSum(a: array2<int>, k: nat): int
    reads a
    requires k <= a.Length0 && k <= a.Length1
  {
    if k == 0 then 0 else DiagonalSum(a, k - 1) + a[k - 1, k - 1]
  }

  /** Trace: the sum of the diagonal of a square matrix. */
  method Trace(a: array2<int>) returns (trace: int)
    requires a.Length0 == a.Length1
    ensures trace == DiagonalSum(a, a.Length0)
  {
    trace := 0;
    var i := 0;
    while i < a.Length0
      invariant 0 <= i <= a.Length0
      invariant trace == DiagonalSum(a, i)
    {
      trace := trace + a[i, i];
      i := i + 1;
    }
  }

  /** A matrix and its transpose have the same trace. */
  lemma {:induction false} TraceOfTranspose(a: array2<int>, t: array2<int>, k: nat)
    requires Transposes(a, t) && k <= a.Length0 && k <= a.Length1
    ensures DiagonalSum(t, k) == DiagonalSum(a, k)
  {
    if k > 0 {
      TraceOfTranspose(a, t, k - 1);
    }
  }

  /** The trace of a sum is the sum of the traces. */
  lemma {:induction false} TraceOfSum(a: array2<int>, b: array2<int>, s: array2<int>, k: nat)
    requires k <= a.Length0 && k <= a.Length1
    requires b.Length0 == s.Length0 == a.Length0 && b.Length1 == s.Length1 == a.Length1
    requires forall i, j :: 0 <= i < a.Length0 && 0 <= j < a.Length1 ==> s[i, j] == a[i, j] + b[i, j]
    ensures DiagonalSum(s, k) == DiagonalSum(a, k) + DiagonalSum(b, k)
  {
    if k > 0 {
      TraceOfSum(a, b, s, k - 1);
    }
  }

  /** Entry (i, j) of an identity matrix. */
  predicate IsIdentity(e: array2<int>)
    reads e
  {
    e.Length0 == e.Length1 && forall p, q :: 0 <= p < e.Length0 && 0 <= q < e.Length1 ==> e[p, q] == if p == q then 1 else 0
  }

  /** Multiplying by the identity on the right changes nothing: the partial sums pick out entry (i, j). */
  lemma {:induction false} DotIdentityRight(a: array2<int>, e: array2<int>, i: nat, j: nat, k: nat)
    requires IsIdentity(e) && a.Length1 == e.Length0 && i < a.Length0 && j < e.Length1 && k <= a.Length1
    ensures Dot(a, e, i, j, k) == if j < k then a[i, j] else 0
  {
    if k > 0 {
      DotIdentityRight(a, e, i, j, k - 1);
    }
  }

  /** Multiplying by the identity on the left changes nothing. */
  lemma {:induction false} DotIdentityLeft(e: array2<int>, a: array2<int>, i: nat, j: nat, k: nat)
    requires IsIdentity(e) && e.Length1 == a.Length0 && i < e.Length0 && j < a.Length1 && k <= e.Length1
    ensures Dot(e, a, i, j, k) == if i < k then a[i, j] else 0
  {
    if k > 0 {
      DotIdentityLeft(e, a, i, j, k - 1);
    }
  }

  /** Index p of the matrix with index k deleted, in the original matrix. */
  function Skip(p: nat, k: nat): nat {
    if p < k then p else p + 1
  }

  /** (-1)^k. */
  function Sign(k: nat): int {
    if k % 2 == 0 then 1 else -1
  }

  /**
   * The algebraic addition as a value: row `row` and column `col` deleted, and
   * each kept entry multiplied by (-1) to the sum of its original indices.
   */
  function Addition(g: Grid, row: nat, col: nat): (r: Grid)
    requires IsSquare(g) && row < |g| && col < |g|
    ensures |r| == |g| - 1 && IsSquare(r)
  {
    seq(|g| - 1, p requires 0 <= p < |g| - 1 =>
      seq(|g| - 1, q requires 0 <= q < |g| - 1 =>
        g[Skip(p, row)][Skip(q, col)] * Sign(Skip(p, row) + Skip(q, col))))
  }

  /**
   * GetAlgebraicAddition: walks the rows and columns of a, skipping `row` and
   * `column`, and writes each kept entry, multiplied by the sign of its
   * original position, at the next free place counted by `additionRow` and
   * `additionCol`.
   */
  method GetAlgebraicAddition(a: array2<int>, row: nat, column: nat) returns (addition: array2<int>)
    requires a.Length0 == a.Length1 && row < a.Length0 && column < a.Length0
    ensures fresh(addition) && addition.Length0 == addition.Length1 == a.Length0 - 1
    ensures forall p, q :: 0 <= p < a.Length0 - 1 && 0 <= q < a.Length0 - 1 ==>
              addition[p, q] == a[Skip(p, row), Skip(q, column)] * Sign(Skip(p, row) + Skip(q, column))
    ensures Cells(addition) == Addition(Cells(a), row, column)
  {
    var n := a.Length0;
    addition := new int[n - 1, n - 1];
    var additionRow := 0;
    var i := 0;
    while i < n
      invariant 0 <= i <= n
      invariant additionRow == if i <= row then i else i - 1
      invariant forall p, q :: 0 <= p < additionRow && 0 <= q < n - 1 ==>
                  addition[p, q] == a[Skip(p, row), Skip(q, column)] * Sign(Skip(p, row) + Skip(q, column))
    {
      if i == row {
        i := i + 1;
        continue;
      }
      AdditionRow(a, addition, i, column, additionRow);
      assert Skip(additionRow, row) == i;
      additionRow := additionRow + 1;
      i := i + 1;
    }
    CellsOfAddition(a, addition, row, column);
  }

  /**
   * The inner loop of GetAlgebraicAddition: row i of a, without column
   * `column` and with the signs of the original positions, becomes row
   * `additionRow` of the addition; the other rows stay as they were.
   */
  method AdditionRow(a: array2<int>, addition: array2<int>, i: nat, column: nat, additionRow: nat)
    requires a.Length0 == a.Length1 && i < a.Length0 && column < a.Length0
    requires addition.Length0 == addition.Length1 == a.Length0 - 1 && additionRow < addition.Length0
    requires addition != a
    modifies addition
    ensures forall p, q :: 0 <= p < addition.Length0 && p != additionRow && 0 <= q < addition.Length1 ==>
              addition[p, q] == old(addition[p, q])
    ensures forall q :: 0 <= q < addition.Length1 ==>
              addition[additionRow, q] == a[i, Skip(q, column)] * Sign(i + Skip(q, column))
  {
    var n := a.Length0;
    var additionCol := 0;
    var j := 0;
    while j < n
      invariant 0 <= j <= n
      invariant additionCol == if j <= column then j else j - 1
      invariant forall p, q :: 0 <= p < addition.Length0 && p != additionRow && 0 <= q < addition.Length1 ==>
                  addition[p, q] == old(addition[p, q])
      invariant forall q :: 0 <= q < additionCol ==>
                  addition[additionRow, q] == a[i, Skip(q, column)] * Sign(i + Skip(q, column))
    {
      if j == column {
        j := j + 1;
        continue;
      }
      addition[additionRow, additionCol] := a[i, j] * (if (i + j) % 2 == 0 then 1 else -1);
      additionCol := additionCol + 1;
      j := j + 1;
    }
  }

  /** Entry-wise agreement with the algebraic addition makes the cells equal to it. */
  lemma CellsOfAddition(a: array2<int>, addition: array2<int>, row: nat, column: nat)
    requires a.Length0 == a.Length1 && row < a.Length0 && column < a.Length0
    requires addition.Length0 == addition.Length1 == a.Length0 - 1
    requires forall p, q :: 0 <= p < a.Length0 - 1 && 0 <= q < a.Length0 - 1 ==>
               addition[p, q] == a[Skip(p, row), Skip(q, column)] * Sign(Skip(p, row) + Skip(q, column))
    ensures Cells(addition) == Addition(Cells(a), row, column)
  {
    var g, h := Cells(addition), Addition(Cells(a), row, column);
    forall p | 0 <= p < |g|
      ensures g[p] == h[p]
    {
    }
  }

  /** The determinant as the C++ recursion computes it: the entry of a 1 x 1 matrix, otherwise the expansion along row 0. */
  function Det(g: Grid): int
    requires IsSquare(g) && |g| >= 1
    decreases |g|, 1
  {
    if |g| == 1 then g[0][0] else Expansion(g, |g|)
  }

  /** The first k terms g(0, j) * Det(Addition(g, 0, j)) of the expansion along row 0. */
  function Expansion(g: Grid, k: nat): int
    requires IsSquare(g) && |g| >= 2 && k <= |g|
    decreases |g|, 0, k
  {
    if k == 0 then 0 else Expansion(g, k - 1) + g[0][k - 1] * Det(Addition(g, 0, k - 1))
  }

  /** Determinant: the entry of a 1 x 1 matrix; otherwise the cofactor sum along row 0, recursing on each algebraic addition. */
  method Determinant(a: array2<int>) returns (determinant: int)
    requires a.Length0 == a.Length1 >= 1
    ensures determinant == Det(Cells(a))
    decreases a.Length0, 1
  {
    if a.Length0 == 1 {
      return a[0, 0];
    }
    determinant := 0;
    var j := 0;
    while j < a.Length0
      invariant 0 <= j <= a.Length0
      invariant determinant == Expansion(Cells(a), j)
    {
      var term := ExpansionTerm(a, j);
      determinant := determinant + term;
      j := j + 1;
    }
  }

  /** One turn of the loop of Determinant: entry (0, j) times the determinant of its algebraic addition. */
  method ExpansionTerm(a: array2<int>, j: nat) returns (term: int)
    requires a.Length0 == a.Length1 >= 2 && j < a.Length0
    ensures term == Cells(a)[0][j] * Det(Addition(Cells(a), 0, j))
    decreases a.Length0, 0
  {
    var addition := GetAlgebraicAddition(a, 0, j);
    var minor := Determinant(addition);
    term := a[0, j] * minor;
  }

  /**
   * Entry (i, j) of the inverse as GetInversed computes it on int entries:
   * 1 / a(0, 0) for a 1 x 1 matrix, otherwise the determinant of the
   * algebraic addition at (j, i) divided by the determinant, both divisions
   * truncating toward zero.
   */
  function InverseEntry(g: Grid, i: nat, j: nat): int
    requires IsSquare(g) && |g| >= 1 && i < |g| && j < |g| && Det(g) != 0
  {
    if |g| == 1 then TruncDiv(1, g[0][0]) else TruncDiv(Det(Addition(g, j, i)), Det(g))
  }

  /**
   * GetInversed: MatrixIsDegenerateError exactly when the determinant is 0;
   * otherwise the transpose of the matrix of cofactor determinants, each
   * divided by the determinant.
   */
  method GetInversed(a: array2<int>) returns (result: Result<array2<int>, MatrixError>)
    requires a.Length0 == a.Length1 >= 1
    ensures result.Err? <==> Det(Cells(a)) == 0
    ensures result.Err? ==> result.error == IsDegenerate
    ensures result.Ok? ==> fresh(result.value) && result.value.Length0 == result.value.Length1 == a.Length0
    ensures result.Ok? ==> forall i, j :: 0 <= i < a.Length0 && 0 <= j < a.Length0 ==>
              result.value[i, j] == InverseEntry(Cells(a), i, j)
  {
    var n := a.Length0;
    if n == 1 {
      if a[0, 0] == 0 {
        return Err(IsDegenerate);
      }
      var single := new int[1, 1];
      single[0, 0] := TruncDiv(1, a[0, 0]);
      return Ok(single);
    }
    var determinant := Determinant(a);
    if determinant == 0 {
      return Err(IsDegenerate);
    }
    var inversed := new int[n, n];
    var i := 0;
    while i < n
      invariant 0 <= i <= n
      invariant forall p, q :: 0 <= p < i && 0 <= q < n ==> inversed[p, q] == InverseEntry(Cells(a), q, p)
    {
      InverseRow(a, inversed, i, determinant);
      i := i + 1;
    }
    var transposed := GetTransposed(inversed);
    return Ok(transposed);
  }

  /**
   * The inner loop of GetInversed: row i of the matrix it builds holds, in
   * column j, the determinant of the algebraic addition of (i, j) divided by
   * the determinant; the other rows stay as they were.
   */
  method InverseRow(a: array2<int>, inversed: array2<int>, i: nat, determinant: int)
    requires a.Length0 == a.Length1 >= 2 && i < a.Length0
    requires inversed.Length0 == inversed.Length1 == a.Length0 && inversed != a
    requires determinant == Det(Cells(a)) != 0
    modifies inversed
    ensures forall p, q :: 0 <= p < inversed.Length0 && p != i && 0 <= q < inversed.Length1 ==>
              inversed[p, q] == old(inversed[p, q])
    ensures forall q :: 0 <= q < inversed.Length1 ==> inversed[i, q] == InverseEntry(Cells(a), q, i)
  {
    var n := a.Length0;
    ghost var g := Cells(a);
    var j := 0;
    while j < n
      invariant 0 <= j <= n && g == Cells(a)
      invariant forall p, q :: 0 <= p < n && p != i && 0 <= q < n ==> inversed[p, q] == old(inversed[p, q])
      invariant forall q :: 0 <= q < j ==> inversed[i, q] == InverseEntry(g, q, i)
    {
      var addition := GetAlgebraicAddition(a, i, j);
      var minor := Determinant(addition);
      assert InverseEntry(g, j, i) == TruncDiv(minor, determinant);
      inversed[i, j] := TruncDiv(minor, determinant);
      j := j + 1;
    }
  }

  /** Inverse: the matrix becomes its inverse, or is left as it was when it is degenerate. */
  method Inverse(a: array2<int>) returns (outcome: Outcome<MatrixError>)
    requires a.Length0 == a.Length1 >= 1
    modifies a
    ensures outcome.Fail? <==> old(Det(Cells(a))) == 0
    ensures outcome.Fail? ==> outcome.error == IsDegenerate && unchanged(a)
    ensures outcome.Pass? ==> forall i, j :: 0 <= i < a.Length0 && 0 <= j < a.Length0 ==>
              a[i, j] == old(InverseEntry(Cells(a), i, j))
  {
    var result := GetInversed(a);
    if result.Err? {
      return Fail(result.error);
    }
    CopyInto(a, result.value);
    return Pass;
  }

  /** Zeros above the diagonal. */
  predicate LowerTriangular(g: Grid)
    requires IsSquare(g)
  {
    forall i, j :: 0 <= i < j < |g| ==> g[i][j] == 0
  }

  /** The product of the diagonal entries from index k on. */
  function DiagonalProduct(g: Grid, k: nat): int
    requires IsSquare(g)
    decreases |g| - k
  {
    if k >= |g| then 1 else g[k][k] * DiagonalProduct(g, k + 1)
  }

  /** The algebraic addition at (0, 0) keeps the diagonal (its signs there are all +1), shifted by one. */
  lemma {:induction false} AdditionDiagonal(g: Grid, k: nat)
    requires IsSquare(g) && |g| >= 1
    ensures DiagonalProduct(Addition(g, 0, 0), k) == DiagonalProduct(g, k + 1)
    decreases |g| - k
  {
    var h := Addition(g, 0, 0);
    if k < |h| {
      assert h[k][k] == g[k + 1][k + 1];
      AdditionDiagonal(g, k + 1);
    }
  }

  /** Along row 0 of a lower-triangular matrix only the first term of the expansion survives. */
  lemma {:induction false} ExpansionLowerTriangular(g: Grid, k: nat)
    requires IsSquare(g) && |g| >= 2 && 1 <= k <= |g| && LowerTriangular(g)
    ensures Expansion(g, k) == g[0][0] * Det(Addition(g, 0, 0))
  {
    if k > 1 {
      ExpansionLowerTriangular(g, k - 1);
      assert g[0][k - 1] == 0;
    }
  }

  /** The determinant of a lower-triangular matrix is the product of its diagonal. */
  lemma {:induction false} DetLowerTriangular(g: Grid)
    requires IsSquare(g) && |g| >= 1 && LowerTriangular(g)
    ensures Det(g) == DiagonalProduct(g, 0)
    decreases |g|
  {
    if |g| > 1 {
      var h := Addition(g, 0, 0);
      assert LowerTriangular(h) by {
        forall p, q | 0 <= p < q < |h|
          ensures h[p][q] == 0
        {
          assert g[p + 1][q + 1] == 0;
        }
      }
      DetLowerTriangular(h);
      AdditionDiagonal(g, 0);
      ExpansionLowerTriangular(g, |g|);
    } else {
      assert DiagonalProduct(g, 1) == 1;
    }
  }

  /** The identity matrix of size n as a value. */
  function IdentityGrid(n: nat): (g: Grid)
    ensures |g| == n && IsSquare(g)
  {
    seq(n, i requires 0 <= i < n => seq(n, j requires 0 <= j < n => if i == j then 1 else 0))
  }

  /** The identity matrix has determinant 1. */
  lemma {:induction false} DetIdentity(n: nat)
    requires n >= 1
    ensures Det(IdentityGrid(n)) == 1
  {
    var g := IdentityGrid(n);
    DetLowerTriangular(g);
    DiagonalOfIdentity(g, 0);
  }

  lemma {:induction false} DiagonalOfIdentity(g: Grid, k: nat)
    requires IsSquare(g) && forall i :: 0 <= i < |g| ==> g[i][i] == 1
    ensures DiagonalProduct(g, k) == 1
    decreases |g| - k
  {
    if k < |g| {
      DiagonalOfIdentity(g, k + 1);
    }
  }

  /** The 2 x 2 case of the recursion is a * d - b * c. */
  lemma {:induction false} DetTwoByTwo(a: int, b: int, c: int, d: int)
    ensures Det([[a, b], [c, d]]) == a * d - b * c
  {
    var g := [[a, b], [c, d]];
    var first, second := Addition(g, 0, 0), Addition(g, 0, 1);
    assert Skip(0, 0) == 1 && Skip(0, 1) == 0 && Sign(2) == 1 && Sign(1) == -1;
    assert first[0][0] == d;
    assert second[0][0] == -c;
    assert Det(first) == d && Det(second) == -c;
    assert Expansion(g, 1) == a * Det(first);
    assert Expansion(g, 2) == Expansion(g, 1) + b * Det(second);
  }
}
