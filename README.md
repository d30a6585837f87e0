# Verified model of a C++ container and number library

This project models four headers of a small C++ teaching library and proves
what they compute:

- **BigInteger** (`BigInteger/big_integer.h`, `BigInteger/big_integer.cpp`): a signed
  arbitrary-precision integer. It is stored as base-1000 limbs, least-significant
  first, plus a sign flag. It offers construction from `int`, `int64_t` and
  decimal text, with an overflow error above 30000 digits. The operators are
  `+ - * / %`, the compound and `int`-mixed forms, `++`/`--`, comparisons,
  `operator bool`, `Pow` and the text printed by `operator<<`.
- **Vector** (`Vector/vector.h`): a growable buffer of `int` with size and
  capacity bookkeeping and capacity doubling on `PushBack`.
- **Matrix** (`Matrix/matrix.h`): fixed-size matrices over `int`. The model covers:
  - checked access;
  - entry-wise and scalar arithmetic, the matrix product, equality;
  - transposition and trace;
  - the signed minor the library calls the "algebraic addition";
  - the recursive cofactor determinant and the inverse.
- **Array** (`Array/array.h`): a fixed-size array and the type traits
  `GetSize`, `GetRank` and `GetNumElements`.

## Files and modules

| file | module | contents |
|---|---|---|
| `results.dfy` | `Results` | `Result` and `Outcome`, which stand for thrown exceptions |
| `limbs.dfy` | `LimbArithmetic` | the value of a base-1000 limb sequence (`Magnitude`) and the canonical limbs of a natural (`Limbs`) |
| `decimal.dfy` | `Decimal` | decimal digit strings, their value and the canonical text of a natural |
| `integer_division.dfy` | `IntegerDivision` | C++ `/` and `%` (truncating toward zero), written out because Dafny's are Euclidean |
| `big_integer.dfy` | `BigIntegers` | the `BigInt` value, the `BigInteger` class, construction, parsing, sign, comparisons |
| `big_arithmetic.dfy` | `BigArithmetic` | `+ - * / %`, the compound and `int` forms, `++`/`--`, `Pow` |
| `big_format.dfy` | `BigFormat` | the text of `operator<<` and the round trips with parsing |
| `vector.dfy` | `Vectors` | the class `Vector` over an `array<int>` |
| `matrix.dfy` | `Matrices` | matrices as `array2<int>`; `Det` and `Addition` specify the determinant over `seq<seq<int>>` |
| `array.dfy` | `FixedArrays` | the class `FixedArray<T>` and the `Shape` datatype for the traits |

### Modelling choices

BigInteger:
- Every arithmetic operator is a method with the loops of the source (carry
  propagation, schoolbook multiplication, long division with a binary search per
  limb). Each is proved to return `Canonical(v)`: the normalised limbs of `|v|`
  with the sign set exactly when `v < 0`, where `v` is the mathematical result.
- Integers are unbounded in Dafny. The C++ `int` locals in these loops stay far
  below 2^31 (a partial product is below 1000 * 1000 + 1000), so no wrap-around is
  modelled.
- The members that rewrite `*this` (`RemoveLeadingZeros`, `FromString`, the
  compound operators, `++`/`--`) act on the class `BigIntegers.BigInteger`.
- Behaviours kept as the code has them:
  - `"-0"` parses to a negative zero;
  - unary minus flips the sign of zero;
  - a negative zero prints as `-0` and is not `==` to zero;
  - `operator<` compares two negative numbers by magnitude (see Findings).

Vector:
- `data_` is an `array<int>`. The null pointer of a vector that never allocated
  is an empty array.

Matrix:
- A `Matrix<int, N, M>` is an N x M `array2<int>`. The template dimensions
  become array lengths, and the equalities of dimensions that the templates
  enforce at compile time become preconditions.

## Model

| member | source | states |
|---|---|---|
| `LimbArithmetic.Limbs` | BigInteger/big_integer.h:25-29 | the limbs of n are normalised (each in [0,1000), no zero top limb unless n is 0) and denote n |
| `LimbArithmetic.LimbsUnique` | BigInteger/big_integer.h:25-29 | normalised limbs are the only normalised representation of their value |
| `BigIntegers.Canonical` | BigInteger/big_integer.h:25-26 | the representation operators produce for v is normalised, denotes v and is negative exactly when v < 0 |
| `BigIntegers.IsZero` | BigInteger/big_integer.cpp:31-33 | for normalised limbs, true exactly when the magnitude is 0, whatever the sign |
| `BigIntegers.BigInteger.constructor` | BigInteger/big_integer.cpp:46-48 | the default object is the single limb 0, non-negative |
| `BigIntegers.BigInteger.RemoveLeadingZeros` | BigInteger/big_integer.cpp:6-10 | drops only zero top limbs, keeps at least one limb, keeps the value and the sign, and leaves normalised limbs |
| `BigIntegers.SplitGroups` | BigInteger/big_integer.cpp:20-24 | one limb per 3-digit group counted from the right, each limb the value of its group, and together they denote the digit string |
| `BigIntegers.BigInteger.FromString` | BigInteger/big_integer.cpp:12-29 | stores the canonical limbs of the digits with the sign set by a leading '-'; reports Overflow exactly when the limbs hold more than 30000 digits |
| `BigIntegers.TrimmedGroups` | BigInteger/big_integer.cpp:20-25 | once the zero top limbs are dropped the groups are the canonical limbs of the digits, each still the value of its group |
| `BigIntegers.LimbCount` | BigInteger/big_integer.cpp:20-26 | digits without a leading zero give exactly ceil(n/3) limbs |
| `BigIntegers.OverflowBoundary` | BigInteger/big_integer.cpp:26-28 | a numeral without leading zeros overflows exactly when it has more than 30000 digits |
| `BigIntegers.Parse` | BigInteger/big_integer.cpp:67-69 | construction from text yields the parsed value, or the Overflow error exactly when the parse overflows |
| `BigIntegers.FromInt64` | BigInteger/big_integer.cpp:53-65 | the limbs of abs(value) least-significant first, sign set exactly for value < 0, 0 as [0]; at most 7 limbs, so the overflow check never fires |
| `BigIntegers.FromInt` | BigInteger/big_integer.cpp:50-51 | an int converts to the canonical representation of the same value |
| `BigIntegers.Abs` | BigInteger/big_integer.cpp:75-79 | the sign flag is cleared and the value is the absolute value |
| `BigIntegers.Neg` | BigInteger/big_integer.cpp:85-89 | the value is negated and the sign flag always flips, also for zero |
| `BigIntegers.ToBool` | BigInteger/big_integer.cpp:316-318 | true exactly when the value is not 0 |
| `BigIntegers.Equal` | BigInteger/big_integer.cpp:320-322 | equal sign flags and equal limbs; agrees with equality of values when neither side is a negative zero |
| `BigIntegers.NotEqual` | BigInteger/big_integer.cpp:324-326 | exactly when the flags or the magnitudes differ |
| `BigIntegers.Less` | BigInteger/big_integer.cpp:328-341 | differing flags: true exactly for the negative one; equal flags: magnitude order (not reversed for negatives); for non-negatives the order of values |
| `BigIntegers.LessSameLength` | BigInteger/big_integer.cpp:335-340 | the limb-by-limb scan from the top of equal-length limbs answers exactly whether the first magnitude is smaller |
| `BigIntegers.LessOrEqual` | BigInteger/big_integer.cpp:343-345 | the same with non-strict magnitude order |
| `BigIntegers.Greater` | BigInteger/big_integer.cpp:347-349 | the negation of operator<=: strict magnitude order the other way, value order for non-negatives |
| `BigIntegers.GreaterOrEqual` | BigInteger/big_integer.cpp:351-353 | the negation of operator< |
| `BigIntegers.NegativeOrderReversed` | BigInteger/big_integer.cpp:328-341 | for -5 and -3 both flags are set and 5 < 3 fails, although -5 < -3 |
| `BigIntegers.OrderedLess` | BigInteger/big_integer.cpp:328-341 | the intended order: true exactly when the value of a is below the value of b |
| `IntegerDivision.RemainderBounds` | BigInteger/big_integer.cpp:281-284 | quotient times divisor plus remainder is the dividend; the remainder is smaller than the divisor in absolute value and has the dividend's sign or is 0 |
| `IntegerDivision.TruncDivSymmetry` | BigInteger/big_integer.cpp:271-276 | the quotient is Euclidean for non-negative operands and negating the dividend negates the quotient |
| `BigArithmetic.Normalize` | BigInteger/big_integer.cpp:136-139 | trimming the result limbs gives the canonical limbs of their value, and a zero result is non-negative |
| `BigArithmetic.SumLimbs` | BigInteger/big_integer.cpp:97-109 | the same-sign loop leaves limbs that denote the sum of the magnitudes |
| `BigArithmetic.DiffRound` | BigInteger/big_integer.cpp:120-134 | one round of the mixed-sign loop: a limb and a borrow of 0 or 1 with limb - 1000 * borrow equal to the digit difference minus the borrow in |
| `BigArithmetic.DiffLimbs` | BigInteger/big_integer.cpp:116-135 | the mixed-sign loop leaves limbs that denote the larger magnitude minus the smaller |
| `BigArithmetic.Add` | BigInteger/big_integer.cpp:91-141 | the canonical representation of the sum of the values |
| `BigArithmetic.Sub` | BigInteger/big_integer.cpp:143-146 | the canonical representation of the difference |
| `BigArithmetic.MulRow` | BigInteger/big_integer.cpp:153-165 | one pass of the inner loop adds l[i] * r * 1000^i to the partial product |
| `BigArithmetic.Mul` | BigInteger/big_integer.cpp:148-172 | the canonical representation of the product |
| `BigArithmetic.QuotientLimb` | BigInteger/big_integer.cpp:255-267 | the binary search finds the largest x in [0,1000] with divisor * x <= current |
| `BigArithmetic.DivisionRound` | BigInteger/big_integer.cpp:250-270 | one long-division step: a quotient limb and a remainder below the divisor with digit + 1000 * current = x * divisor + remainder |
| `BigArithmetic.LongDivision` | BigInteger/big_integer.cpp:242-270 | the quotient limbs, one per dividend limb, and a remainder below the divisor with dividend = quotient * divisor + remainder |
| `BigArithmetic.Div` | BigInteger/big_integer.cpp:237-279 | DivisionByZero exactly for a zero divisor, otherwise the canonical representation of the quotient truncated toward zero |
| `BigArithmetic.Mod` | BigInteger/big_integer.cpp:281-284 | DivisionByZero exactly for a zero divisor, otherwise the canonical representation of the C++ remainder |
| `BigArithmetic.AddInt` | BigInteger/big_integer.cpp:189-191 | BigInteger + int is the canonical sum |
| `BigArithmetic.SubInt` | BigInteger/big_integer.cpp:193-195 | BigInteger - int is the canonical difference |
| `BigArithmetic.MulInt` | BigInteger/big_integer.cpp:197-199 | BigInteger * int is the canonical product |
| `BigArithmetic.IntAdd` | BigInteger/big_integer.cpp:201-203 | int + BigInteger is the canonical sum |
| `BigArithmetic.IntSub` | BigInteger/big_integer.cpp:205-207 | int - BigInteger is the canonical difference |
| `BigArithmetic.IntMul` | BigInteger/big_integer.cpp:209-211 | int * BigInteger is the canonical product |
| `BigArithmetic.AddAssign` | BigInteger/big_integer.cpp:174-177 | the object becomes the canonical sum |
| `BigArithmetic.SubAssign` | BigInteger/big_integer.cpp:179-182 | the object becomes the canonical difference |
| `BigArithmetic.MulAssign` | BigInteger/big_integer.cpp:184-187 | the object becomes the canonical product |
| `BigArithmetic.DivAssign` | BigInteger/big_integer.cpp:286-288 | on a zero divisor the error and an unchanged object, otherwise the truncated quotient |
| `BigArithmetic.ModAssign` | BigInteger/big_integer.cpp:290-292 | on a zero divisor the error and an unchanged object, otherwise the C++ remainder |
| `BigArithmetic.AddAssignInt` | BigInteger/big_integer.cpp:213-215 | the object grows by the int |
| `BigArithmetic.SubAssignInt` | BigInteger/big_integer.cpp:217-219 | the object shrinks by the int |
| `BigArithmetic.MulAssignInt` | BigInteger/big_integer.cpp:221-223 | the object is multiplied by the int |
| `BigArithmetic.IntAddAssign` | BigInteger/big_integer.cpp:225-227 | the BigInteger on the right grows by the int |
| `BigArithmetic.IntSubAssign` | BigInteger/big_integer.cpp:229-231 | the BigInteger on the right shrinks by the int (r - l, not l - r) |
| `BigArithmetic.IntMulAssign` | BigInteger/big_integer.cpp:233-235 | the BigInteger on the right is multiplied by the int |
| `BigArithmetic.PreIncrement` | BigInteger/big_integer.cpp:294-297 | the object becomes its value plus 1 |
| `BigArithmetic.PostIncrement` | BigInteger/big_integer.cpp:299-303 | returns the value before and leaves the value plus 1 |
| `BigArithmetic.PreDecrement` | BigInteger/big_integer.cpp:305-308 | the object becomes its value minus 1 |
| `BigArithmetic.PostDecrement` | BigInteger/big_integer.cpp:310-314 | returns the value before and leaves the value minus 1 |
| `BigArithmetic.Pow` | BigInteger/big_integer.cpp:35-44 | 1 for a zero power; the base unchanged for a power of 1 or a negative power; otherwise the canonical base^power |
| `BigFormat.Format` | BigInteger/big_integer.cpp:362-378 | the printed text is the sign and the limbs from the top, lower limbs padded to three digits |
| `BigFormat.PrintLimbs` | BigInteger/big_integer.cpp:366-376 | the loop prints the top limb as is and every lower limb padded to three digits |
| `BigFormat.PrintLimb` | BigInteger/big_integer.cpp:367-375 | the top limb prints as a numeral without leading zeros and any lower limb as exactly three digits; either reads back as the limb |
| `BigFormat.LowerLimbText` | BigInteger/big_integer.cpp:367-373 | a lower limb prints as exactly three digits that read back as the limb |
| `BigFormat.LimbsTextValue` | BigInteger/big_integer.cpp:365-377 | the printed limbs are a numeral without a leading zero whose value is the magnitude |
| `BigFormat.FormatShape` | BigInteger/big_integer.cpp:362-378 | the text starts with '-' exactly for a set flag and the rest reads back as the magnitude |
| `BigFormat.ParseFormat` | BigInteger/big_integer.cpp:362-378 | parsing the printed text gives back the same representation, sign flag included |
| `BigFormat.FormatParse` | BigInteger/big_integer.cpp:12-29 | printing the parse of a numeral without '+' and without leading zeros gives the numeral back |
| `Vectors.Vector.constructor` | Vector/vector.h:95-97 | an empty vector with capacity 1 |
| `Vectors.Vector.Sized` | Vector/vector.h:99-106 | n zeros, capacity n |
| `Vectors.Vector.FromList` | Vector/vector.h:108-115 | the list's elements in order, capacity the list's length |
| `Vectors.Vector.Copy` | Vector/vector.h:117-124 | the same elements and capacity in a fresh buffer |
| `Vectors.Vector.Assign` | Vector/vector.h:133-141 | the other's elements and recorded capacity; a larger buffer is kept, so the recorded capacity can understate it |
| `Vectors.Vector.Get` | Vector/vector.h:151-153 | element `index` in use |
| `Vectors.Vector.Set` | Vector/vector.h:147-149 | only element `index` changes |
| `Vectors.Vector.Size` | Vector/vector.h:155-157 | the number of elements |
| `Vectors.Vector.Capacity` | Vector/vector.h:159-161 | at least the size and at most the buffer length |
| `Vectors.Vector.Swap` | Vector/vector.h:163-167 | the two vectors exchange buffers, sizes and capacities |
| `Vectors.Vector.PushBack` | Vector/vector.h:169-178 | the element is appended; the buffer is kept when there is room, otherwise a fresh buffer of twice the size (one cell for an empty vector, the corrected growth of Findings) |
| `Vectors.PushBackCells` | Vector/vector.h:169-178 | PushBack as written, on the fields as values: with room it stores at `size_`; when full with capacity > 0 it keeps the elements and appends |
| `Vectors.PushBackPastBuffer` | Vector/vector.h:169-178 | a vector of capacity 0 with no cell writes past its buffer |
| `Vectors.PushBackLosesElement` | Vector/vector.h:169-178 | after assignment from a capacity-0 vector, two pushes of 5 and 6 leave the new buffer's first cell and 6, whatever that cell holds: the 5 is not moved |
| `Vectors.Vector.Empty` | Vector/vector.h:180-182 | true exactly when there are no elements |
| `Vectors.Vector.PopBack` | Vector/vector.h:184-188 | the last element is dropped; an empty vector stays empty; the buffer stays |
| `Vectors.Vector.Clear` | Vector/vector.h:190-192 | no elements; the buffer and capacity stay |
| `Vectors.Vector.Reserve` | Vector/vector.h:194-199 | the capacity becomes max(capacity, n) and the elements stay |
| `Vectors.Vector.Realloc` | Vector/vector.h:222-235 | a fresh buffer of n cells holding the same elements |
| `Matrices.At` | Matrix/matrix.h:41-53 | the entry exactly when both indices are in range, MatrixOutOfRange otherwise |
| `Matrices.Add` | Matrix/matrix.h:55-63 | a fresh matrix of entry-wise sums |
| `Matrices.Sub` | Matrix/matrix.h:65-73 | a fresh matrix of entry-wise differences |
| `Matrices.AddAssign` | Matrix/matrix.h:75-82 | every entry grows by the old entry of the right operand, which may be the same matrix |
| `Matrices.SubAssign` | Matrix/matrix.h:84-91 | every entry shrinks by the old entry of the right operand, which may be the same matrix |
| `Matrices.Mul` | Matrix/matrix.h:93-105 | entry (i, j) is the dot product of row i and column j |
| `Matrices.DotIdentityRight` | Matrix/matrix.h:93-105 | multiplying by the identity on the right leaves each entry |
| `Matrices.DotIdentityLeft` | Matrix/matrix.h:93-105 | multiplying by the identity on the left leaves each entry |
| `Matrices.MulAssign` | Matrix/matrix.h:107-112 | the left operand becomes the product with its old entries |
| `Matrices.ScalarMulAssign` | Matrix/matrix.h:114-121 | every entry is multiplied by n in place |
| `Matrices.ScalarMulAssignLeft` | Matrix/matrix.h:123-125 | the same with the int on the left |
| `Matrices.ScalarMul` | Matrix/matrix.h:127-135 | a fresh matrix of entries times n |
| `Matrices.ScalarMulLeft` | Matrix/matrix.h:137-139 | the same with the int on the left |
| `Matrices.ScalarDiv` | Matrix/matrix.h:141-149 | a fresh matrix of entries divided by n, truncating toward zero |
| `Matrices.ScalarDivLeft` | Matrix/matrix.h:151-153 | the matrix divided by n, not n divided by the matrix |
| `Matrices.ScalarDivAssign` | Matrix/matrix.h:155-158 | every entry is divided by n, truncating toward zero |
| `Matrices.ScalarDivAssignLeft` | Matrix/matrix.h:160-162 | the same with the int on the left |
| `Matrices.Equal` | Matrix/matrix.h:164-173 | true exactly when all entries agree |
| `Matrices.NotEqual` | Matrix/matrix.h:175-184 | true exactly when some entry differs |
| `Matrices.GetTransposed` | Matrix/matrix.h:210-219 | a fresh M x N matrix with entry (i, j) equal to entry (j, i) |
| `Matrices.TransposeTwice` | Matrix/matrix.h:210-219 | transposing twice gives the matrix back |
| `Matrices.Transpose` | Matrix/matrix.h:221-225 | a square matrix is transposed in place |
| `Matrices.Trace` | Matrix/matrix.h:227-234 | the sum of the diagonal |
| `Matrices.TraceOfTranspose` | Matrix/matrix.h:227-234 | a matrix and its transpose have the same trace |
| `Matrices.TraceOfSum` | Matrix/matrix.h:227-234 | the trace of a sum is the sum of the traces |
| `Matrices.GetAlgebraicAddition` | Matrix/matrix.h:236-256 | row `row` and column `column` deleted, each kept entry times (-1) to the sum of its original indices |
| `Matrices.AdditionRow` | Matrix/matrix.h:245-252 | one row of the addition: the kept entries of row i with their signs, the other rows unchanged |
| `Matrices.Determinant` | Matrix/matrix.h:258-272 | the entry of a 1 x 1 matrix, otherwise the expansion along row 0 over the algebraic additions |
| `Matrices.ExpansionTerm` | Matrix/matrix.h:267-268 | one term of the expansion: entry (0, j) times the determinant of its algebraic addition |
| `Matrices.DetLowerTriangular` | Matrix/matrix.h:263-272 | the recursion gives the product of the diagonal for a lower-triangular matrix |
| `Matrices.DetIdentity` | Matrix/matrix.h:263-272 | the identity has determinant 1 |
| `Matrices.DetTwoByTwo` | Matrix/matrix.h:263-272 | for 2 x 2 the recursion gives ad - bc |
| `Matrices.GetInversed` | Matrix/matrix.h:274-299 | MatrixIsDegenerateError exactly when the determinant is 0; otherwise entry (i, j) is the determinant of the algebraic addition at (j, i) divided by the determinant (1 / a for 1 x 1) |
| `Matrices.InverseRow` | Matrix/matrix.h:293-295 | row i holds the determinants of the algebraic additions of (i, j) divided by the determinant, truncating; the other rows unchanged |
| `Matrices.Inverse` | Matrix/matrix.h:301-305 | the matrix becomes its inverse, or stays unchanged with the error |
| `FixedArrays.FixedArray.constructor` | Array/array.h:14-17 | the array holds the given N elements |
| `FixedArrays.FixedArray.At` | Array/array.h:27-39 | the element exactly when idx < N, ArrayOutOfRange otherwise |
| `FixedArrays.FixedArray.Front` | Array/array.h:41-47 | element 0 |
| `FixedArrays.FixedArray.Back` | Array/array.h:49-55 | element N - 1, the last accessible index |
| `FixedArrays.FixedArray.Size` | Array/array.h:65-67 | N, the number of accessible indices |
| `FixedArrays.FixedArray.Empty` | Array/array.h:69-71 | true exactly when N == 0, so that no index is accessible |
| `FixedArrays.FixedArray.Fill` | Array/array.h:73-77 | every element equals the value |
| `FixedArrays.FixedArray.Swap` | Array/array.h:79-83 | each array holds the other's old elements, position by position |
| `FixedArrays.GetSize` | Array/array.h:86-94 | the outermost extent of the array type, 0 for a non-array |
| `FixedArrays.GetRank` | Array/array.h:96-104 | 1 + the rank of the element type, 0 for a non-array: the number of array dimensions |
| `FixedArrays.GetNumElements` | Array/array.h:106-114 | the extent times the element type's count, 1 for a non-array: the product of all extents |
| `FixedArrays.ExtentsNest` | Array/array.h:86-114 | every list of extents is the list of some array type |
| `FixedArrays.NestExtents` | Array/array.h:96-114 | an array type is determined by its list of extents |

## Left out

- Stream operators: BigInteger `operator>>` and `operator<<` and Matrix
  `operator>>` and `operator<<` do I/O. BigInteger printing is modelled as the
  string it writes (`BigFormat.Format`), and BigInteger reading as `FromString`.
- `BigIntegers.Parse` and `BigInteger.FromString` require `[+-]?[0-9]+`. The code
  does not validate its input, and the model promises nothing for other text.
  There most input misparses silently: `std::stoi` reads only the leading digits
  of each 3-character group and skips leading blanks, so the group `1a2` reads as 1.
  A lone `-` or `+` runs the loop zero times and leaves no limb at all, which
  breaks the one-limb invariant. Only a group with no leading digit throws
  `std::invalid_argument`, an exception this library does not define.
- `BigIntegers.FromInt64` excludes INT64_MIN, where `std::abs` is undefined behaviour.
- BigInteger unary `+` (returns `*this`) and the `IsNegative` accessor are plain
  field reads.
- `Vector::Iterator` and `Begin`/`End` are left out: they are raw pointer arithmetic.
- The Vector move constructor is left out. It nulls the source's pointer but
  leaves its size and capacity stale, so a moved-from vector breaks the
  bookkeeping invariant.
- The Vector destructor is left out; memory release has no counterpart here.
- Vector is a template, but its sized and list constructors only make sense for
  `int`, so the element type is `int`.
- `Vectors.Vector.Get` and `Vectors.Vector.Set` require `index < size`; the C++
  `operator[]` does not check.
- `Vectors.Vector.Assign` requires the argument to own a distinct buffer. This
  is what passing by value guarantees.
- `Vectors.Vector.PushBack` reserves one cell when the capacity is 0, where the
  source reserves `size_ * 2` = 0 cells (see Findings). Capacity 0 arises from
  `Vector(0)`, from an explicitly empty list
  (`Vector(std::initializer_list<int>{})`; a plain `Vector{}` is the default
  constructor and has capacity 1), from copies of either, and from `operator=`
  from any of them. For capacity > 0 it is the source's code.
- Matrix `operator()`, `RowsNumber` and `ColumnsNumber` are unchecked access
  and constants. Entries are `int` only, modelled as mathematical integers: the
  source's `int` overflow in `+`, `*`, the dot product, `Trace` and the
  determinant sum is undefined behaviour and is not modelled.
- `Matrices.MulAssign` requires a square right operand: the assignment back
  into the left operand compiles only then.
- `Matrices.ScalarDiv`, `Matrices.ScalarDivLeft`, `Matrices.ScalarDivAssign` and
  `Matrices.ScalarDivAssignLeft` require n != 0. The source divides without a
  check, and dividing an `int` by 0 is undefined behaviour.
- `Matrices.Determinant`, `Matrices.GetInversed` and `Matrices.Inverse` require
  N >= 1, as the template recursion does.
- `FixedArrays.FixedArray.Front` and `FixedArrays.FixedArray.Back` require N > 0:
  `Array<T, 0>` declares a zero-length member array, which standard C++ rejects.
- `FixedArray::Data` and `operator[]` hand out raw pointers and unchecked
  references. The traits are modelled on the array type (`Shape`), which is
  all they inspect.

## Findings

| source | as written | input that shows it | evidently intended | confidence | as-written member | corrected member |
|---|---|---|---|---|---|---|
| BigInteger/big_integer.cpp:328-341 | with equal sign flags `operator<` compares magnitudes, also when both operands are negative | -5 < -3 is false | the order of the values: magnitudes compared the other way round for two negatives | high; not executed | `BigIntegers.Less` (with `BigIntegers.NegativeOrderReversed`) | `BigIntegers.OrderedLess` |
| Vector/vector.h:169-178 | a full vector reserves `size_ * 2` cells, which is 0 for an empty vector of capacity 0 | `Vector<int>(0).PushBack(5)` writes past the buffer; `a = Vector<int>(0)` on a vector with one cell, then `PushBack(5)` and `PushBack(6)`, leaves the 5 behind in the old buffer | reserve at least one cell, so that the pushed element is stored and kept | high; not executed | `Vectors.PushBackCells` (with `Vectors.PushBackPastBuffer` and `Vectors.PushBackLosesElement`) | `Vectors.Vector.PushBack` |

For the first row: the rest of the model calls `operator<` only where it is correct, so there the
contracts of `Less` and `OrderedLess` agree:
- `Add` compares an absolute value with an operand that is not negative.
- The long division compares non-negative values.
- `Pow` compares its positive counter with the power, and a negative power is
  ordered correctly by its sign flag.
