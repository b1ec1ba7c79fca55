/**
 * The accumulator loops of LinearAlgebra: trace, inner, the 1-norm, the
 * ±∞-norms and the fast paths of cond. Each loop is a method proved equal
 * to a reference definition; the lemmas state what those definitions mean.
 */
module Measures {
  import opened Wrappers
  import opened ComplexNum
  import opened Grid
  import JsNumber
  import GridTests
  import Products

  const SIZE_ERROR: string := "Matrix size does not match"
  const DIM_ERROR: string := "dim"
  /** Reading past the end of a vector hands `undefined` to `new Complex`, whose `in` test throws. */
  const TYPE_ERROR: string := "TypeError"

  // ---------------------------------------------------------------------
  // trace
  // ---------------------------------------------------------------------

  function DiagonalTerms(m: Grid): int -> Complex {
    i => if 0 <= i < |m| && i < |m[i]| then m[i][i] else ZERO
  }

  /** A[0][0] + ... + A[k-1][k-1] for k = min(rows, columns), added from ZERO. */
  function TraceOf(m: Grid): Complex
    requires IsRect(m)
  {
    Products.Sum(DiagonalTerms(m), Min(|m|, Cols(m)))
  }

  method Trace(m: Grid) returns (sum: Complex)
    requires IsRect(m)
    ensures sum == TraceOf(m)
  {
    var len := Min(|m|, Cols(m));
    sum := ZERO;
    var i := 0;
    while i < len
      invariant 0 <= i <= len
      invariant sum == Products.Sum(DiagonalTerms(m), i)
    {
      sum := Add(sum, m[i][i]);
      i := i + 1;
    }
  }

  /** A matrix and its transpose have one diagonal, hence one trace. */
  lemma TraceTranspose(m: Grid)
    requires IsRect(m)
    ensures TraceOf(Transpose(m)) == TraceOf(m)
  {
    var t := Transpose(m);
    Products.SumExt(DiagonalTerms(t), DiagonalTerms(m), Min(|m|, Cols(m)));
  }

  lemma {:induction false} CountOnes(m: Grid, k: nat)
    requires forall i :: 0 <= i < k ==> DiagonalTerms(m)(i) == ONE
    ensures Products.Sum(DiagonalTerms(m), k) == Complex(k as real, 0.0)
  {
    if k > 0 {
      CountOnes(m, k - 1);
    }
  }

  /** trace(eye(r, c)) counts the ones on the diagonal: min(r, c). */
  lemma TraceEye(r: nat, c: nat)
    requires r > 0 && c > 0
    ensures IsRect(Eye(r, c)) && TraceOf(Eye(r, c)) == Complex(Min(r, c) as real, 0.0)
  {
    CountOnes(Eye(r, c), Min(r, c));
  }

  /** test/LinearAlgebra.js: trace([3 2 3; 1 -2 3]) = 1. */
  lemma TraceExample(m: Grid)
    requires m == [[R(3.0), R(2.0), R(3.0)], [R(1.0), R(-2.0), R(3.0)]]
    ensures TraceOf(m) == R(1.0)
  {
    assert DiagonalTerms(m)(0) == R(3.0) && DiagonalTerms(m)(1) == R(-2.0);
    assert Products.Sum(DiagonalTerms(m), 1) == R(3.0);
  }

  // ---------------------------------------------------------------------
  // inner
  // ---------------------------------------------------------------------

  predicate IsScalarGrid(m: Grid) requires IsRect(m) { |m| == 1 && Cols(m) == 1 }
  predicate IsVectorGrid(m: Grid) requires IsRect(m) { |m| == 1 || Cols(m) == 1 }

  /** Matrix.length(): the larger dimension. */
  function VectorLength(m: Grid): nat
    requires IsRect(m)
  {
    if |m| > Cols(m) then |m| else Cols(m)
  }

  /** getComplex(i) of a vector: along the row of a row vector, down the column otherwise. */
  function VectorAt(m: Grid, i: int): Complex
    requires IsRect(m) && IsVectorGrid(m) && 0 <= i < VectorLength(m)
  {
    if |m| == 1 then m[0][i] else m[i][0]
  }

  function VectorDots(x1: Grid, x2: Grid): int -> Complex
    requires IsRect(x1) && IsRect(x2) && IsVectorGrid(x1) && IsVectorGrid(x2)
  {
    i => if 0 <= i < VectorLength(x1) && i < VectorLength(x2) then Dot(VectorAt(x1, i), VectorAt(x2, i)) else ZERO
  }

  function ColumnDots(x1: Grid, x2: Grid, col: int): int -> Complex {
    row => if 0 <= row < |x1| && row < |x2| && 0 <= col < |x1[row]| && col < |x2[row]|
           then Dot(x1[row][col], x2[row][col]) else ZERO
  }

  function RowDots(x1: Grid, x2: Grid, row: int): int -> Complex {
    col => if 0 <= row < |x1| && row < |x2| && 0 <= col < |x1[row]| && col < |x2[row]|
           then Dot(x1[row][col], x2[row][col]) else ZERO
  }

  /** `dimension ? _toInteger(dimension) : 1`, an omitted dimension written 0. */
  function Dim(dimension: int): int { if dimension == 0 then 1 else dimension }

  /**
   * inner(A, B, dimension): dot of two scalars; Σ dot over the positions
   * of A for two vectors; otherwise equal shapes are required and the dot
   * products are summed down each column (dimension 1) or along each row
   * (dimension 2).
   */
  function InnerOf(x1: Grid, x2: Grid, dimension: int): Result<Grid>
    requires IsRect(x1) && IsRect(x2)
  {
    if IsScalarGrid(x1) && IsScalarGrid(x2) then Ok([[Dot(x1[0][0], x2[0][0])]])
    else if IsVectorGrid(x1) && IsVectorGrid(x2) then
      if VectorLength(x1) > VectorLength(x2) then Err(TYPE_ERROR)
      else Ok([[Products.Sum(VectorDots(x1, x2), VectorLength(x1))]])
    else if |x1| != |x2| || Cols(x1) != Cols(x2) then Err(SIZE_ERROR)
    else if Dim(dimension) == 1 then Ok([seq(Cols(x1), col => Products.Sum(ColumnDots(x1, x2, col), |x1|))])
    else if Dim(dimension) == 2 then Ok(seq(|x1|, row => [Products.Sum(RowDots(x1, x2, row), Cols(x1))]))
    else Err(DIM_ERROR)
  }

  method Inner(x1: Grid, x2: Grid, dimension: int) returns (res: Result<Grid>)
    requires IsRect(x1) && IsRect(x2)
    ensures res == InnerOf(x1, x2, dimension)
  {
    var dim := Dim(dimension);
    if IsScalarGrid(x1) && IsScalarGrid(x2) {
      return Ok([[Dot(x1[0][0], x2[0][0])]]);
    }
    if IsVectorGrid(x1) && IsVectorGrid(x2) {
      var sum := ZERO;
      var i := 0;
      while i < VectorLength(x1)
        invariant 0 <= i <= VectorLength(x1)
        invariant i <= VectorLength(x2) && sum == Products.Sum(VectorDots(x1, x2), i)
      {
        if i >= VectorLength(x2) {
          return Err(TYPE_ERROR);
        }
        sum := Add(sum, Dot(VectorAt(x1, i), VectorAt(x2, i)));
        i := i + 1;
      }
      return Ok([[sum]]);
    }
    if |x1| != |x2| || Cols(x1) != Cols(x2) {
      return Err(SIZE_ERROR);
    }
    if dim == 1 {
      var y0: seq<Complex> := [];
      var col := 0;
      while col < Cols(x1)
        invariant 0 <= col <= Cols(x1) && |y0| == col
        invariant forall k :: 0 <= k < col ==> y0[k] == Products.Sum(ColumnDots(x1, x2, k), |x1|)
      {
        var sum := ZERO;
        var row := 0;
        while row < |x1|
          invariant 0 <= row <= |x1|
          invariant sum == Products.Sum(ColumnDots(x1, x2, col), row)
        {
          sum := Add(sum, Dot(x1[row][col], x2[row][col]));
          row := row + 1;
        }
        y0 := y0 + [sum];
        col := col + 1;
      }
      assert y0 == seq(Cols(x1), col => Products.Sum(ColumnDots(x1, x2, col), |x1|));
      return Ok([y0]);
    } else if dim == 2 {
      var y: Grid := [];
      var row := 0;
      while row < |x1|
        invariant 0 <= row <= |x1| && |y| == row
        invariant forall k :: 0 <= k < row ==> y[k] == [Products.Sum(RowDots(x1, x2, k), Cols(x1))]
      {
        var sum := ZERO;
        var col := 0;
        while col < Cols(x1)
          invariant 0 <= col <= Cols(x1)
          invariant sum == Products.Sum(RowDots(x1, x2, row), col)
        {
          sum := Add(sum, Dot(x1[row][col], x2[row][col]));
          col := col + 1;
        }
        y := y + [[sum]];
        row := row + 1;
      }
      assert y == seq(|x1|, row => [Products.Sum(RowDots(x1, x2, row), Cols(x1))]);
      return Ok(y);
    } else {
      return Err(DIM_ERROR);
    }
  }

  lemma SelfDot(a: Complex)
    ensures Dot(a, a) == Complex(NormSq(a), 0.0)
  {
  }

  lemma {:induction false} SelfSum(f: int -> Complex, n: nat)
    requires forall k :: 0 <= k < n ==> f(k).im == 0.0 && f(k).re >= 0.0
    ensures Products.Sum(f, n).im == 0.0 && Products.Sum(f, n).re >= 0.0
  {
    if n > 0 {
      SelfSum(f, n - 1);
    }
  }

  /** The inner product of a vector with itself is real and not negative. */
  lemma InnerSelf(v: Grid, dimension: int)
    requires IsRect(v) && IsVectorGrid(v)
    ensures InnerOf(v, v, dimension).Ok?
    ensures InnerOf(v, v, dimension).value[0][0].im == 0.0
    ensures InnerOf(v, v, dimension).value[0][0].re >= 0.0
  {
    forall k | 0 <= k < VectorLength(v)
      ensures VectorDots(v, v)(k).im == 0.0 && VectorDots(v, v)(k).re >= 0.0
    {
      SelfDot(VectorAt(v, k));
      NormSqPositive(VectorAt(v, k));
    }
    SelfSum(VectorDots(v, v), VectorLength(v));
  }

  lemma {:induction false} ConjSum(f: int -> Complex, g: int -> Complex, n: nat)
    requires forall k :: 0 <= k < n ==> g(k) == Conj(f(k))
    ensures Products.Sum(g, n) == Conj(Products.Sum(f, n))
  {
    if n > 0 {
      ConjSum(f, g, n - 1);
    }
  }

  /** Swapping the operands of inner conjugates the result, for vectors of one length. */
  lemma InnerConjugateSymmetric(x1: Grid, x2: Grid, dimension: int)
    requires IsRect(x1) && IsRect(x2) && IsVectorGrid(x1) && IsVectorGrid(x2)
    requires VectorLength(x1) == VectorLength(x2)
    ensures InnerOf(x1, x2, dimension).Ok? && InnerOf(x2, x1, dimension).Ok?
    ensures InnerOf(x2, x1, dimension).value[0][0] == Conj(InnerOf(x1, x2, dimension).value[0][0])
  {
    ConjSum(VectorDots(x1, x2), VectorDots(x2, x1), VectorLength(x1));
  }

  /** For two matrices of one shape, summing along rows is summing down the columns of the transposes. */
  lemma InnerRowsAreTransposedColumns(x1: Grid, x2: Grid)
    requires IsRect(x1) && IsRect(x2) && !IsVectorGrid(x1) && !IsVectorGrid(x2)
    requires |x1| == |x2| && Cols(x1) == Cols(x2)
    ensures InnerOf(x1, x2, 2).Ok? && InnerOf(Transpose(x1), Transpose(x2), 1).Ok?
    ensures InnerOf(x1, x2, 2).value == Transpose(InnerOf(Transpose(x1), Transpose(x2), 1).value)
  {
    var t1, t2 := Transpose(x1), Transpose(x2);
    var a := InnerOf(x1, x2, 2).value;
    var b := InnerOf(t1, t2, 1).value;
    forall row | 0 <= row < |x1|
      ensures a[row][0] == b[0][row]
    {
      Products.SumExt(RowDots(x1, x2, row), ColumnDots(t1, t2, row), Cols(x1));
    }
    GridEq(a, Transpose(b), |x1|, 1);
  }

  /** test/LinearAlgebra.js: inner(3 + j, 2 + j) = 7 + j, which is conj(A)·B. */
  lemma InnerScalarExample()
    ensures InnerOf([[Complex(3.0, 1.0)]], [[Complex(2.0, 1.0)]], 0) == Ok([[Complex(7.0, 1.0)]])
  {
  }

  /** inner of two 1×3 rows adds the three dot products in order. */
  lemma InnerOfRows3(x1: Grid, x2: Grid)
    requires IsRect(x1) && IsRect(x2) && |x1| == 1 && |x2| == 1 && Cols(x1) == 3 && Cols(x2) == 3
    ensures InnerOf(x1, x2, 0) == Ok([[Add(Add(Add(ZERO, Dot(x1[0][0], x2[0][0])), Dot(x1[0][1], x2[0][1])), Dot(x1[0][2], x2[0][2]))]])
  {
    var f := VectorDots(x1, x2);
    assert VectorLength(x1) == 3 && VectorLength(x2) == 3;
    assert InnerOf(x1, x2, 0) == Ok([[Products.Sum(f, 3)]]);
    assert f(0) == Dot(x1[0][0], x2[0][0]);
    assert f(1) == Dot(x1[0][1], x2[0][1]);
    assert f(2) == Dot(x1[0][2], x2[0][2]);
    Sum3(f);
  }

  /** test/LinearAlgebra.js: inner([1 2 3], [4 5 6]) = 32. */
  lemma InnerVectorExample(x1: Grid, x2: Grid)
    requires x1 == [[R(1.0), R(2.0), R(3.0)]] && x2 == [[R(4.0), R(5.0), R(6.0)]]
    ensures InnerOf(x1, x2, 0) == Ok([[R(32.0)]])
  {
    InnerOfRows3(x1, x2);
    assert Dot(R(1.0), R(4.0)) == R(4.0) && Dot(R(2.0), R(5.0)) == R(10.0) && Dot(R(3.0), R(6.0)) == R(18.0);
  }

  lemma Sum3(f: int -> Complex)
    ensures Products.Sum(f, 3) == Add(Add(Add(ZERO, f(0)), f(1)), f(2))
  {
    assert Products.Sum(f, 1) == Add(ZERO, f(0));
    assert Products.Sum(f, 2) == Add(Products.Sum(f, 1), f(1));
  }

  // ---------------------------------------------------------------------
  // norm, p = 1 and p = ±∞
  // ---------------------------------------------------------------------

  /**
   * Complex.norm() is |re| on the real axis, |im| on the imaginary axis and
   * √(re² + im²) elsewhere; over the reals that is the one non-negative
   * function whose square is re² + im². The norms take it as a parameter.
   */
  ghost predicate IsModulus(modulus: Complex -> real) {
    forall a :: modulus(a) >= 0.0 && modulus(a) * modulus(a) == NormSq(a)
  }

  lemma SquareRootUnique(x: real, y: real)
    requires x >= 0.0 && y >= 0.0 && x * x == y * y
    ensures x == y
  {
    assert (x - y) * (x + y) == 0.0;
    if x + y == 0.0 {
    } else {
      assert x - y == 0.0;
    }
  }

  /** On the real axis the modulus is the absolute value. */
  lemma ModulusOfReal(modulus: Complex -> real, x: real)
    requires IsModulus(modulus)
    ensures modulus(Complex(x, 0.0)) == Abs(x)
  {
    SquareRootUnique(modulus(Complex(x, 0.0)), Abs(x));
  }

  /** f(0) + ... + f(n-1) over the reals, from 0.0 as `sum += ...` adds. */
  function RSum(f: int -> real, n: nat): real
    decreases n
  {
    if n == 0 then 0.0 else RSum(f, n - 1) + f(n - 1)
  }

  lemma {:induction false} RSumExt(f: int -> real, g: int -> real, n: nat)
    requires forall k :: 0 <= k < n ==> f(k) == g(k)
    ensures RSum(f, n) == RSum(g, n)
  {
    if n > 0 {
      RSumExt(f, g, n - 1);
    }
  }

  lemma {:induction false} RSumNonNegative(f: int -> real, n: nat)
    requires forall k :: 0 <= k < n ==> f(k) >= 0.0
    ensures RSum(f, n) >= 0.0
  {
    if n > 0 {
      RSumNonNegative(f, n - 1);
    }
  }

  /**
   * `max = 0; ... if(max < x) max = x;` over f(0), ..., f(n-1), which is
   * also Math.max folded from 0: the largest value, or 0 when all are below.
   */
  function MaxFrom0(f: int -> real, n: nat): real
    decreases n
  {
    if n == 0 then 0.0
    else
      var p := MaxFrom0(f, n - 1);
      if p < f(n - 1) then f(n - 1) else p
  }

  /** The running maximum from 0 is at least 0 and every value, and is 0 or one of the values. */
  lemma {:induction false} MaxFrom0Bounds(f: int -> real, n: nat)
    ensures MaxFrom0(f, n) >= 0.0
    ensures forall k :: 0 <= k < n ==> f(k) <= MaxFrom0(f, n)
    ensures MaxFrom0(f, n) == 0.0 || exists k :: 0 <= k < n && f(k) == MaxFrom0(f, n)
  {
    if n > 0 {
      MaxFrom0Bounds(f, n - 1);
    }
  }

  /** Math.min folded from +∞ over f(0), ..., f(n-1) with n ≥ 1. */
  function MinOf(f: int -> real, n: nat): real
    requires n >= 1
    decreases n
  {
    if n == 1 then f(0)
    else
      var p := MinOf(f, n - 1);
      if f(n - 1) < p then f(n - 1) else p
  }

  /** The running minimum is at most every value and is one of them. */
  lemma {:induction false} MinOfBounds(f: int -> real, n: nat)
    requires n >= 1
    ensures forall k :: 0 <= k < n ==> MinOf(f, n) <= f(k)
    ensures exists k :: 0 <= k < n && f(k) == MinOf(f, n)
  {
    if n > 1 {
      MinOfBounds(f, n - 1);
      if f(n - 1) < MinOf(f, n - 1) {
        assert f(n - 1) == MinOf(f, n);
      } else {
        var k :| 0 <= k < n - 1 && f(k) == MinOf(f, n - 1);
        assert f(k) == MinOf(f, n);
      }
    } else {
      assert f(0) == MinOf(f, 1);
    }
  }

  lemma {:induction false} MaxFrom0Ext(f: int -> real, g: int -> real, n: nat)
    requires forall k :: 0 <= k < n ==> f(k) == g(k)
    ensures MaxFrom0(f, n) == MaxFrom0(g, n)
  {
    if n > 0 {
      MaxFrom0Ext(f, g, n - 1);
    }
  }

  /** The moduli down column col. */
  function ColumnModuli(m: Grid, modulus: Complex -> real, col: int): int -> real {
    row => if 0 <= row < |m| && 0 <= col < |m[row]| then modulus(m[row][col]) else 0.0
  }

  /** The moduli along row row. */
  function RowModuli(m: Grid, modulus: Complex -> real, row: int): int -> real {
    col => if 0 <= row < |m| && 0 <= col < |m[row]| then modulus(m[row][col]) else 0.0
  }

  function ColumnSums(m: Grid, modulus: Complex -> real): int -> real {
    col => RSum(ColumnModuli(m, modulus, col), |m|)
  }

  function RowSums(m: Grid, modulus: Complex -> real): int -> real
    requires IsRect(m)
  {
    row => RSum(RowModuli(m, modulus, row), Cols(m))
  }

  /** norm(A, 1): Σ|x| for a row or a column, the largest column sum of |x| otherwise. */
  function Norm1Of(m: Grid, modulus: Complex -> real): real
    requires IsRect(m)
  {
    if |m| == 1 then RSum(RowModuli(m, modulus, 0), Cols(m))
    else if Cols(m) == 1 then RSum(ColumnModuli(m, modulus, 0), |m|)
    else MaxFrom0(ColumnSums(m, modulus), Cols(m))
  }

  /**
   * norm(A, ±∞): for a row or a column the largest |x| (p = +∞, Math.max
   * from 0) or the smallest (p = −∞, Math.min from +∞); for a matrix the
   * largest row sum of |x| under either sign.
   */
  function NormInfOf(m: Grid, modulus: Complex -> real, positive: bool): real
    requires IsRect(m)
  {
    if |m| == 1 then
      if positive then MaxFrom0(RowModuli(m, modulus, 0), Cols(m)) else MinOf(RowModuli(m, modulus, 0), Cols(m))
    else if Cols(m) == 1 then
      if positive then MaxFrom0(ColumnModuli(m, modulus, 0), |m|) else MinOf(ColumnModuli(m, modulus, 0), |m|)
    else MaxFrom0(RowSums(m, modulus), |m|)
  }

  method ColumnModulusSum(m: Grid, modulus: Complex -> real, col: nat) returns (sum: real)
    requires IsRect(m) && col < Cols(m)
    ensures sum == RSum(ColumnModuli(m, modulus, col), |m|)
  {
    sum := 0.0;
    var row := 0;
    while row < |m|
      invariant 0 <= row <= |m|
      invariant sum == RSum(ColumnModuli(m, modulus, col), row)
    {
      sum := sum + modulus(m[row][col]);
      row := row + 1;
    }
  }

  method RowModulusSum(m: Grid, modulus: Complex -> real, row: nat) returns (sum: real)
    requires IsRect(m) && row < |m|
    ensures sum == RSum(RowModuli(m, modulus, row), Cols(m))
  {
    sum := 0.0;
    var col := 0;
    while col < Cols(m)
      invariant 0 <= col <= Cols(m)
      invariant sum == RSum(RowModuli(m, modulus, row), col)
    {
      sum := sum + modulus(m[row][col]);
      col := col + 1;
    }
  }

  method Norm1(m: Grid, modulus: Complex -> real) returns (n: real)
    requires IsRect(m)
    ensures n == Norm1Of(m, modulus)
  {
    if |m| == 1 {
      n := RowModulusSum(m, modulus, 0);
      return;
    } else if Cols(m) == 1 {
      n := ColumnModulusSum(m, modulus, 0);
      return;
    }
    var max := 0.0;
    var col := 0;
    while col < Cols(m)
      invariant 0 <= col <= Cols(m)
      invariant max == MaxFrom0(ColumnSums(m, modulus), col)
    {
      var sum := ColumnModulusSum(m, modulus, col);
      if max < sum {
        max := sum;
      }
      col := col + 1;
    }
    n := max;
  }

  /** The ±∞-norm loop of a row or column vector, over the moduli f(0), ..., f(len - 1). */
  method VectorExtreme(m: Grid, modulus: Complex -> real, positive: bool) returns (n: real)
    requires IsRect(m) && (|m| == 1 || Cols(m) == 1)
    ensures |m| == 1 ==> n == if positive then MaxFrom0(RowModuli(m, modulus, 0), Cols(m)) else MinOf(RowModuli(m, modulus, 0), Cols(m))
    ensures |m| != 1 ==> n == if positive then MaxFrom0(ColumnModuli(m, modulus, 0), |m|) else MinOf(ColumnModuli(m, modulus, 0), |m|)
  {
    var f := if |m| == 1 then RowModuli(m, modulus, 0) else ColumnModuli(m, modulus, 0);
    var len := if |m| == 1 then Cols(m) else |m|;
    var x0 := if |m| == 1 then modulus(m[0][0]) else modulus(m[0][0]);
    n := if positive then (if 0.0 < x0 then x0 else 0.0) else x0;
    var k := 1;
    while k < len
      invariant 1 <= k <= len
      invariant n == if positive then MaxFrom0(f, k) else MinOf(f, k)
    {
      var x := if |m| == 1 then modulus(m[0][k]) else modulus(m[k][0]);
      if positive {
        n := if n < x then x else n;
      } else {
        n := if x < n then x else n;
      }
      k := k + 1;
    }
  }

  method NormInf(m: Grid, modulus: Complex -> real, positive: bool) returns (n: real)
    requires IsRect(m)
    ensures n == NormInfOf(m, modulus, positive)
  {
    if |m| == 1 || Cols(m) == 1 {
      n := VectorExtreme(m, modulus, positive);
      return;
    }
    n := 0.0;
    var row := 0;
    while row < |m|
      invariant 0 <= row <= |m|
      invariant n == MaxFrom0(RowSums(m, modulus), row)
    {
      var sum := RowModulusSum(m, modulus, row);
      n := if n < sum then sum else n;
      row := row + 1;
    }
  }

  /** The 1-norm of a matrix is the ∞-norm of its transpose: column sums become row sums. */
  lemma NormDuality(m: Grid, modulus: Complex -> real)
    requires IsRect(m) && |m| != 1 && Cols(m) != 1
    ensures Norm1Of(m, modulus) == NormInfOf(Transpose(m), modulus, true)
    ensures Norm1Of(Transpose(m), modulus) == NormInfOf(m, modulus, true)
  {
    var t := Transpose(m);
    forall col | 0 <= col < Cols(m)
      ensures ColumnSums(m, modulus)(col) == RowSums(t, modulus)(col)
    {
      RSumExt(ColumnModuli(m, modulus, col), RowModuli(t, modulus, col), |m|);
    }
    MaxFrom0Ext(ColumnSums(m, modulus), RowSums(t, modulus), Cols(m));
    forall row | 0 <= row < |m|
      ensures ColumnSums(t, modulus)(row) == RowSums(m, modulus)(row)
    {
      RSumExt(ColumnModuli(t, modulus, row), RowModuli(m, modulus, row), Cols(m));
    }
    MaxFrom0Ext(ColumnSums(t, modulus), RowSums(m, modulus), |m|);
  }

  /** Every cell's modulus is bounded by the 1-norm and by the ∞-norm of a matrix. */
  lemma {:induction false} ModulusBelowSum(f: int -> real, n: nat, k: int)
    requires 0 <= k < n && forall i :: 0 <= i < n ==> f(i) >= 0.0
    ensures f(k) <= RSum(f, n)
  {
    if k < n - 1 {
      ModulusBelowSum(f, n - 1, k);
    } else {
      RSumNonNegative(f, n - 1);
    }
  }

  lemma CellBelowNorms(m: Grid, modulus: Complex -> real, i: nat, j: nat)
    requires IsRect(m) && IsModulus(modulus) && i < |m| && j < Cols(m)
    ensures modulus(m[i][j]) <= Norm1Of(m, modulus)
    ensures modulus(m[i][j]) <= NormInfOf(m, modulus, true)
  {
    ModulusBelowSum(ColumnModuli(m, modulus, j), |m|, i);
    ModulusBelowSum(RowModuli(m, modulus, i), Cols(m), j);
    if |m| == 1 {
      MaxFrom0Bounds(RowModuli(m, modulus, 0), Cols(m));
    } else if Cols(m) == 1 {
      MaxFrom0Bounds(ColumnModuli(m, modulus, 0), |m|);
    } else {
      MaxFrom0Bounds(ColumnSums(m, modulus), Cols(m));
      MaxFrom0Bounds(RowSums(m, modulus), |m|);
      assert ColumnSums(m, modulus)(j) == RSum(ColumnModuli(m, modulus, j), |m|);
      assert RowSums(m, modulus)(i) == RSum(RowModuli(m, modulus, i), Cols(m));
    }
  }

  function R(x: real): Complex { Complex(x, 0.0) }

  /** test/LinearAlgebra.js: norm([1 -2 7 3], p) for p = 1, +∞, −∞ is 13, 7 and 1. */
  lemma NormVectorExamples(v: Grid, modulus: Complex -> real)
    requires IsModulus(modulus) && v == [[R(1.0), R(-2.0), R(7.0), R(3.0)]]
    ensures Norm1Of(v, modulus) == 13.0
    ensures NormInfOf(v, modulus, true) == 7.0
    ensures NormInfOf(v, modulus, false) == 1.0
  {
    ModulusOfReal(modulus, 1.0);
    ModulusOfReal(modulus, -2.0);
    ModulusOfReal(modulus, 7.0);
    ModulusOfReal(modulus, 3.0);
    assert RowModuli(v, modulus, 0)(0) == 1.0 && RowModuli(v, modulus, 0)(1) == 2.0;
    assert RowModuli(v, modulus, 0)(2) == 7.0 && RowModuli(v, modulus, 0)(3) == 3.0;
    var f := RowModuli(v, modulus, 0);
    assert RSum(f, 2) == 3.0;
    assert RSum(f, 3) == 10.0;
    assert MaxFrom0(f, 2) == 2.0;
    assert MaxFrom0(f, 3) == 7.0;
    assert MinOf(f, 2) == 1.0;
    assert MinOf(f, 3) == 1.0;
  }

  lemma RSum3(f: int -> real)
    ensures RSum(f, 3) == f(0) + f(1) + f(2)
  {
    assert RSum(f, 1) == f(0);
    assert RSum(f, 2) == f(0) + f(1);
  }

  predicate Example3x3(m: Grid) {
    m == [[R(-1.0), R(-2.0), R(1.0)], [R(3.0), R(1.5), R(2.0)], [R(-3.0), R(4.0), R(0.5)]]
  }

  lemma Example3x3Moduli(m: Grid, modulus: Complex -> real)
    requires IsModulus(modulus) && Example3x3(m)
    ensures IsRect(m) && |m| == 3 && Cols(m) == 3
    ensures forall i, j :: 0 <= i < 3 && 0 <= j < 3 ==> modulus(m[i][j]) == Abs(m[i][j].re)
  {
    forall i, j | 0 <= i < 3 && 0 <= j < 3
      ensures modulus(m[i][j]) == Abs(m[i][j].re)
    {
      ModulusOfReal(modulus, m[i][j].re);
    }
  }

  /** test/LinearAlgebra.js: norm([-1 -2 1; 3 1.5 2; -3 4 0.5], 1) = 7.5, the second column. */
  lemma Norm1MatrixExample(m: Grid, modulus: Complex -> real)
    requires IsModulus(modulus) && Example3x3(m)
    ensures Norm1Of(m, modulus) == 7.5
  {
    Example3x3Moduli(m, modulus);
    RSum3(ColumnModuli(m, modulus, 0));
    RSum3(ColumnModuli(m, modulus, 1));
    RSum3(ColumnModuli(m, modulus, 2));
    assert ColumnSums(m, modulus)(0) == 7.0;
    assert ColumnSums(m, modulus)(1) == 7.5;
    assert ColumnSums(m, modulus)(2) == 3.5;
  }

  /** test/LinearAlgebra.js: norm([-1 -2 1; 3 1.5 2; -3 4 0.5], −∞) = 7.5, the third row. */
  lemma NormInfMatrixExample(m: Grid, modulus: Complex -> real)
    requires IsModulus(modulus) && Example3x3(m)
    ensures NormInfOf(m, modulus, false) == 7.5
  {
    Example3x3Moduli(m, modulus);
    RSum3(RowModuli(m, modulus, 0));
    RSum3(RowModuli(m, modulus, 1));
    RSum3(RowModuli(m, modulus, 2));
    assert RowSums(m, modulus)(0) == 4.0;
    assert RowSums(m, modulus)(1) == 6.5;
    assert RowSums(m, modulus)(2) == 7.5;
  }

  // ---------------------------------------------------------------------
  // cond, p = 2
  // ---------------------------------------------------------------------

  /** isUnitary: square, and A·A^H passes isIdentity. */
  predicate UnitaryGrid(m: Grid, tolerance: real)
    requires IsRect(m)
  {
    |m| == Cols(m) && GridTests.IdentityGrid(MatMul(m, CTranspose(m)), GridTests.MatTol(tolerance))
  }

  /**
   * cond(A, 2) before the singular values: +∞ for a zero matrix, 1 for a
   * vector and for a unitary matrix; None where cond goes on to svd.
   */
  function CondFastPath(m: Grid): Option<JsNumber.Num>
    requires IsRect(m)
  {
    if GridTests.ZerosGrid(m, GridTests.MatTol(0.0)) then Some(JsNumber.PosInf)
    else if IsVectorGrid(m) || UnitaryGrid(m, 0.0) then Some(JsNumber.Finite(1.0))
    else None
  }

  lemma EyeAdjointCell(n: nat, i: nat, j: nat)
    requires 0 <= i < n && 0 <= j < n
    ensures CTranspose(Eye(n, n))[i][j] == Eye(n, n)[i][j]
  {
    assert CTranspose(Eye(n, n))[i][j] == Conj(Eye(n, n)[j][i]);
  }

  lemma EyeSelfAdjoint(n: nat, e: Grid, t: Grid)
    requires n > 0 && e == Eye(n, n) && t == CTranspose(e)
    ensures t == e
  {
    forall i, j | 0 <= i < n && 0 <= j < n
      ensures t[i][j] == e[i][j]
    {
      EyeAdjointCell(n, i, j);
    }
    GridEq(t, e, n, n);
  }

  /** eye(n) passes isUnitary: it is its own conjugate transpose and its own square. */
  lemma EyeUnitary(n: nat, e: Grid)
    requires n >= 1 && e == Eye(n, n)
    ensures IsRect(e) && UnitaryGrid(e, 0.0)
  {
    var t := CTranspose(e);
    EyeSelfAdjoint(n, e, t);
    Products.MatMulEye(e);
    assert MatMul(e, t) == e;
    GridTests.EyeTests(n, GridTests.MatTol(0.0));
  }

  /** cond(eye(n), 2) = 1 without singular values: the identity is unitary. */
  lemma CondEye(n: nat)
    requires n >= 2
    ensures IsRect(Eye(n, n)) && CondFastPath(Eye(n, n)) == Some(JsNumber.Finite(1.0))
  {
    var e := Eye(n, n);
    assert !IsZero(e[0][0], GridTests.MatTol(0.0));
    EyeUnitary(n, e);
  }

  /** A matrix all of whose cells are zero has cond +∞; a non-zero vector has cond 1. */
  lemma CondZerosAndVectors(m: Grid)
    requires IsRect(m)
    ensures (forall i, j :: 0 <= i < |m| && 0 <= j < Cols(m) ==> m[i][j] == ZERO) ==> CondFastPath(m) == Some(JsNumber.PosInf)
    ensures IsVectorGrid(m) && m[0][0] == ONE ==> CondFastPath(m) == Some(JsNumber.Finite(1.0))
  {
    if m[0][0] == ONE {
      assert !IsZero(m[0][0], GridTests.MatTol(0.0));
    }
  }
}
