/**
 * Matrix products and powers on grids: the sums that `mul` accumulates,
 * associativity of the product, the identity matrix, and the powers that
 * `pow` computes by repeated squaring.
 */
module Products {
  import opened ComplexNum
  import opened Grid
  import JsNumber

  /** f(0) + f(1) + ... + f(n - 1), added left to right starting from ZERO. */
  function Sum(f: int -> Complex, n: nat): Complex
    decreases n
  {
    if n == 0 then ZERO else Add(Sum(f, n - 1), f(n - 1))
  }

  lemma {:induction false} SumExt(f: int -> Complex, g: int -> Complex, n: nat)
    requires forall k :: 0 <= k < n ==> f(k) == g(k)
    ensures Sum(f, n) == Sum(g, n)
  {
    if n > 0 {
      SumExt(f, g, n - 1);
    }
  }

  lemma {:induction false} SumZero(f: int -> Complex, n: nat)
    requires forall k :: 0 <= k < n ==> f(k) == ZERO
    ensures Sum(f, n) == ZERO
  {
    if n > 0 {
      SumZero(f, n - 1);
    }
  }

  /** A sum with a single non-zero term is that term. */
  lemma {:induction false} SumSingle(f: int -> Complex, n: nat, p: int)
    requires 0 <= p < n
    requires forall k :: 0 <= k < n && k != p ==> f(k) == ZERO
    ensures Sum(f, n) == f(p)
  {
    if n - 1 == p {
      SumZero(f, n - 1);
    } else {
      SumSingle(f, n - 1, p);
    }
  }

  lemma {:induction false} SumAdd(f: int -> Complex, g: int -> Complex, h: int -> Complex, n: nat)
    requires forall k :: 0 <= k < n ==> h(k) == Add(f(k), g(k))
    ensures Sum(h, n) == Add(Sum(f, n), Sum(g, n))
  {
    if n > 0 {
      SumAdd(f, g, h, n - 1);
    }
  }

  /** c * (f(0) + ... + f(n-1)) == c * f(0) + ... + c * f(n-1). */
  lemma {:induction false} SumScaleLeft(c: Complex, f: int -> Complex, g: int -> Complex, n: nat)
    requires forall k :: 0 <= k < n ==> g(k) == Mul(c, f(k))
    ensures Sum(g, n) == Mul(c, Sum(f, n))
  {
    if n > 0 {
      SumScaleLeft(c, f, g, n - 1);
      RingLaws(c, Sum(f, n - 1), f(n - 1));
    }
  }

  /** (f(0) + ... + f(n-1)) * c == f(0) * c + ... + f(n-1) * c. */
  lemma {:induction false} SumScaleRight(c: Complex, f: int -> Complex, g: int -> Complex, n: nat)
    requires forall k :: 0 <= k < n ==> g(k) == Mul(f(k), c)
    ensures Sum(g, n) == Mul(Sum(f, n), c)
  {
    if n > 0 {
      SumScaleRight(c, f, g, n - 1);
      RingLaws(c, Sum(f, n - 1), f(n - 1));
      RingLaws(Sum(f, n - 1), c, ZERO);
      RingLaws(f(n - 1), c, ZERO);
      RingLaws(Sum(f, n), c, ZERO);
    }
  }

  /** The order of a double sum does not matter. */
  lemma {:induction false} SumSwap(F: (int, int) -> Complex, n: nat, m: nat)
    ensures Sum(l => Sum(k => F(k, l), n), m) == Sum(k => Sum(l => F(k, l), m), n)
  {
    if m == 0 {
      SumZero(k => Sum(l => F(k, l), m), n);
    } else {
      SumSwap(F, n, m - 1);
      SumAdd(k => Sum(l => F(k, l), m - 1), k => F(k, m - 1), k => Sum(l => F(k, l), m), n);
    }
  }

  /** The terms of cell (i, j) of a * b. */
  function Terms(a: Grid, b: Grid, i: int, j: int): int -> Complex
    requires IsRect(a) && IsRect(b) && Cols(a) == |b|
    requires 0 <= i < |a| && 0 <= j < Cols(b)
  {
    k => if 0 <= k < |b| then Mul(a[i][k], b[k][j]) else ZERO
  }

  /** mul's inner loop adds the terms of a cell in order. */
  lemma {:induction false} RowColumnSum(a: Grid, b: Grid, i: int, j: int, n: nat)
    requires IsRect(a) && IsRect(b) && Cols(a) == |b|
    requires 0 <= i < |a| && 0 <= j < Cols(b) && n <= |b|
    ensures RowColumn(a, b, i, j, n) == Sum(Terms(a, b, i, j), n)
  {
    if n > 0 {
      RowColumnSum(a, b, i, j, n - 1);
    }
  }

  lemma MatMulCell(a: Grid, b: Grid, i: int, j: int)
    requires IsRect(a) && IsRect(b) && Cols(a) == |b|
    requires 0 <= i < |a| && 0 <= j < Cols(b)
    ensures MatMul(a, b)[i][j] == Sum(Terms(a, b, i, j), |b|)
  {
    RowColumnSum(a, b, i, j, |b|);
  }

  lemma AssocCell(a: Grid, b: Grid, c: Grid, i: int, j: int)
    requires IsRect(a) && IsRect(b) && IsRect(c) && Cols(a) == |b| && Cols(b) == |c|
    requires 0 <= i < |a| && 0 <= j < Cols(c)
    ensures MatMul(MatMul(a, b), c)[i][j] == MatMul(a, MatMul(b, c))[i][j]
  {
    var ab := MatMul(a, b);
    var bc := MatMul(b, c);
    var n := |b|;
    var m := |c|;
    var F := (k: int, l: int) =>
      if 0 <= k < n && 0 <= l < m then Mul(Mul(a[i][k], b[k][l]), c[l][j]) else ZERO;
    // Left: the sum over l of (the sum over k of a[i][k] b[k][l]) c[l][j].
    forall l | 0 <= l < m
      ensures Terms(ab, c, i, j)(l) == Sum(k => F(k, l), n)
    {
      MatMulCell(a, b, i, l);
      SumScaleRight(c[l][j], Terms(a, b, i, l), k => F(k, l), n);
    }
    MatMulCell(ab, c, i, j);
    SumExt(Terms(ab, c, i, j), l => Sum(k => F(k, l), n), m);
    // Right: the sum over k of a[i][k] (the sum over l of b[k][l] c[l][j]).
    forall k | 0 <= k < n
      ensures Terms(a, bc, i, j)(k) == Sum(l => F(k, l), m)
    {
      MatMulCell(b, c, k, j);
      forall l | 0 <= l < m
        ensures F(k, l) == Mul(a[i][k], Terms(b, c, k, j)(l))
      {
        RingLaws(a[i][k], b[k][l], c[l][j]);
      }
      SumScaleLeft(a[i][k], Terms(b, c, k, j), l => F(k, l), m);
    }
    MatMulCell(a, bc, i, j);
    SumExt(Terms(a, bc, i, j), k => Sum(l => F(k, l), m), n);
    SumSwap(F, n, m);
  }

  /** (a b) c == a (b c). */
  lemma MatMulAssoc(a: Grid, b: Grid, c: Grid)
    requires IsRect(a) && IsRect(b) && IsRect(c) && Cols(a) == |b| && Cols(b) == |c|
    ensures MatMul(MatMul(a, b), c) == MatMul(a, MatMul(b, c))
  {
    forall i, j | 0 <= i < |a| && 0 <= j < Cols(c)
      ensures MatMul(MatMul(a, b), c)[i][j] == MatMul(a, MatMul(b, c))[i][j]
    {
      AssocCell(a, b, c, i, j);
    }
    GridEq(MatMul(MatMul(a, b), c), MatMul(a, MatMul(b, c)), |a|, Cols(c));
  }

  lemma EyeLeftCell(a: Grid, i: int, j: int)
    requires IsRect(a) && 0 <= i < |a| && 0 <= j < Cols(a)
    ensures IsRect(Eye(|a|, |a|)) && MatMul(Eye(|a|, |a|), a)[i][j] == a[i][j]
  {
    var e := Eye(|a|, |a|);
    MatMulCell(e, a, i, j);
    forall k | 0 <= k < |a| && k != i
      ensures Terms(e, a, i, j)(k) == ZERO
    {
      RingLaws(a[k][j], ZERO, ZERO);
    }
    RingLaws(a[i][j], ZERO, ZERO);
    SumSingle(Terms(e, a, i, j), |a|, i);
  }

  lemma EyeRightCell(a: Grid, i: int, j: int)
    requires IsRect(a) && 0 <= i < |a| && 0 <= j < Cols(a)
    ensures IsRect(Eye(Cols(a), Cols(a))) && MatMul(a, Eye(Cols(a), Cols(a)))[i][j] == a[i][j]
  {
    var f := Eye(Cols(a), Cols(a));
    MatMulCell(a, f, i, j);
    SumSingle(Terms(a, f, i, j), Cols(a), j);
  }

  /** The identity is neutral on both sides. */
  lemma MatMulEye(a: Grid)
    requires IsRect(a)
    ensures IsRect(Eye(|a|, |a|)) && IsRect(Eye(Cols(a), Cols(a)))
    ensures MatMul(Eye(|a|, |a|), a) == a
    ensures MatMul(a, Eye(Cols(a), Cols(a))) == a
  {
    forall i, j | 0 <= i < |a| && 0 <= j < Cols(a)
      ensures MatMul(Eye(|a|, |a|), a)[i][j] == a[i][j]
    {
      EyeLeftCell(a, i, j);
    }
    GridEq(MatMul(Eye(|a|, |a|), a), a, |a|, Cols(a));
    forall i, j | 0 <= i < |a| && 0 <= j < Cols(a)
      ensures MatMul(a, Eye(Cols(a), Cols(a)))[i][j] == a[i][j]
    {
      EyeRightCell(a, i, j);
    }
    GridEq(MatMul(a, Eye(Cols(a), Cols(a))), a, |a|, Cols(a));
  }

  /** A product with an all-zero factor is all zero. */
  lemma MatMulZero(a: Grid, z: Grid)
    requires IsRect(a) && IsRect(z) && Cols(a) == |z| && Cols(z) == Cols(a)
    requires forall i, j :: 0 <= i < |z| && 0 <= j < Cols(z) ==> z[i][j] == ZERO
    ensures forall i, j :: 0 <= i < |a| && 0 <= j < Cols(z) ==> MatMul(a, z)[i][j] == ZERO
  {
    forall i, j | 0 <= i < |a| && 0 <= j < Cols(z)
      ensures MatMul(a, z)[i][j] == ZERO
    {
      MatMulCell(a, z, i, j);
      SumZero(Terms(a, z, i, j), |z|);
    }
  }

  predicate IsSquareGrid(a: Grid) {
    IsRect(a) && Cols(a) == |a|
  }

  /** a to the n-th power: the identity for n == 0, then one more factor a on the right. */
  function MatPow(a: Grid, n: nat): (p: Grid)
    requires IsSquareGrid(a)
    ensures IsSquareGrid(p) && |p| == |a|
    decreases n
  {
    if n == 0 then Eye(|a|, |a|) else MatMul(MatPow(a, n - 1), a)
  }

  lemma MatPowOne(a: Grid)
    requires IsSquareGrid(a)
    ensures MatPow(a, 1) == a
  {
    MatMulEye(a);
  }

  /** a^m a^n == a^(m + n). */
  lemma {:induction false} MatPowAdd(a: Grid, m: nat, n: nat)
    requires IsSquareGrid(a)
    ensures MatMul(MatPow(a, m), MatPow(a, n)) == MatPow(a, m + n)
  {
    if n == 0 {
      MatPowAddZero(a, m);
    } else {
      MatPowAdd(a, m, n - 1);
      MatPowAddStep(a, m, n);
    }
  }

  lemma MatPowAddZero(a: Grid, m: nat)
    requires IsSquareGrid(a)
    ensures MatMul(MatPow(a, m), MatPow(a, 0)) == MatPow(a, m)
  {
    var pm := MatPow(a, m);
    MatMulEye(pm);
    assert MatPow(a, 0) == Eye(Cols(pm), Cols(pm));
  }

  lemma MatPowAddStep(a: Grid, m: nat, n: nat)
    requires IsSquareGrid(a) && n > 0
    requires MatMul(MatPow(a, m), MatPow(a, n - 1)) == MatPow(a, m + (n - 1))
    ensures MatMul(MatPow(a, m), MatPow(a, n)) == MatPow(a, m + n)
  {
    var s := m + (n - 1);
    AssocThen(MatPow(a, m), MatPow(a, n - 1), a, MatPow(a, s));
    assert MatPow(a, s + 1) == MatMul(MatPow(a, s), a);
  }

  /** From p q == r follows p (q a) == r a. */
  lemma AssocThen(p: Grid, q: Grid, a: Grid, r: Grid)
    requires IsSquareGrid(p) && IsSquareGrid(q) && IsSquareGrid(a) && |p| == |q| == |a|
    requires MatMul(p, q) == r
    ensures MatMul(p, MatMul(q, a)) == MatMul(r, a)
  {
    MatMulAssoc(p, q, a);
  }

  /** (a a)^k == a^(2k). */
  lemma {:induction false} MatPowSquare(a: Grid, k: nat)
    requires IsSquareGrid(a)
    ensures MatPow(MatMul(a, a), k) == MatPow(a, 2 * k)
  {
    if k > 0 {
      var aa := MatMul(a, a);
      var n := 2 * (k - 1);
      var p := MatPow(a, n);
      calc {
        MatPow(aa, k);
        MatMul(MatPow(aa, k - 1), aa);
        { MatPowSquare(a, k - 1); }
        MatMul(p, aa);
        { MatMulAssoc(p, a, a); }
        MatMul(MatMul(p, a), a);
        MatMul(MatPow(a, n + 1), a);
        MatPow(a, n + 2);
      }
      assert n + 2 == 2 * k;
    }
  }

  /** Every positive power of an all-zero square grid is that grid. */
  lemma {:induction false} MatPowZero(z: Grid, n: nat)
    requires IsSquareGrid(z) && n >= 1
    requires forall i, j :: 0 <= i < |z| && 0 <= j < |z| ==> z[i][j] == ZERO
    ensures MatPow(z, n) == z
  {
    if n == 1 {
      MatPowOne(z);
    } else {
      MatPowZero(z, n - 1);
      MatMulZero(z, z);
      GridEq(MatMul(z, z), z, |z|, |z|);
    }
  }

  /**
   * One step of repeated squaring: with k = 2h + b, multiplying y by x
   * when b is 1 and squaring x keeps y x^k.
   */
  lemma SquaringStep(y: Grid, x: Grid, k: nat)
    requires IsSquareGrid(x) && IsRect(y) && Cols(y) == |x| && k > 0
    ensures k % 2 == 1 ==> MatMul(MatMul(y, x), MatPow(MatMul(x, x), k / 2)) == MatMul(y, MatPow(x, k))
    ensures k % 2 == 0 ==> MatMul(y, MatPow(MatMul(x, x), k / 2)) == MatMul(y, MatPow(x, k))
  {
    MatPowSquare(x, k / 2);
    if k % 2 == 1 {
      MatMulAssoc(y, x, MatPow(x, k - 1));
      MatPowOne(x);
      MatPowAdd(x, 1, k - 1);
    }
  }

  /**
   * The square-matrix loop of pow as written: `n & 1` tests the low bit of
   * ToInt32(n) and `n >>>= 1` shifts ToUint32(n), so an exponent of 2^32 or
   * more is reduced modulo 2^32 before it is used.
   */
  method PowAsWritten(a: Grid, n: int) returns (y: Grid)
    requires IsSquareGrid(a) && n >= 0
    ensures y == MatPow(a, JsNumber.ToUint32(n))
  {
    var x := a;
    y := Eye(|a|, |a|);
    var k := n;
    MatMulEye(MatPow(a, JsNumber.ToUint32(n)));
    while k != 0
      invariant k >= 0 && IsSquareGrid(x) && IsSquareGrid(y) && |x| == |a| && |y| == |a|
      invariant MatMul(y, MatPow(x, JsNumber.ToUint32(k))) == MatPow(a, JsNumber.ToUint32(n))
      decreases k
    {
      y, x, k := AsWrittenTurn(y, x, k);
    }
    assert JsNumber.ToUint32(k) == 0;
    MatMulEye(y);
  }

  /** One pass of the loop as written: multiply y by x when the low bit is set, square x, halve k. */
  method AsWrittenTurn(y: Grid, x: Grid, k: int) returns (y': Grid, x': Grid, k': int)
    requires IsSquareGrid(x) && IsSquareGrid(y) && |y| == |x| && k > 0
    ensures 0 <= k' < k && IsSquareGrid(x') && IsSquareGrid(y') && |x'| == |x| && |y'| == |x|
    ensures MatMul(y', MatPow(x', JsNumber.ToUint32(k'))) == MatMul(y, MatPow(x, JsNumber.ToUint32(k)))
  {
    y' := y;
    if JsNumber.ToInt32(k) % 2 != 0 {
      y' := MatMul(y, x);
    }
    x' := MatMul(x, x);
    k' := JsNumber.ToUint32(k) / 2;
    AsWrittenStep(y, x, k, y', x', k');
  }

  /** One pass of the loop as written keeps y x^ToUint32(k). */
  lemma AsWrittenStep(y: Grid, x: Grid, k: int, y': Grid, x': Grid, k': int)
    requires IsSquareGrid(x) && IsRect(y) && Cols(y) == |x| && k > 0
    requires y' == (if JsNumber.ToInt32(k) % 2 != 0 then MatMul(y, x) else y)
    requires x' == MatMul(x, x) && k' == JsNumber.ToUint32(k) / 2
    ensures 0 <= k' < k && IsSquareGrid(x') && |x'| == |x| && IsRect(y') && Shape(y', |y|, |x|)
    ensures MatMul(y', MatPow(x', JsNumber.ToUint32(k'))) == MatMul(y, MatPow(x, JsNumber.ToUint32(k)))
  {
    var u := JsNumber.ToUint32(k);
    ShiftBits(k);
    if u > 0 {
      SquaringStep(y, x, u);
    }
  }

  /** `n & 1` and `n >>> 1` on a non-negative integer n, through ToInt32 and ToUint32. */
  lemma ShiftBits(k: int)
    requires k >= 0
    ensures JsNumber.ToInt32(k) % 2 == JsNumber.ToUint32(k) % 2
    ensures JsNumber.ToUint32(JsNumber.ToUint32(k) / 2) == JsNumber.ToUint32(k) / 2
    ensures JsNumber.ToUint32(k) <= k
  {
  }

  /** pow(zeros(2), 2^32) as written: the identity, while zero to that power is zero. */
  lemma PowAsWrittenCounterexample()
    ensures IsSquareGrid([[ZERO, ZERO], [ZERO, ZERO]])
    ensures MatPow([[ZERO, ZERO], [ZERO, ZERO]], JsNumber.ToUint32(0x1_0000_0000)) == Eye(2, 2)
    ensures MatPow([[ZERO, ZERO], [ZERO, ZERO]], 0x1_0000_0000) == [[ZERO, ZERO], [ZERO, ZERO]]
    ensures Eye(2, 2) != [[ZERO, ZERO], [ZERO, ZERO]]
  {
    var z := [[ZERO, ZERO], [ZERO, ZERO]];
    MatPowZero(z, 0x1_0000_0000);
    assert Eye(2, 2)[0][0] == ONE;
  }

  /** The corrected loop: the exponent is halved exactly, with no 32-bit reduction. */
  method PowBySquaring(a: Grid, n: nat) returns (y: Grid)
    requires IsSquareGrid(a)
    ensures y == MatPow(a, n)
  {
    var x := a;
    y := Eye(|a|, |a|);
    var k := n;
    MatMulEye(MatPow(a, n));
    while k != 0
      invariant IsSquareGrid(x) && IsSquareGrid(y) && |x| == |a| && |y| == |a|
      invariant MatMul(y, MatPow(x, k)) == MatPow(a, n)
      decreases k
    {
      SquaringStep(y, x, k);
      if k % 2 == 1 {
        y := MatMul(y, x);
      }
      x := MatMul(x, x);
      k := k / 2;
    }
    MatMulEye(y);
  }
}
