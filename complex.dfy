/**
 * Finite complex numbers: the value a `Complex` object holds when both of its
 * parts are finite, with its arithmetic (including the real-only and
 * imaginary-only fast paths), rounding and tolerance predicates.
 */
module ComplexNum {
  import opened Wrappers
  import opened JsNumber
  import Polyfill

  datatype Complex = Complex(re: real, im: real)

  const ZERO: Complex := Complex(0.0, 0.0)
  const ONE: Complex := Complex(1.0, 0.0)
  const TWO: Complex := Complex(2.0, 0.0)
  const TEN: Complex := Complex(10.0, 0.0)
  const MINUS_ONE: Complex := Complex(-1.0, 0.0)
  const I: Complex := Complex(0.0, 1.0)
  const MINUS_I: Complex := Complex(0.0, -1.0)
  const HALF: Complex := Complex(0.5, 0.0)

  function Abs(x: real): (r: real)
    ensures 0.0 <= r && (r == x || r == -x)
  {
    if x < 0.0 then -x else x
  }

  /**
   * `tolerance ? tolerance : Number.EPSILON`. An omitted tolerance is passed
   * as 0, which JavaScript treats as false.
   */
  function Tol(tolerance: real): (t: real)
    ensures t != 0.0
    ensures tolerance != 0.0 ==> t == tolerance
    ensures tolerance == 0.0 ==> t == EPSILON
    ensures 0.0 <= tolerance ==> 0.0 < t
  {
    if tolerance != 0.0 then tolerance else EPSILON
  }

  // ---------------------------------------------------------------------
  // Construction
  // ---------------------------------------------------------------------

  /** The argument forms the constructor accepts (the numeral-string form is not modelled). */
  datatype Arg =
    | Number(n: real)
    | Boolean(b: bool)
    | Array(items: seq<real>)
    | Value(c: Complex)
    | Record(re_: real, im_: real)

  /** `new Complex(x)`: copies a Complex, reads a number, a boolean, a pair or a `{_re, _im}` record. */
  function FromArg(x: Arg): (r: Result<Complex>)
    ensures r.Err? <==> (x.Array? && |x.items| != 2)
    ensures x.Number? ==> r == Ok(Complex(x.n, 0.0))
    ensures x.Boolean? ==> r == Ok(if x.b then ONE else ZERO)
    ensures x.Array? && |x.items| == 2 ==> r == Ok(Complex(x.items[0], x.items[1]))
  {
    match x
    case Value(c) => Ok(c)
    case Number(n) => Ok(Complex(n, 0.0))
    case Array(items) =>
      if |items| == 2 then Ok(Complex(items[0], items[1]))
      else Err("Complex Unsupported argument")
    case Boolean(b) => Ok(Complex(if b then 1.0 else 0.0, 0.0))
    case Record(re_, im_) => Ok(Complex(re_, im_))
  }

  /** Every representation of a value constructs that value again. */
  lemma FromArgRoundTrip(z: Complex)
    ensures FromArg(Value(z)) == Ok(z)
    ensures FromArg(Array([z.re, z.im])) == Ok(z)
    ensures FromArg(Record(z.re, z.im)) == Ok(z)
    ensures z.im == 0.0 ==> FromArg(Number(z.re)) == Ok(z)
    ensures FromArg(Boolean(true)) == Ok(ONE) && FromArg(Boolean(false)) == Ok(ZERO)
  {
  }

  // ---------------------------------------------------------------------
  // Arithmetic
  // ---------------------------------------------------------------------

  function Add(a: Complex, b: Complex): (r: Complex)
    ensures r.re == a.re + b.re && r.im == a.im + b.im
  {
    Complex(a.re + b.re, a.im + b.im)
  }

  function Sub(a: Complex, b: Complex): (r: Complex)
    ensures r.re == a.re - b.re && r.im == a.im - b.im
  {
    Complex(a.re - b.re, a.im - b.im)
  }

  function Negate(a: Complex): (r: Complex)
    ensures Add(a, r) == ZERO
  {
    Complex(-a.re, -a.im)
  }

  /** conj returns the receiver itself when it is real. */
  function Conj(a: Complex): (r: Complex)
    ensures r == Complex(a.re, -a.im)
    ensures a.im == 0.0 ==> r == a
    ensures Add(a, r).im == 0.0 && Add(a, r).re == 2.0 * a.re
  {
    if a.im == 0.0 then a else Complex(a.re, -a.im)
  }

  /** The general product formula (a.re + a.im i)(b.re + b.im i). */
  function Product(a: Complex, b: Complex): Complex {
    Complex(a.re * b.re - a.im * b.im, a.im * b.re + a.re * b.im)
  }

  /**
   * mul: the two fast paths (both operands real, both purely imaginary) give
   * the same value as the general product formula.
   */
  function Mul(a: Complex, b: Complex): (r: Complex)
    ensures r == Complex(a.re * b.re - a.im * b.im, a.im * b.re + a.re * b.im)
  {
    if a.im == 0.0 && b.im == 0.0 then Complex(a.re * b.re, b.im)
    else if a.re == 0.0 && b.re == 0.0 then Complex(-a.im * b.im, 0.0)
    else Complex(a.re * b.re - a.im * b.im, a.im * b.re + a.re * b.im)
  }

  /** dot: conj(A)·B, although its documentation describes A·conj(B). */
  function Dot(a: Complex, b: Complex): (r: Complex)
    ensures r == Mul(Conj(a), b)
  {
    if a.im == 0.0 && b.im == 0.0 then Complex(a.re * b.re, b.im)
    else if a.re == 0.0 && b.re == 0.0 then Complex(a.im * b.im, 0.0)
    else Complex(a.re * b.re + a.im * b.im, -a.im * b.re + a.re * b.im)
  }

  /** |z|², exact over the reals; it orders values as their moduli do. */
  function NormSq(a: Complex): (r: real)
  {
    a.re * a.re + a.im * a.im
  }

  /** |z|² is never negative and vanishes only at zero. */
  lemma NormSqPositive(a: Complex)
    ensures 0.0 <= NormSq(a)
    ensures NormSq(a) == 0.0 <==> a == ZERO
  {
    var p, q := a.re * a.re, a.im * a.im;
    SquareSign(a.re, p);
    SquareSign(a.im, q);
    SumSign(p, q, NormSq(a), a != ZERO);
    if NormSq(a) == 0.0 {
      assert p == 0.0 && q == 0.0;
      assert a.re == 0.0 && a.im == 0.0;
    }
  }

  // The solver loses facts of the shape `x * x > 0`; these helpers keep the
  // square behind a separate name.
  lemma ProductPositive(u: real, v: real, p: real)
    requires u > 0.0 && v > 0.0 && p == u * v
    ensures p > 0.0
  {
  }

  lemma SquareSign(x: real, p: real)
    requires p == x * x
    ensures p >= 0.0
    ensures x != 0.0 ==> p > 0.0
  {
    if x > 0.0 {
      ProductPositive(x, x, p);
    } else if x < 0.0 {
      assert p == (-x) * (-x);
      ProductPositive(-x, -x, p);
    }
  }

  lemma SumSign(p: real, q: real, s: real, nonzero: bool)
    requires p >= 0.0 && q >= 0.0 && s == p + q
    requires nonzero ==> (p > 0.0 || q > 0.0)
    ensures s >= 0.0 && (nonzero ==> s > 0.0)
  {
  }

  /** The general quotient formula, (a·conj(b)) / |b|². */
  function Quotient(a: Complex, b: Complex): Complex
    requires b != ZERO
  {
    NormSqPositive(b);
    Complex((a.re * b.re + a.im * b.im) / NormSq(b), (a.im * b.re - a.re * b.im) / NormSq(b))
  }

  /**
   * div. A zero divisor makes every path of the source produce an infinity or
   * NaN, which the finite model reports as None. Otherwise both fast paths
   * agree with the general quotient, and the quotient times b gives a back.
   */
  function Div(a: Complex, b: Complex): (r: Option<Complex>)
    ensures r.Some? <==> b != ZERO
    ensures r.Some? ==> r.value == Quotient(a, b)
  {
    if b == ZERO then None
    else if a.im == 0.0 && b.im == 0.0 then
      DivRealPath(a, b);
      Some(Complex(a.re / b.re, b.im))
    else if a.re == 0.0 && b.re == 0.0 then
      DivImaginaryPath(a, b);
      Some(Complex(a.im / b.im, 0.0))
    else
      Some(DivGeneral(a, b))
  }

  /** The general path of div: a·conj(b) scaled by 1 / |b|². */
  function DivGeneral(a: Complex, b: Complex): (q: Complex)
    requires b != ZERO
    ensures q == Quotient(a, b)
  {
    var re := a.re * b.re + a.im * b.im;
    var im := a.im * b.re - a.re * b.im;
    NormSqPositive(b);
    var d := 1.0 / NormSq(b);
    DivGeneralPath(a, b);
    Complex(re * d, im * d)
  }

  lemma QuotientRoundTrip(a: Complex, b: Complex)
    requires b != ZERO
    ensures Mul(Quotient(a, b), b) == a
  {
    NormSqPositive(b);
    var n := NormSq(b);
    var x := (a.re * b.re + a.im * b.im) / n;
    var y := (a.im * b.re - a.re * b.im) / n;
    assert x * n == a.re * b.re + a.im * b.im;
    assert y * n == a.im * b.re - a.re * b.im;
    assert (x * b.re - y * b.im) * n == a.re * n;
    assert (y * b.re + x * b.im) * n == a.im * n;
  }

  lemma DivRealPath(a: Complex, b: Complex)
    requires b != ZERO && a.im == 0.0 && b.im == 0.0
    ensures Complex(a.re / b.re, b.im) == Quotient(a, b)
  {
    NormSqPositive(b);
    assert NormSq(b) == b.re * b.re;
    assert (a.re * b.re) / (b.re * b.re) == a.re / b.re;
  }

  lemma DivImaginaryPath(a: Complex, b: Complex)
    requires b != ZERO && a.re == 0.0 && b.re == 0.0
    ensures Complex(a.im / b.im, 0.0) == Quotient(a, b)
  {
    NormSqPositive(b);
    assert NormSq(b) == b.im * b.im;
    assert (a.im * b.im) / (b.im * b.im) == a.im / b.im;
  }

  lemma DivGeneralPath(a: Complex, b: Complex)
    requires b != ZERO && NormSq(b) != 0.0
    ensures var d := 1.0 / NormSq(b);
      Complex((a.re * b.re + a.im * b.im) * d, (a.im * b.re - a.re * b.im) * d) == Quotient(a, b)
  {
  }

  /** Division undoes multiplication: (a / b) · b == a for every nonzero b. */
  lemma DivRoundTrip(a: Complex, b: Complex)
    requires b != ZERO
    ensures Div(a, b).Some? && Mul(Div(a, b).value, b) == a
    ensures Div(Mul(a, b), b) == Some(a)
  {
    QuotientRoundTrip(a, b);
    QuotientRoundTrip(Mul(a, b), b);
    var q := Div(Mul(a, b), b).value;
    assert Mul(q, b) == Mul(a, b);
    MulCancel(q, a, b);
  }

  /** A nonzero factor can be cancelled. */
  lemma MulCancel(x: Complex, y: Complex, b: Complex)
    requires b != ZERO && Mul(x, b) == Mul(y, b)
    ensures x == y
  {
    var d := Sub(x, y);
    assert Mul(d, b) == ZERO by {
      RingLaws(b, x, y);
      RingLaws(x, b, ZERO);
      RingLaws(y, b, ZERO);
      RingLaws(d, b, ZERO);
    }
    ZeroProduct(d, b);
  }

  lemma ZeroProduct(d: Complex, b: Complex)
    requires b != ZERO && Mul(d, b) == ZERO
    ensures d == ZERO
  {
    // d·b·conj(b) == d·|b|², so |b|² · d == 0.
    NormSqPositive(b);
    var n := NormSq(b);
    assert d.re * b.re - d.im * b.im == 0.0;
    assert d.im * b.re + d.re * b.im == 0.0;
    assert d.re * n == (d.re * b.re - d.im * b.im) * b.re + (d.im * b.re + d.re * b.im) * b.im;
    assert d.im * n == (d.im * b.re + d.re * b.im) * b.re - (d.re * b.re - d.im * b.im) * b.im;
    assert d.re * n == 0.0 && d.im * n == 0.0;
  }

  /** inv: 1/re for a real value, (0, -1/im) for an imaginary one, ONE.div(x) otherwise. */
  function Inv(a: Complex): (r: Option<Complex>)
    ensures r.Some? <==> a != ZERO
    ensures r == Div(ONE, a)
  {
    if a.im == 0.0 then (if a.re == 0.0 then None else Some(Complex(1.0 / a.re, 0.0)))
    else if a.re == 0.0 then
      NormSqPositive(a);
      assert NormSq(a) == a.im * a.im;
      assert (0.0 * a.im - 1.0 * a.im) / (a.im * a.im) == -1.0 / a.im;
      Some(Complex(0.0, -1.0 / a.im))
    else Div(ONE, a)
  }

  /** The two parts added: the key by which compareTo orders values. */
  function Key(a: Complex): real { a.re + a.im }

  // ---------------------------------------------------------------------
  // Rounding
  // ---------------------------------------------------------------------

  function FloorR(x: real): (r: real)
    ensures r <= x < r + 1.0 && r == r.Floor as real
  {
    Polyfill.FloorBounds(x);
    x.Floor as real
  }

  function CeilR(x: real): (r: real)
    ensures r - 1.0 < x <= r && r == r.Floor as real
  {
    Polyfill.FloorBounds(-x);
    Polyfill.NegIntegral((-x).Floor);
    -((-x).Floor as real)
  }

  /** Math.round: the nearest integer, halves rounded up. */
  function RoundR(x: real): (r: real)
    ensures r - 0.5 <= x < r + 0.5 && r == r.Floor as real
  {
    FloorR(x + 0.5)
  }

  function Floor(a: Complex): (r: Complex)
    ensures r.re <= a.re < r.re + 1.0 && r.im <= a.im < r.im + 1.0
    ensures r.re == r.re.Floor as real && r.im == r.im.Floor as real
  {
    Complex(FloorR(a.re), FloorR(a.im))
  }

  function Ceil(a: Complex): (r: Complex)
    ensures r.re - 1.0 < a.re <= r.re && r.im - 1.0 < a.im <= r.im
    ensures r.re == r.re.Floor as real && r.im == r.im.Floor as real
  {
    Complex(CeilR(a.re), CeilR(a.im))
  }

  function Round(a: Complex): (r: Complex)
    ensures r.re - 0.5 <= a.re < r.re + 0.5 && r.im - 0.5 <= a.im < r.im + 0.5
    ensures r.re == r.re.Floor as real && r.im == r.im.Floor as real
  {
    Complex(RoundR(a.re), RoundR(a.im))
  }

  /** fix: both parts truncated toward zero. */
  function Fix(a: Complex): (r: Complex)
    ensures Abs(r.re) <= Abs(a.re) < Abs(r.re) + 1.0 && Abs(r.im) <= Abs(a.im) < Abs(r.im) + 1.0
    ensures r.re * a.re >= 0.0 && r.im * a.im >= 0.0
  {
    Complex(Polyfill.Trunc(a.re), Polyfill.Trunc(a.im))
  }

  /** fract: what floor drops, so floor(a) + fract(a) == a with both parts in [0, 1). */
  function Fract(a: Complex): (r: Complex)
    ensures Add(Floor(a), r) == a
    ensures 0.0 <= r.re < 1.0 && 0.0 <= r.im < 1.0
  {
    Complex(a.re - FloorR(a.re), a.im - FloorR(a.im))
  }

  // ---------------------------------------------------------------------
  // Tolerance predicates
  // ---------------------------------------------------------------------

  predicate IsZero(a: Complex, tolerance: real) {
    Abs(a.re) < Tol(tolerance) && Abs(a.im) < Tol(tolerance)
  }

  predicate IsOne(a: Complex, tolerance: real) {
    Abs(a.re - 1.0) < Tol(tolerance) && Abs(a.im) < Tol(tolerance)
  }

  predicate IsReal(a: Complex, tolerance: real) {
    Abs(a.im) < Tol(tolerance)
  }

  predicate IsComplex(a: Complex, tolerance: real) {
    Abs(a.im) >= Tol(tolerance)
  }

  /** isInteger: the imaginary test always uses the default tolerance; only the real test takes `tolerance`. */
  predicate IsInteger(a: Complex, tolerance: real) {
    IsReal(a, 0.0) && Abs(a.re - Polyfill.Trunc(a.re)) < Tol(tolerance)
  }

  predicate IsComplexInteger(a: Complex, tolerance: real) {
    Abs(a.re - Polyfill.Trunc(a.re)) < Tol(tolerance) && Abs(a.im - Polyfill.Trunc(a.im)) < Tol(tolerance)
  }

  predicate IsPositive(a: Complex) { 0.0 < a.re }
  predicate IsNegative(a: Complex) { 0.0 > a.re }
  predicate IsNotNegative(a: Complex) { 0.0 <= a.re }

  /**
   * The predicates compare strictly against the tolerance: a part exactly at
   * the tolerance fails, and isComplex is the negation of isReal.
   */
  lemma TolerancePredicates(a: Complex, tolerance: real)
    requires 0.0 <= tolerance
    ensures IsComplex(a, tolerance) <==> !IsReal(a, tolerance)
    ensures !IsZero(Complex(Tol(tolerance), 0.0), tolerance) && IsZero(ZERO, tolerance)
    ensures !IsReal(Complex(0.0, Tol(tolerance)), tolerance)
    ensures IsOne(ONE, tolerance) && !IsOne(Complex(1.0 + Tol(tolerance), 0.0), tolerance)
    ensures IsInteger(a, tolerance) <==> IsReal(a, 0.0) && IsComplexInteger(Complex(a.re, 0.0), tolerance)
    ensures a.im == 0.0 && a.re == a.re.Floor as real ==> IsInteger(a, tolerance)
  {
    if a.im == 0.0 && a.re == a.re.Floor as real {
      Polyfill.IsIntegerMeans(Finite(a.re));
    }
  }

  // ---------------------------------------------------------------------
  // Algebra of the operations
  // ---------------------------------------------------------------------

  lemma AddSubInverse(a: Complex, b: Complex)
    ensures Sub(Add(a, b), b) == a && Add(Sub(a, b), b) == a
  {
  }

  lemma NegateInvolution(a: Complex)
    ensures Negate(Negate(a)) == a && Sub(a, a) == ZERO
  {
  }

  lemma ConjProperties(a: Complex, b: Complex)
    ensures Conj(Conj(a)) == a
    ensures Conj(Mul(a, b)) == Mul(Conj(a), Conj(b))
    ensures Conj(Add(a, b)) == Add(Conj(a), Conj(b))
    ensures Mul(a, Conj(a)) == Complex(NormSq(a), 0.0)
  {
    ProductConj(a, b);
  }

  /** The conjugate of a product is the product of the conjugates; z times its conjugate is |z|². */
  lemma ProductConj(a: Complex, b: Complex)
    ensures var p := Product(a, b);
      Complex(p.re, -p.im) == Product(Complex(a.re, -a.im), Complex(b.re, -b.im))
    ensures Product(a, Complex(a.re, -a.im)) == Complex(NormSq(a), 0.0)
  {
  }

  lemma RingLaws(a: Complex, b: Complex, c: Complex)
    ensures Add(a, b) == Add(b, a) && Add(Add(a, b), c) == Add(a, Add(b, c))
    ensures Mul(a, b) == Mul(b, a) && Mul(Mul(a, b), c) == Mul(a, Mul(b, c))
    ensures Mul(a, Add(b, c)) == Add(Mul(a, b), Mul(a, c))
    ensures Mul(a, Sub(b, c)) == Sub(Mul(a, b), Mul(a, c))
    ensures Mul(ONE, a) == a && Mul(ZERO, a) == ZERO && Add(ZERO, a) == a
  {
    MulAssoc(a, b, c);
    MulDistributes(a, b, c);
  }

  /** Mul is the general product formula. */
  lemma MulIsProduct(a: Complex, b: Complex)
    ensures Mul(a, b) == Product(a, b)
  {
  }

  lemma MulAssoc(a: Complex, b: Complex, c: Complex)
    ensures Mul(Mul(a, b), c) == Mul(a, Mul(b, c))
  {
    MulIsProduct(a, b);
    MulIsProduct(b, c);
    MulIsProduct(Mul(a, b), c);
    MulIsProduct(a, Mul(b, c));
    ProductAssoc(a, b, c);
  }

  lemma ProductAssoc(a: Complex, b: Complex, c: Complex)
    ensures Product(Product(a, b), c) == Product(a, Product(b, c))
  {
  }

  lemma MulDistributes(a: Complex, b: Complex, c: Complex)
    ensures Mul(a, Add(b, c)) == Add(Mul(a, b), Mul(a, c))
    ensures Mul(a, Sub(b, c)) == Sub(Mul(a, b), Mul(a, c))
  {
    MulIsProduct(a, b);
    MulIsProduct(a, c);
    MulIsProduct(a, Add(b, c));
    MulIsProduct(a, Sub(b, c));
    ProductDistributes(a, b, c);
  }

  lemma ProductDistributes(a: Complex, b: Complex, c: Complex)
    ensures Product(a, Add(b, c)) == Add(Product(a, b), Product(a, c))
    ensures Product(a, Sub(b, c)) == Sub(Product(a, b), Product(a, c))
  {
    var s, d := Add(b, c), Sub(b, c);
    RealDistributes(a.re, a.im, b.re, b.im, c.re, c.im, s.re, s.im);
    RealDistributes(a.re, a.im, b.re, b.im, -c.re, -c.im, d.re, d.im);
  }

  /** The coordinates of a s, with s = b + c, and of a b + a c agree. */
  lemma RealDistributes(ar: real, ai: real, br: real, bi: real, cr: real, ci: real, sr: real, si: real)
    requires sr == br + cr && si == bi + ci
    ensures ar * sr - ai * si == (ar * br - ai * bi) + (ar * cr - ai * ci)
    ensures ai * sr + ar * si == (ai * br + ar * bi) + (ai * cr + ar * ci)
    ensures (ar * br - ai * bi) + (ar * cr - ai * ci) == (ar * br - ai * bi) - (ar * -cr - ai * -ci)
    ensures (ai * br + ar * bi) + (ai * cr + ar * ci) == (ai * br + ar * bi) - (ai * -cr + ar * -ci)
  {
  }

  /** inv(z) · z == 1, and dividing by z is multiplying by inv(z). */
  lemma InvDiv(a: Complex, b: Complex)
    requires b != ZERO
    ensures Mul(Inv(b).value, b) == ONE
    ensures Div(a, b) == Some(Mul(a, Inv(b).value))
  {
    var q := Div(a, b).value;
    var v := Inv(b).value;
    DivRoundTrip(a, b);
    DivRoundTrip(ONE, b);
    assert Mul(q, b) == a;
    assert Mul(v, b) == ONE;
    calc {
      Mul(a, v);
      Mul(Mul(q, b), v);
      { RingLaws(q, b, v); }
      Mul(q, Mul(b, v));
      { RingLaws(b, v, ZERO); }
      Mul(q, ONE);
      { RingLaws(q, ONE, ZERO); }
      q;
    }
  }
}
