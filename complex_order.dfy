/**
 * compareTo, equals and equalsState on finite complex values, the max, min
 * and clip built on them, and the real-only rem and mod.
 */
module ComplexOrder {
  import opened Wrappers
  import opened JsNumber
  import opened ComplexNum
  import Polyfill

  /** compareTo's answer: -1, 0, 1, or NaN when the values cannot be ordered. */
  datatype Order = Less | Same | More | Unordered

  const UNDEFINED: string := "calculation method is undefined."
  const NOT_A_NUMBER: string := "NaN"

  // ---------------------------------------------------------------------
  // compareTo
  // ---------------------------------------------------------------------

  /**
   * compareTo on finite values: the keys re+im are equal when they differ by
   * at most the tolerance (inclusive); otherwise the larger key wins.
   */
  function Compare(a: Complex, b: Complex, tolerance: real): (r: Order)
    ensures r != Unordered
    ensures r == Same <==> Abs(Key(a) - Key(b)) <= Tol(tolerance)
    ensures r == More ==> Key(a) > Key(b)
    ensures r == Less ==> Key(a) < Key(b) || Tol(tolerance) < 0.0
  {
    var x := Key(a);
    var y := Key(b);
    if Abs(x - y) <= Tol(tolerance) then Same
    else if x > y then More
    else Less
  }

  /** With a non-negative tolerance compareTo is reflexive and antisymmetric. */
  lemma CompareAntisymmetric(a: Complex, b: Complex, tolerance: real)
    requires 0.0 <= tolerance
    ensures Compare(a, a, tolerance) == Same
    ensures Compare(a, b, tolerance) == Same <==> Compare(b, a, tolerance) == Same
    ensures Compare(a, b, tolerance) == Less <==> Compare(b, a, tolerance) == More
  {
  }

  /**
   * A negative tolerance is still truthy, so it is used as given: then no two
   * values compare equal, and compareTo(a, a) is -1.
   */
  lemma CompareNegativeTolerance(a: Complex, tolerance: real)
    requires tolerance < 0.0
    ensures Compare(a, a, tolerance) == Less
  {
  }

  /**
   * Strictly-less is transitive, and survives a detour through an equal value
   * between two strict steps (the keys form a semiorder).
   */
  lemma CompareTransitive(a: Complex, b: Complex, c: Complex, d: Complex, tolerance: real)
    requires 0.0 <= tolerance
    ensures Compare(a, b, tolerance) == Less && Compare(b, c, tolerance) == Less ==> Compare(a, c, tolerance) == Less
    ensures Compare(a, b, tolerance) == Less && Compare(b, c, tolerance) == Same && Compare(c, d, tolerance) == Less ==>
      Compare(a, d, tolerance) == Less
  {
  }

  /** A strict answer is decided by the keys alone: values with equal keys compare alike. */
  lemma CompareByKey(a: Complex, a': Complex, b: Complex, tolerance: real)
    requires Key(a) == Key(a')
    ensures Compare(a, b, tolerance) == Compare(a', b, tolerance)
  {
  }

  // ---------------------------------------------------------------------
  // equals and equalsState
  // ---------------------------------------------------------------------

  /** equals: an exact match, or both parts closer than the tolerance (strictly). */
  function Equals(a: Complex, b: Complex, tolerance: real): (r: bool)
    ensures a == b ==> r
    ensures r && a != b ==> Abs(a.re - b.re) < Tol(tolerance) && Abs(a.im - b.im) < Tol(tolerance)
    ensures !r ==> Abs(a.re - b.re) >= Tol(tolerance) || Abs(a.im - b.im) >= Tol(tolerance)
  {
    if a == b then true
    else Abs(a.re - b.re) < Tol(tolerance) && Abs(a.im - b.im) < Tol(tolerance)
  }

  lemma EqualsSymmetric(a: Complex, b: Complex, tolerance: real)
    ensures Equals(a, b, tolerance) == Equals(b, a, tolerance)
  {
  }

  /** Values that are equal within the tolerance have keys at most twice the tolerance apart. */
  lemma EqualsCloseKeys(a: Complex, b: Complex, tolerance: real)
    requires 0.0 <= tolerance && Equals(a, b, tolerance)
    ensures Abs(Key(a) - Key(b)) < 2.0 * Tol(tolerance)
  {
  }

  /** The class equalsState assigns to a finite value: 0 zero, 1 positive, 2 otherwise. */
  function State(a: Complex): (s: nat)
    ensures s <= 2
    ensures s == 0 <==> IsZero(a, 0.0)
    ensures s == 1 <==> !IsZero(a, 0.0) && IsPositive(a)
  {
    if IsZero(a, 0.0) then 0
    else if IsPositive(a) then 1
    else 2
  }

  predicate EqualsState(a: Complex, b: Complex) {
    State(a) == State(b)
  }

  // ---------------------------------------------------------------------
  // max, min, clip
  // ---------------------------------------------------------------------

  /** max: the receiver unless it compares strictly less (default tolerance). */
  function Max(a: Complex, b: Complex): (r: Complex)
    ensures r == a || r == b
    ensures Compare(a, b, 0.0) != Less ==> r == a
    ensures Compare(r, a, 0.0) != Less && Compare(r, b, 0.0) != Less
  {
    if Compare(a, b, 0.0) != Less then a else b
  }

  /** min: the receiver unless it compares strictly greater (default tolerance). */
  function Min(a: Complex, b: Complex): (r: Complex)
    ensures r == a || r == b
    ensures Compare(a, b, 0.0) != More ==> r == a
    ensures Compare(r, a, 0.0) != More && Compare(r, b, 0.0) != More
  {
    if Compare(a, b, 0.0) != More then a else b
  }

  /**
   * clip(min, max): throws when min > max, gives min when min and max are
   * equal within the tolerance, and otherwise a value between min and max.
   */
  function Clip(x: Complex, lo: Complex, hi: Complex): (r: Result<Complex>)
    ensures r.Err? <==> Compare(lo, hi, 0.0) == More
    ensures Compare(lo, hi, 0.0) == Same ==> r == Ok(lo)
    ensures r.Ok? ==> Compare(r.value, hi, 0.0) != More && Compare(r.value, lo, 0.0) != Less
    ensures r.Ok? ==> r.value == x || r.value == lo || r.value == hi
    ensures Compare(lo, hi, 0.0) == Less && Compare(x, hi, 0.0) != More && Compare(x, lo, 0.0) != Less ==> r == Ok(x)
  {
    var check := Compare(lo, hi, 0.0);
    if check == More then Err("clip(min, max) error. (min > max)")
    else if check == Same then Ok(lo)
    else if Compare(x, hi, 0.0) == More then Ok(hi)
    else if Compare(x, lo, 0.0) == Less then Ok(lo)
    else Ok(x)
  }

  // ---------------------------------------------------------------------
  // rem and mod (real operands only)
  // ---------------------------------------------------------------------

  /** a - b·trunc(a/b). */
  function RemValue(a: real, b: real): real
    requires b != 0.0
  {
    a - b * Polyfill.Trunc(a / b)
  }

  /**
   * The remainder is smaller than the divisor in magnitude, is zero or has the
   * dividend's sign, and differs from the dividend by an integer multiple of
   * the divisor.
   */
  lemma RemProperties(a: real, b: real)
    requires b != 0.0
    ensures Abs(RemValue(a, b)) < Abs(b)
    ensures RemValue(a, b) == 0.0 || (RemValue(a, b) > 0.0 <==> a > 0.0)
    ensures var t := Polyfill.Trunc(a / b); t == t.Floor as real && a == RemValue(a, b) + b * t
  {
    var x := a / b;
    var t := Polyfill.Trunc(x);
    var f := x - t;
    var r := RemValue(a, b);
    assert b * x == a;
    assert r == b * f;
    if b > 0.0 {
      if x >= 0.0 {
        assert 0.0 <= f < 1.0;
        ScaleBounds(b, f, r);
        if r != 0.0 { assert f > 0.0; PositiveQuotient(a, b, x); }
        else { assert r == 0.0; }
      } else {
        assert -1.0 < f <= 0.0;
        ScaleBounds(b, -f, -r);
        if r != 0.0 { NegativeQuotient(a, b, x); }
      }
    } else {
      if x >= 0.0 {
        assert 0.0 <= f < 1.0;
        ScaleBounds(-b, f, -r);
        if r != 0.0 { assert f > 0.0; PositiveQuotient(-a, -b, x); }
      } else {
        assert -1.0 < f <= 0.0;
        ScaleBounds(-b, -f, r);
        if r != 0.0 { NegativeQuotient(-a, -b, x); }
      }
    }
  }

  /** 0 <= f < 1 scales into [0, b), and a nonzero product means a nonzero f. */
  lemma ScaleBounds(b: real, f: real, p: real)
    requires b > 0.0 && 0.0 <= f < 1.0 && p == b * f
    ensures 0.0 <= p < b
    ensures p != 0.0 ==> f > 0.0
  {
    assert b - p == b * (1.0 - f);
    ProductPositive(b, 1.0 - f, b - p);
    if f > 0.0 { ProductPositive(b, f, p); }
  }

  lemma PositiveQuotient(a: real, b: real, x: real)
    requires b > 0.0 && x == a / b && x > 0.0
    ensures a > 0.0
  {
    assert a == b * x;
    ProductPositive(b, x, a);
  }

  lemma NegativeQuotient(a: real, b: real, x: real)
    requires b > 0.0 && x == a / b && x < 0.0
    ensures a < 0.0
  {
    assert -a == b * -x;
    ProductPositive(b, -x, -a);
  }

  /**
   * rem: throws unless both operands are real; a divisor that is zero within
   * the default tolerance gives NaN, reported here as an error.
   */
  function Rem(a: Complex, b: Complex): (r: Result<Complex>)
    ensures (a.im != 0.0 || b.im != 0.0) <==> r == Err(UNDEFINED)
    ensures r.Ok? <==> a.im == 0.0 && b.im == 0.0 && !IsZero(b, 0.0)
    ensures r.Ok? ==> r.value.im == 0.0 && Abs(r.value.re) < Abs(b.re)
    ensures r.Ok? ==> r.value.re == 0.0 || (r.value.re > 0.0 <==> a.re > 0.0)
  {
    if a.im != 0.0 || b.im != 0.0 then Err(UNDEFINED)
    else if IsZero(b, 0.0) then Err(NOT_A_NUMBER)
    else
      RemProperties(a.re, b.re);
      Ok(Complex(RemValue(a.re, b.re), b.im))
  }

  /** rem leaves a remainder that differs from the dividend by an integer multiple of the divisor. */
  lemma RemQuotient(a: Complex, b: Complex) returns (q: int)
    requires Rem(a, b).Ok?
    ensures a.re == Rem(a, b).value.re + b.re * (q as real)
  {
    RemProperties(a.re, b.re);
    var t := Polyfill.Trunc(a.re / b.re);
    q := t.Floor;
  }

  /**
   * mod as the source writes it: B is added back to the remainder whenever
   * the dividend and the divisor fall in different equalsState classes, even
   * when the remainder is zero.
   */
  function ModAsWritten(a: Complex, b: Complex): (r: Result<Complex>)
    ensures (a.im != 0.0 || b.im != 0.0) <==> r == Err(UNDEFINED)
    ensures r.Err? ==> r == Err(UNDEFINED)
    ensures a.im == 0.0 && b.im == 0.0 && IsZero(b, 0.0) ==> r == Ok(a)
    ensures r.Ok? && !IsZero(b, 0.0) ==>
      r.value == (if EqualsState(a, b) then Rem(a, b).value else Add(Rem(a, b).value, b))
  {
    if a.im != 0.0 || b.im != 0.0 then Err(UNDEFINED)
    else if IsZero(b, 0.0) then Ok(a)
    else
      var ret := Rem(a, b).value;
      if !EqualsState(a, b) then Ok(Add(ret, b)) else Ok(ret)
  }

  /** The input that shows the defect: mod(-6, 3) and mod(0, 3) give 3, not 0. */
  lemma ModAsWrittenZeroRemainder()
    ensures ModAsWritten(Complex(-6.0, 0.0), Complex(3.0, 0.0)) == Ok(Complex(3.0, 0.0))
    ensures ModAsWritten(ZERO, Complex(3.0, 0.0)) == Ok(Complex(3.0, 0.0))
  {
    ModAsWrittenAddsBack(Complex(-6.0, 0.0), Complex(3.0, 0.0));
    ModAsWrittenAddsBack(ZERO, Complex(3.0, 0.0));
  }

  /** A zero remainder across two equalsState classes comes back as b. */
  lemma ModAsWrittenAddsBack(a: Complex, b: Complex)
    requires a.im == 0.0 && b.im == 0.0 && !IsZero(b, 0.0)
    requires Rem(a, b) == Ok(ZERO) && !EqualsState(a, b)
    ensures ModAsWritten(a, b) == Ok(b)
  {
  }

  /** The corrected mod gives 0 on the same inputs. */
  lemma ModZeroRemainder()
    ensures Mod(Complex(-6.0, 0.0), Complex(3.0, 0.0)) == Ok(ZERO)
    ensures Mod(ZERO, Complex(3.0, 0.0)) == Ok(ZERO)
  {
    RemExamples();
  }

  lemma RemExamples()
    ensures Rem(Complex(-6.0, 0.0), Complex(3.0, 0.0)) == Ok(ZERO)
    ensures Rem(ZERO, Complex(3.0, 0.0)) == Ok(ZERO)
  {
    assert -6.0 / 3.0 == -2.0;
    assert Polyfill.Trunc(-2.0) == -2.0;
    assert 0.0 / 3.0 == 0.0;
    assert Polyfill.Trunc(0.0) == 0.0;
  }

  /**
   * mod as evidently intended: a nonzero remainder whose sign differs from the
   * divisor's is moved by one divisor, so the result takes the divisor's sign.
   */
  function Mod(a: Complex, b: Complex): (r: Result<Complex>)
    ensures (a.im != 0.0 || b.im != 0.0) <==> r == Err(UNDEFINED)
    ensures r.Err? ==> r == Err(UNDEFINED)
    ensures a.im == 0.0 && b.im == 0.0 && IsZero(b, 0.0) ==> r == Ok(a)
    ensures r.Ok? && !IsZero(b, 0.0) ==> r.value.im == 0.0 && Abs(r.value.re) < Abs(b.re)
    ensures r.Ok? && !IsZero(b, 0.0) ==> r.value.re == 0.0 || (r.value.re > 0.0 <==> b.re > 0.0)
  {
    if a.im != 0.0 || b.im != 0.0 then Err(UNDEFINED)
    else if IsZero(b, 0.0) then Ok(a)
    else
      var ret := Rem(a, b).value;
      if ret.re != 0.0 && (ret.re > 0.0) != (b.re > 0.0) then Ok(Add(ret, b)) else Ok(ret)
  }

  /** mod differs from the dividend by an integer multiple of the divisor. */
  lemma ModQuotient(a: Complex, b: Complex) returns (q: int)
    requires Mod(a, b).Ok? && !IsZero(b, 0.0)
    ensures a.re == Mod(a, b).value.re + b.re * (q as real)
  {
    RemProperties(a.re, b.re);
    var t := Polyfill.Trunc(a.re / b.re);
    var ret := Rem(a, b).value;
    if ret.re != 0.0 && (ret.re > 0.0) != (b.re > 0.0) {
      q := t.Floor - 1;
    } else {
      q := t.Floor;
    }
  }

  /** Where the remainder is nonzero, or the operands share a class, the written mod is the intended one. */
  lemma ModAgreement(a: Complex, b: Complex)
    requires a.im == 0.0 && b.im == 0.0 && !IsZero(b, 0.0)
    requires Rem(a, b).value.re != 0.0 && !IsZero(a, 0.0)
    ensures ModAsWritten(a, b) == Mod(a, b)
  {
  }
}
