/**
 * Complex values whose parts may be NaN or ±Infinity: the explicit branches
 * of compareTo, equals, equalsState, rem, mod and sign that test for them,
 * with lemmas tying each back to the finite operation on finite values.
 */
module ExtComplex {
  import opened Wrappers
  import opened JsNumber
  import opened ComplexNum
  import opened ComplexOrder

  datatype XComplex = XComplex(re: Num, im: Num)

  const XNAN: XComplex := XComplex(NaN, NaN)

  function Lift(c: Complex): (x: XComplex)
    ensures x.re.Finite? && x.im.Finite?
  {
    XComplex(Finite(c.re), Finite(c.im))
  }

  // ---------------------------------------------------------------------
  // The IEEE operations the branches use
  // ---------------------------------------------------------------------

  /** IEEE addition: NaN absorbs, opposite infinities give NaN. */
  function NumAdd(x: Num, y: Num): (r: Num)
    ensures x.Finite? && y.Finite? ==> r == Finite(x.r + y.r)
    ensures x.NaN? || y.NaN? ==> r.NaN?
  {
    if x.NaN? || y.NaN? then NaN
    else if x.Finite? && y.Finite? then Finite(x.r + y.r)
    else if (x.PosInf? && y.NegInf?) || (x.NegInf? && y.PosInf?) then NaN
    else if x.PosInf? || y.PosInf? then PosInf
    else NegInf
  }

  lemma NumAddCommutes(x: Num, y: Num)
    ensures NumAdd(x, y) == NumAdd(y, x)
  {
  }

  function NumNeg(x: Num): (r: Num)
    ensures x.Finite? <==> r.Finite?
    ensures x.NaN? <==> r.NaN?
  {
    match x
    case Finite(a) => Finite(-a)
    case PosInf => NegInf
    case NegInf => PosInf
    case NaN => NaN
  }

  function NumAbs(x: Num): (r: Num)
    ensures x.Finite? ==> r == Finite(Abs(x.r))
    ensures x.PosInf? || x.NegInf? ==> r.PosInf?
    ensures x.NaN? ==> r.NaN?
  {
    match x
    case Finite(a) => Finite(Abs(a))
    case NaN => NaN
    case _ => PosInf
  }

  /** JavaScript `<` on numbers: false whenever NaN is involved. */
  predicate NumLess(x: Num, y: Num) {
    if x.NaN? || y.NaN? then false
    else if x.Finite? && y.Finite? then x.r < y.r
    else if x == y then false
    else x.NegInf? || y.PosInf?
  }

  /** `<` is a strict order on the non-NaN numbers: irreflexive, asymmetric, and total on distinct values. */
  lemma NumLessStrict(x: Num, y: Num)
    ensures !NumLess(x, x)
    ensures NumLess(x, y) ==> !NumLess(y, x)
    ensures !x.NaN? && !y.NaN? && x != y ==> NumLess(x, y) || NumLess(y, x)
  {
  }

  function XAdd(a: XComplex, b: XComplex): XComplex {
    XComplex(NumAdd(a.re, b.re), NumAdd(a.im, b.im))
  }

  // ---------------------------------------------------------------------
  // Tests of the state of a value
  // ---------------------------------------------------------------------

  predicate XIsNaN(a: XComplex) { a.re.NaN? || a.im.NaN? }
  predicate XIsPositiveInfinity(a: XComplex) { a.re.PosInf? || a.im.PosInf? }
  predicate XIsNegativeInfinity(a: XComplex) { a.re.NegInf? || a.im.NegInf? }
  predicate XIsInfinite(a: XComplex) { XIsPositiveInfinity(a) || XIsNegativeInfinity(a) }
  predicate XIsFinite(a: XComplex) { !XIsNaN(a) && !XIsInfinite(a) }

  predicate XIsZero(a: XComplex, tolerance: real) {
    NumLess(NumAbs(a.re), Finite(Tol(tolerance))) && NumLess(NumAbs(a.im), Finite(Tol(tolerance)))
  }

  predicate XIsPositive(a: XComplex) { NumLess(Finite(0.0), a.re) }

  /** isFinite holds exactly of lifted finite values, on which isZero and isPositive agree with the finite tests. */
  lemma XTestsLift(c: Complex, tolerance: real)
    ensures XIsFinite(Lift(c))
    ensures XIsZero(Lift(c), tolerance) == IsZero(c, tolerance)
    ensures XIsPositive(Lift(c)) == IsPositive(c)
  {
  }

  lemma XIsFiniteMeans(a: XComplex)
    ensures XIsFinite(a) <==> a.re.Finite? && a.im.Finite? && a == Lift(Complex(a.re.r, a.im.r))
  {
  }

  // ---------------------------------------------------------------------
  // equals, equalsState, compareTo
  // ---------------------------------------------------------------------

  function XEquals(a: XComplex, b: XComplex, tolerance: real): (r: bool)
    ensures XIsNaN(a) || XIsNaN(b) ==> !r
    ensures !XIsNaN(a) && a == b ==> r
    ensures r && a != b ==> a.re.Finite? && b.re.Finite? && a.im.Finite? && b.im.Finite?
  {
    if XIsNaN(a) || XIsNaN(b) then false
    else if StrictEquals(a.re, b.re) && StrictEquals(a.im, b.im) then true
    else
      var t := Finite(Tol(tolerance));
      NumLess(NumAbs(NumAdd(a.re, NumNeg(b.re))), t) && NumLess(NumAbs(NumAdd(a.im, NumNeg(b.im))), t)
  }

  lemma XEqualsLift(a: Complex, b: Complex, tolerance: real)
    ensures XEquals(Lift(a), Lift(b), tolerance) == Equals(a, b, tolerance)
  {
  }

  lemma XEqualsSymmetric(a: XComplex, b: XComplex, tolerance: real)
    ensures XEquals(a, b, tolerance) == XEquals(b, a, tolerance)
  {
    if !XIsNaN(a) && !XIsNaN(b) && !(StrictEquals(a.re, b.re) && StrictEquals(a.im, b.im)) {
      AbsDifferenceSymmetric(a.re, b.re);
      AbsDifferenceSymmetric(a.im, b.im);
    }
  }

  lemma AbsDifferenceSymmetric(x: Num, y: Num)
    ensures NumAbs(NumAdd(x, NumNeg(y))) == NumAbs(NumAdd(y, NumNeg(x)))
  {
  }

  /** getState of equalsState: 0 zero, 1 positive, 2 other finite, 3 NaN, 4 +Infinity, 5 -Infinity. */
  function XState(a: XComplex): (s: nat)
    ensures s <= 5
    ensures XIsNaN(a) && !XIsInfinite(a) ==> s == 3
    ensures s == 3 ==> XIsNaN(a)
    ensures s >= 3 <==> !XIsFinite(a)
  {
    if XIsZero(a, 0.0) then 0
    else if !XIsFinite(a) then
      (if XIsPositiveInfinity(a) then 4 else if XIsNegativeInfinity(a) then 5 else 3)
    else if XIsPositive(a) then 1
    else 2
  }

  predicate XEqualsState(a: XComplex, b: XComplex) {
    XState(a) == XState(b)
  }

  lemma XStateLift(c: Complex)
    ensures XState(Lift(c)) == State(c)
  {
  }

  /** A value with opposite infinities in its two parts, whose key re+im is NaN. */
  predicate OppositeInfinities(a: XComplex) {
    (a.re.PosInf? && a.im.NegInf?) || (a.re.NegInf? && a.im.PosInf?)
  }

  function XCompareTo(a: XComplex, b: XComplex, tolerance: real): (r: Order)
    ensures XIsNaN(a) || XIsNaN(b) ==> r == Unordered
  {
    if !XIsFinite(a) || !XIsFinite(b) then
      if XEquals(a, b, 0.0) then Same
      else if XIsNaN(a) || XIsNaN(b) || OppositeInfinities(a) || OppositeInfinities(b) then Unordered
      else if XIsFinite(a) then (if NumLess(NumAdd(b.re, b.im), Finite(0.0)) then More else Less)
      else if XIsFinite(b) then (if NumLess(Finite(0.0), NumAdd(a.re, a.im)) then More else Less)
      else Unordered
    else
      Compare(Complex(a.re.r, a.im.r), Complex(b.re.r, b.im.r), tolerance)
  }

  /** On finite values compareTo is the key comparison of the finite model. */
  lemma XCompareToLift(a: Complex, b: Complex, tolerance: real)
    ensures XCompareTo(Lift(a), Lift(b), tolerance) == Compare(a, b, tolerance)
  {
  }

  /**
   * A finite value is below every value whose infinite parts are +Infinity
   * and above every value whose infinite parts are -Infinity.
   */
  lemma XCompareToInfinity(c: Complex, b: XComplex, tolerance: real)
    requires !XIsNaN(b) && XIsInfinite(b) && !OppositeInfinities(b)
    ensures XIsPositiveInfinity(b) ==> XCompareTo(Lift(c), b, tolerance) == Less && XCompareTo(b, Lift(c), tolerance) == More
    ensures XIsNegativeInfinity(b) ==> XCompareTo(Lift(c), b, tolerance) == More && XCompareTo(b, Lift(c), tolerance) == Less
  {
  }

  /** Two different infinite values are unordered, even +Infinity against -Infinity. */
  lemma XCompareToTwoInfinities(tolerance: real)
    ensures XCompareTo(XComplex(PosInf, Finite(0.0)), XComplex(NegInf, Finite(0.0)), tolerance) == Unordered
    ensures XCompareTo(XComplex(PosInf, Finite(0.0)), XComplex(PosInf, Finite(0.0)), tolerance) == Same
  {
  }

  /** compareTo stays antisymmetric on the extended values (for a non-negative tolerance). */
  lemma XCompareToAntisymmetric(a: XComplex, b: XComplex, tolerance: real)
    requires 0.0 <= tolerance
    ensures XCompareTo(a, b, tolerance) == Less <==> XCompareTo(b, a, tolerance) == More
    ensures XCompareTo(a, b, tolerance) == Same <==> XCompareTo(b, a, tolerance) == Same
    ensures XCompareTo(a, b, tolerance) == Unordered <==> XCompareTo(b, a, tolerance) == Unordered
    ensures !XIsNaN(a) ==> XCompareTo(a, a, tolerance) == Same
  {
    XEqualsSymmetric(a, b, 0.0);
    if XIsFinite(a) && XIsFinite(b) {
      CompareAntisymmetric(Complex(a.re.r, a.im.r), Complex(b.re.r, b.im.r), tolerance);
    }
  }

  // ---------------------------------------------------------------------
  // rem, mod
  // ---------------------------------------------------------------------

  /** `im !== 0`: true for NaN and the infinities as well as for nonzero finite parts. */
  predicate NotZeroPart(x: Num) { !StrictEquals(x, Finite(0.0)) }

  function XRem(a: XComplex, b: XComplex): (r: Result<XComplex>)
    ensures r.Err? <==> NotZeroPart(a.im) || NotZeroPart(b.im)
    ensures r.Ok? && (!XIsFinite(a) || !XIsFinite(b)) ==> r.value == XNAN
  {
    if NotZeroPart(a.im) || NotZeroPart(b.im) then Err(UNDEFINED)
    else if !XIsFinite(a) || !XIsFinite(b) || XIsZero(b, 0.0) then Ok(XNAN)
    else Ok(XComplex(Finite(RemValue(a.re.r, b.re.r)), b.im))
  }

  /** rem on finite values: the finite remainder, with NaN where the finite model reports an error. */
  lemma XRemLift(a: Complex, b: Complex)
    ensures Rem(a, b) == Err(UNDEFINED) <==> XRem(Lift(a), Lift(b)) == Err(UNDEFINED)
    ensures Rem(a, b).Ok? ==> XRem(Lift(a), Lift(b)) == Ok(Lift(Rem(a, b).value))
    ensures Rem(a, b) == Err(NOT_A_NUMBER) ==> XRem(Lift(a), Lift(b)) == Ok(XNAN)
  {
  }

  /** mod as the source writes it, on extended values. */
  function XMod(a: XComplex, b: XComplex): (r: Result<XComplex>)
    ensures r.Err? <==> NotZeroPart(a.im) || NotZeroPart(b.im)
    ensures r.Ok? && XIsZero(b, 0.0) ==> r.value == a
  {
    if NotZeroPart(a.im) || NotZeroPart(b.im) then Err(UNDEFINED)
    else if XIsZero(b, 0.0) then Ok(a)
    else
      var ret := XRem(a, b).value;
      if !XEqualsState(a, b) then Ok(XAdd(ret, b)) else Ok(ret)
  }

  /** A non-finite operand makes mod NaN unless the divisor is zero. */
  lemma XModNonFinite(a: XComplex, b: XComplex)
    requires XMod(a, b).Ok? && !XIsZero(b, 0.0)
    requires !XIsFinite(a) || !XIsFinite(b)
    ensures XMod(a, b) == Ok(XNAN)
  {
  }

  /** On finite values mod is the finite mod as written. */
  lemma XModLift(a: Complex, b: Complex)
    ensures ModAsWritten(a, b) == Err(UNDEFINED) <==> XMod(Lift(a), Lift(b)) == Err(UNDEFINED)
    ensures ModAsWritten(a, b).Ok? ==> XMod(Lift(a), Lift(b)) == Ok(Lift(ModAsWritten(a, b).value))
  {
    if a.im == 0.0 && b.im == 0.0 && !IsZero(b, 0.0) {
      XTestsLift(b, 0.0);
      XRemLift(a, b);
      XStateLift(a);
      XStateLift(b);
      var ret := Rem(a, b).value;
      assert XRem(Lift(a), Lift(b)).value == Lift(ret);
      assert XAdd(Lift(ret), Lift(b)) == Lift(Add(ret, b));
    }
  }

  // ---------------------------------------------------------------------
  // sign
  // ---------------------------------------------------------------------

  /**
   * sign: NaN for NaN or an infinite imaginary part, ±1 for an infinite real
   * part, 0, ±1 or ±i on the axes. Off the axes the source divides by the
   * modulus, a square root, which the model leaves undefined (None).
   */
  function XSign(a: XComplex): (r: Option<XComplex>)
    ensures r.None? <==> XIsFinite(a) && a.re != Finite(0.0) && a.im != Finite(0.0)
  {
    if !XIsFinite(a) then
      if XIsNaN(a) || a.im.PosInf? || a.im.NegInf? then Some(XNAN)
      else if a.re.PosInf? then Some(Lift(ONE))
      else Some(Lift(MINUS_ONE))
    else if a.im == Finite(0.0) then
      if a.re == Finite(0.0) then Some(Lift(ZERO))
      else Some(Lift(Complex(if a.re.r > 0.0 then 1.0 else -1.0, 0.0)))
    else if a.re == Finite(0.0) then
      var c := Complex(0.0, a.im.r);
      Some(Lift(Div(c, Complex(Abs(c.im), 0.0)).value))
    else None
  }

  /**
   * On an axis, sign(c) has modulus 1 (or is 0 for c = 0) and sign(c)·|c| == c.
   */
  lemma XSignAxes(c: Complex)
    requires c.re == 0.0 || c.im == 0.0
    ensures XSign(Lift(c)).Some?
    ensures var s := XSign(Lift(c)).value;
      s.re.Finite? && s.im.Finite? &&
      var z := Complex(s.re.r, s.im.r);
      Mul(z, Complex(Abs(c.re) + Abs(c.im), 0.0)) == c &&
      (c == ZERO <==> z == ZERO) &&
      (c != ZERO ==> NormSq(z) == 1.0)
  {
    if c.im != 0.0 && c.re == 0.0 {
      var n := Complex(Abs(c.im), 0.0);
      DivRoundTrip(c, n);
      var z := Div(c, n).value;
      assert Mul(z, n) == c;
      ImaginarySign(c, z);
    }
  }

  lemma ImaginarySign(c: Complex, z: Complex)
    requires c.re == 0.0 && c.im != 0.0
    requires Mul(z, Complex(Abs(c.im), 0.0)) == c
    ensures z.re == 0.0 && (z.im == 1.0 || z.im == -1.0)
  {
    var n := Abs(c.im);
    assert z.re * n == 0.0;
    assert z.im * n == c.im;
    if c.im > 0.0 {
      CancelFactor(z.im, c.im, 1.0);
    } else {
      CancelFactor(z.im, c.im, -1.0);
    }
  }

  lemma CancelFactor(u: real, v: real, w: real)
    requires v != 0.0 && u * v == w * v
    ensures u == w
  {
    assert (u - w) * v == 0.0;
  }

  /** sign of a non-finite value. */
  lemma XSignNonFinite(a: XComplex)
    requires !XIsFinite(a)
    ensures XSign(a) == Some(XNAN) <==> XIsNaN(a) || a.im.PosInf? || a.im.NegInf?
    ensures a.im.Finite? && a.re.PosInf? ==> XSign(a) == Some(Lift(ONE))
    ensures a.im.Finite? && a.re.NegInf? ==> XSign(a) == Some(Lift(MINUS_ONE))
  {
  }
}
