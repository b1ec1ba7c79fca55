/**
 * ECMAScript numbers as the library sees them: a finite value (modelled by an
 * exact `real`), the two infinities and NaN, together with the integer
 * conversions that the bitwise operators apply (section 7.1.6 and 7.1.7 of
 * ECMA-262).
 */
module JsNumber {
  datatype Num = Finite(r: real) | PosInf | NegInf | NaN

  const TWO16: int := 0x1_0000
  const TWO31: int := 0x8000_0000
  const TWO32: int := 0x1_0000_0000

  /** Number.EPSILON, 2^-52. */
  const EPSILON: real := 1.0 / 4503599627370496.0

  /** Number.MAX_SAFE_INTEGER, 2^53 - 1. */
  const MAX_SAFE_INTEGER: int := 9007199254740991

  predicate IsFinite(x: Num) { x.Finite? }

  /** `x === y` on numbers: NaN is unequal to everything, itself included. */
  predicate StrictEquals(x: Num, y: Num) { !x.NaN? && !y.NaN? && x == y }

  /** ToUint32 of an integer: the representative of n modulo 2^32 in [0, 2^32). */
  function ToUint32(n: int): (u: int)
    ensures 0 <= u < TWO32
    ensures (n - u) % TWO32 == 0
  {
    n % TWO32
  }

  /** ToInt32 of an integer: the representative of n modulo 2^32 in [-2^31, 2^31). */
  function ToInt32(n: int): (v: int)
    ensures -TWO31 <= v < TWO31
    ensures (n - v) % TWO32 == 0
  {
    var u := ToUint32(n);
    if u >= TWO31 then u - TWO32 else u
  }

  /** Only one value in a window of width 2^32 is congruent to a given integer. */
  lemma UniqueInWindow(a: int, b: int, lo: int)
    requires lo <= a < lo + TWO32 && lo <= b < lo + TWO32
    requires (a - b) % TWO32 == 0
    ensures a == b
  {
    var q := (a - b) / TWO32;
    assert a - b == q * TWO32;
  }

  /** Congruent integers have the same ToInt32 and the same ToUint32. */
  lemma Congruent(a: int, b: int)
    requires (a - b) % TWO32 == 0
    ensures ToInt32(a) == ToInt32(b)
    ensures ToUint32(a) == ToUint32(b)
  {
    var qa := (a - ToUint32(a)) / TWO32;
    var qb := (b - ToUint32(b)) / TWO32;
    var q := (a - b) / TWO32;
    assert a - ToUint32(a) == qa * TWO32;
    assert b - ToUint32(b) == qb * TWO32;
    assert a - b == q * TWO32;
    assert ToUint32(a) - ToUint32(b) == (q + qb - qa) * TWO32;
    assert (ToUint32(a) - ToUint32(b)) % TWO32 == 0;
    UniqueInWindow(ToUint32(a), ToUint32(b), 0);
  }

  /** ToInt32 leaves a signed 32-bit integer as it is. */
  lemma Int32Fixed(v: int)
    requires -TWO31 <= v < TWO31
    ensures ToInt32(v) == v
  {
    if v < 0 {
      assert ToUint32(v) == v + TWO32;
    }
  }
}
