/**
 * SignalTool: convolution and cross-correlation of complex signals held as
 * two arrays, the real parts and the imaginary parts.
 *
 * The direct paths are modelled loop for loop. The FFT paths, which the
 * source takes for power-of-two lengths, are modelled by the exact value
 * they approximate; the FFT itself works in floating point and is not part
 * of this model.
 */
module SignalTool {
  import opened Wrappers
  import opened RealSums

  /** `new Array(n1 + n2 - 1)` when both signals are empty: an invalid array length. */
  const RANGE_ERROR: string := "RangeError"

  /** A signal as the tool passes it around: real parts and imaginary parts. */
  datatype Signal = Signal(re: seq<real>, im: seq<real>)

  /** Both arrays have one entry per sample. */
  predicate Paired(s: Signal)
  {
    |s.re| == |s.im|
  }

  predicate AllZero(x: seq<real>)
  {
    forall i :: 0 <= i < |x| ==> x[i] == 0.0
  }

  function ZeroSeq(n: nat): (z: seq<real>)
    ensures |z| == n && AllZero(z)
  {
    seq(n, _ => 0.0)
  }

  /**
   * isContainsZero(x): in spite of its name, true exactly when some entry is
   * non-zero. `!isContainsZero(imag)` is how the tool asks "is this signal real?".
   */
  method IsContainsZero(x: seq<real>) returns (b: bool)
    ensures b <==> exists i :: 0 <= i < |x| && x[i] != 0.0
  {
    for i := 0 to |x|
      invariant forall j :: 0 <= j < i ==> x[j] == 0.0
    {
      if x[i] != 0.0 {
        return true;
      }
    }
    return false;
  }

  /** The is_self loop of conv and xcorr: same length and the same parts at every index. */
  method SameSignal(a: Signal, b: Signal) returns (same: bool)
    requires Paired(a) && Paired(b)
    ensures same <==> a == b
  {
    if |a.re| != |b.re| {
      return false;
    }
    var i := 0;
    while i < |a.re|
      invariant 0 <= i <= |a.re|
      invariant forall j :: 0 <= j < i ==> a.re[j] == b.re[j] && a.im[j] == b.im[j]
    {
      if a.re[i] != b.re[i] || a.im[i] != b.im[i] {
        return false;
      }
      i := i + 1;
    }
    assert a.re == b.re && a.im == b.im;
    return true;
  }

  /**
   * is_fast, `(1 << round(log(size) / log(2))) === size`, read over exact
   * numbers: the size is a power of two.
   */
  predicate IsPow2(n: int)
    decreases if n < 0 then 0 else n
  {
    n == 1 || (n >= 2 && n % 2 == 0 && IsPow2(n / 2))
  }

  // ---------------------------------------------------------------------
  // Convolution
  // ---------------------------------------------------------------------

  /** Real part of x1[k - y]·x2[y], the product conv adds into output k; zero outside the signals. */
  function TermRe(a: Signal, b: Signal, k: int, y: int): real
    requires Paired(a) && Paired(b)
  {
    if 0 <= k - y < |a.re| && 0 <= y < |b.re| then a.re[k - y] * b.re[y] - a.im[k - y] * b.im[y] else 0.0
  }

  /** Imaginary part of x1[k - y]·x2[y]; zero outside the signals. */
  function TermIm(a: Signal, b: Signal, k: int, y: int): real
    requires Paired(a) && Paired(b)
  {
    if 0 <= k - y < |a.re| && 0 <= y < |b.re| then a.re[k - y] * b.im[y] + a.im[k - y] * b.re[y] else 0.0
  }

  /** Output k, real part, summed over the first m samples of x2. */
  function SumRe(a: Signal, b: Signal, k: int, m: nat): real
    requires Paired(a) && Paired(b)
  {
    if m == 0 then 0.0 else SumRe(a, b, k, m - 1) + TermRe(a, b, k, m - 1)
  }

  /** Output k, imaginary part, summed over the first m samples of x2. */
  function SumIm(a: Signal, b: Signal, k: int, m: nat): real
    requires Paired(a) && Paired(b)
  {
    if m == 0 then 0.0 else SumIm(a, b, k, m - 1) + TermIm(a, b, k, m - 1)
  }

  /**
   * The convolution of x1 and x2, y[k] = Σ_y x1[k - y]·x2[y]: the product of
   * the two polynomials whose coefficients they are.
   */
  function Convolution(a: Signal, b: Signal): (c: Signal)
    requires Paired(a) && Paired(b) && |a.re| + |b.re| >= 1
    ensures Paired(c) && |c.re| == |a.re| + |b.re| - 1
  {
    var n := |a.re| + |b.re| - 1;
    Signal(seq(n, k => SumRe(a, b, k, |b.re|)), seq(n, k => SumIm(a, b, k, |b.re|)))
  }

  /** The sums as finite sums of their terms. */
  lemma {:induction false} SumTotal(a: Signal, b: Signal, k: int, m: nat)
    requires Paired(a) && Paired(b)
    ensures SumRe(a, b, k, m) == Total(y => TermRe(a, b, k, y), m)
    ensures SumIm(a, b, k, m) == Total(y => TermIm(a, b, k, y), m)
  {
    if m > 0 {
      SumTotal(a, b, k, m - 1);
    }
  }

  /** Convolving two real signals gives a real signal. */
  lemma {:induction false} SumOfReal(a: Signal, b: Signal, k: int, m: nat)
    requires Paired(a) && Paired(b) && AllZero(a.im) && AllZero(b.im)
    ensures SumIm(a, b, k, m) == 0.0
  {
    if m > 0 {
      SumOfReal(a, b, k, m - 1);
    }
  }

  /** A sum whose terms vanish from n on and from k + 1 on is the sum of its first k + 1 terms. */
  lemma UpTo(f: int -> real, n: nat, k: nat, len: nat)
    requires n <= len && k < len
    requires forall y :: n <= y < len ==> f(y) == 0.0
    requires forall y :: k < y < len ==> f(y) == 0.0
    ensures Total(f, n) == Total(f, k + 1)
  {
    TotalTail(f, n, len);
    TotalTail(f, k + 1, len);
  }

  /** Output k sums the products up to y = k only. */
  lemma SumUpTo(a: Signal, b: Signal, k: nat)
    requires Paired(a) && Paired(b)
    ensures SumRe(a, b, k, |b.re|) == Total(y => TermRe(a, b, k, y), k + 1)
    ensures SumIm(a, b, k, |b.re|) == Total(y => TermIm(a, b, k, y), k + 1)
  {
    var len := |a.re| + |b.re| + k + 1;
    SumTotal(a, b, k, |b.re|);
    UpTo(y => TermRe(a, b, k, y), |b.re|, k, len);
    UpTo(y => TermIm(a, b, k, y), |b.re|, k, len);
  }

  /** Read backwards, the products of conv(x2, x1) at output k are those of conv(x1, x2): real parts. */
  lemma ReversedRe(a: Signal, b: Signal, k: nat)
    requires Paired(a) && Paired(b)
    ensures Total(y => TermRe(b, a, k, y), k + 1) == Total(y => TermRe(a, b, k, y), k + 1)
  {
    var g := y => TermRe(b, a, k, y);
    TotalReverse(g, k + 1);
    forall y | 0 <= y < k + 1
      ensures g(k + 1 - 1 - y) == TermRe(a, b, k, y)
    {
      CommuteTerm(a, b, k, y);
    }
    TotalExt(i => g(k + 1 - 1 - i), y => TermRe(a, b, k, y), k + 1);
  }

  /** Read backwards, the products of conv(x2, x1) at output k are those of conv(x1, x2): imaginary parts. */
  lemma ReversedIm(a: Signal, b: Signal, k: nat)
    requires Paired(a) && Paired(b)
    ensures Total(y => TermIm(b, a, k, y), k + 1) == Total(y => TermIm(a, b, k, y), k + 1)
  {
    var g := y => TermIm(b, a, k, y);
    TotalReverse(g, k + 1);
    forall y | 0 <= y < k + 1
      ensures g(k + 1 - 1 - y) == TermIm(a, b, k, y)
    {
      CommuteTerm(a, b, k, y);
    }
    TotalExt(i => g(k + 1 - 1 - i), y => TermIm(a, b, k, y), k + 1);
  }

  /** Output k of conv(x1, x2) and of conv(x2, x1) hold the same products. */
  lemma SumCommutes(a: Signal, b: Signal, k: nat)
    requires Paired(a) && Paired(b)
    ensures SumRe(a, b, k, |b.re|) == SumRe(b, a, k, |a.re|)
    ensures SumIm(a, b, k, |b.re|) == SumIm(b, a, k, |a.re|)
  {
    SumUpTo(a, b, k);
    SumUpTo(b, a, k);
    ReversedRe(a, b, k);
    ReversedIm(a, b, k);
  }

  lemma CommuteTerm(a: Signal, b: Signal, k: int, y: int)
    requires Paired(a) && Paired(b)
    ensures TermRe(b, a, k, k - y) == TermRe(a, b, k, y)
    ensures TermIm(b, a, k, k - y) == TermIm(a, b, k, y)
  {
    if 0 <= k - y < |a.re| && 0 <= y < |b.re| {
      assert b.re[y] * a.re[k - y] == a.re[k - y] * b.re[y];
      assert b.im[y] * a.im[k - y] == a.im[k - y] * b.im[y];
      assert b.re[y] * a.im[k - y] == a.im[k - y] * b.re[y];
      assert b.im[y] * a.re[k - y] == a.re[k - y] * b.im[y];
    }
  }

  /** Convolution, like polynomial multiplication, does not depend on the order of its arguments. */
  lemma ConvolutionCommutes(a: Signal, b: Signal)
    requires Paired(a) && Paired(b) && |a.re| + |b.re| >= 1
    ensures Convolution(a, b) == Convolution(b, a)
  {
    var c := Convolution(a, b);
    var d := Convolution(b, a);
    forall k | 0 <= k < |c.re|
      ensures c.re[k] == d.re[k] && c.im[k] == d.im[k]
    {
      SumCommutes(a, b, k);
    }
  }

  // ---------------------------------------------------------------------
  // The direct path of conv
  // ---------------------------------------------------------------------

  /** One pass of the outer loop of the complex branch: sample y of x2 against every sample of x1. */
  method ComplexRow(a: Signal, b: Signal, y: nat, re: seq<real>, im: seq<real>) returns (re': seq<real>, im': seq<real>)
    requires Paired(a) && Paired(b) && y < |b.re|
    requires |re| == |im| == |a.re| + |b.re| - 1
    requires forall k :: 0 <= k < |re| ==> re[k] == SumRe(a, b, k, y) && im[k] == SumIm(a, b, k, y)
    ensures |re'| == |im'| == |re|
    ensures forall k :: 0 <= k < |re| ==> re'[k] == SumRe(a, b, k, y + 1) && im'[k] == SumIm(a, b, k, y + 1)
  {
    re', im' := re, im;
    var x := 0;
    while x < |a.re|
      invariant 0 <= x <= |a.re| && |re'| == |im'| == |re|
      invariant forall k :: 0 <= k < |re| ==>
        re'[k] == SumRe(a, b, k, y) + (if y <= k < y + x then TermRe(a, b, k, y) else 0.0)
      invariant forall k :: 0 <= k < |re| ==>
        im'[k] == SumIm(a, b, k, y) + (if y <= k < y + x then TermIm(a, b, k, y) else 0.0)
    {
      assert TermRe(a, b, y + x, y) == a.re[x] * b.re[y] - a.im[x] * b.im[y];
      assert TermIm(a, b, y + x, y) == a.re[x] * b.im[y] + a.im[x] * b.re[y];
      re' := re'[y + x := re'[y + x] + (a.re[x] * b.re[y] - a.im[x] * b.im[y])];
      im' := im'[y + x := im'[y + x] + (a.re[x] * b.im[y] + a.im[x] * b.re[y])];
      x := x + 1;
    }
  }

  /** One pass of the outer loop of the real-only branch: only the real parts are accumulated. */
  method RealRow(a: Signal, b: Signal, y: nat, re: seq<real>) returns (re': seq<real>)
    requires Paired(a) && Paired(b) && AllZero(a.im) && AllZero(b.im) && y < |b.re|
    requires |re| == |a.re| + |b.re| - 1
    requires forall k :: 0 <= k < |re| ==> re[k] == SumRe(a, b, k, y)
    ensures |re'| == |re|
    ensures forall k :: 0 <= k < |re| ==> re'[k] == SumRe(a, b, k, y + 1)
  {
    re' := re;
    var x := 0;
    while x < |a.re|
      invariant 0 <= x <= |a.re| && |re'| == |re|
      invariant forall k :: 0 <= k < |re| ==>
        re'[k] == SumRe(a, b, k, y) + (if y <= k < y + x then TermRe(a, b, k, y) else 0.0)
    {
      assert a.im[x] == 0.0;
      re' := re'[y + x := re'[y + x] + a.re[x] * b.re[y]];
      x := x + 1;
    }
  }

  /** The direct path of conv for two signals, at least one of them with an imaginary part. */
  method DirectComplex(a: Signal, b: Signal) returns (c: Signal)
    requires Paired(a) && Paired(b) && |a.re| + |b.re| >= 1
    ensures c == Convolution(a, b)
  {
    var n := |a.re| + |b.re| - 1;
    var re := ZeroSeq(n);
    var im := ZeroSeq(n);
    var y := 0;
    while y < |b.re|
      invariant 0 <= y <= |b.re| && |re| == |im| == n
      invariant forall k :: 0 <= k < n ==> re[k] == SumRe(a, b, k, y) && im[k] == SumIm(a, b, k, y)
    {
      re, im := ComplexRow(a, b, y, re, im);
      y := y + 1;
    }
    c := Signal(re, im);
  }

  /** The direct path of conv for two real signals: the imaginary parts stay at 0. */
  method DirectReal(a: Signal, b: Signal) returns (c: Signal)
    requires Paired(a) && Paired(b) && |a.re| + |b.re| >= 1
    requires AllZero(a.im) && AllZero(b.im)
    ensures c == Convolution(a, b)
  {
    var n := |a.re| + |b.re| - 1;
    var re := ZeroSeq(n);
    var im := ZeroSeq(n);
    var y := 0;
    while y < |b.re|
      invariant 0 <= y <= |b.re| && |re| == n
      invariant forall k :: 0 <= k < n ==> re[k] == SumRe(a, b, k, y)
    {
      re := RealRow(a, b, y, re);
      y := y + 1;
    }
    forall k | 0 <= k < n
      ensures im[k] == SumIm(a, b, k, |b.re|)
    {
      SumOfReal(a, b, k, |b.re|);
    }
    c := Signal(re, im);
  }

  /**
   * conv(x1, x2): the FFT product for power-of-two lengths (the square of
   * one transform when both are the same signal, the product of two when
   * the lengths are equal), otherwise the direct sum, real-only when both
   * imaginary parts are all zero.
   */
  method Conv(a: Signal, b: Signal) returns (r: Result<Signal>)
    requires Paired(a) && Paired(b)
    ensures r == if |a.re| + |b.re| == 0 then Err(RANGE_ERROR) else Ok(Convolution(a, b))
  {
    var isSelf := SameSignal(a, b);
    if IsPow2(|a.re|) {
      if isSelf {
        return Ok(Convolution(a, a));
      } else if |a.re| == |b.re| {
        return Ok(Convolution(a, b));
      }
    }
    var imagA := IsContainsZero(a.im);
    var isReal := !imagA;
    if isReal {
      var imagB := IsContainsZero(b.im);
      isReal := !imagB;
    }
    if |a.re| + |b.re| == 0 {
      return Err(RANGE_ERROR);
    }
    var c;
    if isReal {
      c := DirectReal(a, b);
    } else {
      c := DirectComplex(a, b);
    }
    return Ok(c);
  }

  // ---------------------------------------------------------------------
  // Cross-correlation
  // ---------------------------------------------------------------------

  /** Real part of x1[t + m]·conj(x2[t]), the term of lag m; zero outside the signals. */
  function LagRe(a: Signal, b: Signal, m: int, t: int): real
    requires Paired(a) && Paired(b)
  {
    if 0 <= t + m < |a.re| && 0 <= t < |b.re| then a.re[t + m] * b.re[t] + a.im[t + m] * b.im[t] else 0.0
  }

  /** Imaginary part of x1[t + m]·conj(x2[t]); zero outside the signals. */
  function LagIm(a: Signal, b: Signal, m: int, t: int): real
    requires Paired(a) && Paired(b)
  {
    if 0 <= t + m < |a.re| && 0 <= t < |b.re| then a.im[t + m] * b.re[t] - a.re[t + m] * b.im[t] else 0.0
  }

  function Max(x: nat, y: nat): nat
  {
    if x >= y then x else y
  }

  /**
   * The cross-correlation by its definition: with N the longer length,
   * entry N - 1 + m is Σ_t x1[t + m]·conj(x2[t]), for every lag -N < m < N.
   */
  function Correlation(a: Signal, b: Signal): (c: Signal)
    requires Paired(a) && Paired(b) && |a.re| + |b.re| >= 1
    ensures Paired(c) && |c.re| == 2 * Max(|a.re|, |b.re|) - 1
  {
    var n := Max(|a.re|, |b.re|);
    Signal(seq(2 * n - 1, i => Total(t => LagRe(a, b, i - (n - 1), t), |b.re|)),
           seq(2 * n - 1, i => Total(t => LagIm(a, b, i - (n - 1), t), |b.re|)))
  }

  /** x2 reversed and conjugated: the second operand xcorr hands to conv. */
  function RevConj(b: Signal): (g: Signal)
    requires Paired(b)
    ensures Paired(g) && |g.re| == |b.re|
  {
    var n := |b.re|;
    Signal(seq(n, i requires 0 <= i < n => b.re[n - 1 - i]), seq(n, i requires 0 <= i < n => -b.im[n - 1 - i]))
  }

  /** Reversing and conjugating twice gives the signal back. */
  lemma RevConjTwice(b: Signal)
    requires Paired(b)
    ensures RevConj(RevConj(b)) == b
  {
    var d := RevConj(RevConj(b));
    assert d.re == b.re;
    assert d.im == b.im;
  }

  /** The loop of xcorr that fills g from the end of x2. */
  method ReverseConjugate(b: Signal) returns (g: Signal)
    requires Paired(b)
    ensures g == RevConj(b)
  {
    var n := |b.re|;
    var re := ZeroSeq(n);
    var im := ZeroSeq(n);
    for i := 0 to n
      invariant |re| == |im| == n
      invariant forall j :: 0 <= j < i ==> re[j] == b.re[n - 1 - j] && im[j] == -b.im[n - 1 - j]
    {
      re := re[i := b.re[n - 1 - i]];
      im := im[i := -b.im[n - 1 - i]];
    }
    g := Signal(re, im);
  }

  /** The padding of xcorr's direct path: |n1 - n2| zeros in front when x1 is longer, at the end when it is shorter. */
  function Padded(y: Signal, n1: nat, n2: nat): (p: Signal)
  {
    if n1 == n2 then y
    else if n1 > n2 then Signal(ZeroSeq(n1 - n2) + y.re, ZeroSeq(n1 - n2) + y.im)
    else Signal(y.re + ZeroSeq(n2 - n1), y.im + ZeroSeq(n2 - n1))
  }

  /** Term n2 - 1 - t of output k of conv(x1, reversed conj x2) is term t of lag k - (n2 - 1). */
  lemma LagTerm(a: Signal, b: Signal, k: int, t: int)
    requires Paired(a) && Paired(b) && 0 <= t < |b.re|
    ensures TermRe(a, RevConj(b), k, |b.re| - 1 - t) == LagRe(a, b, k - (|b.re| - 1), t)
    ensures TermIm(a, RevConj(b), k, |b.re| - 1 - t) == LagIm(a, b, k - (|b.re| - 1), t)
  {
    var g := RevConj(b);
    var y := |b.re| - 1 - t;
    var x := k - y;
    assert x == t + (k - (|b.re| - 1));
    assert g.re[y] == b.re[t] && g.im[y] == -b.im[t];
    if 0 <= x < |a.re| {
      assert a.im[x] * -b.im[t] == -(a.im[x] * b.im[t]);
      assert a.re[x] * -b.im[t] == -(a.re[x] * b.im[t]);
    }
  }

  /** Output k of conv(x1, reversed conj x2) is lag k - (n2 - 1) of the correlation: real part. */
  lemma LagEntryRe(a: Signal, b: Signal, k: int)
    requires Paired(a) && Paired(b)
    ensures Total(y => TermRe(a, RevConj(b), k, y), |b.re|) == Total(t => LagRe(a, b, k - (|b.re| - 1), t), |b.re|)
  {
    var n := |b.re|;
    var m := k - (n - 1);
    var f := y => TermRe(a, RevConj(b), k, y);
    forall t | 0 <= t < n
      ensures f(n - 1 - t) == LagRe(a, b, m, t)
    {
      LagTerm(a, b, k, t);
    }
    TotalMirror(f, t => LagRe(a, b, m, t), n);
  }

  /** Output k of conv(x1, reversed conj x2) is lag k - (n2 - 1) of the correlation: imaginary part. */
  lemma LagEntryIm(a: Signal, b: Signal, k: int)
    requires Paired(a) && Paired(b)
    ensures Total(y => TermIm(a, RevConj(b), k, y), |b.re|) == Total(t => LagIm(a, b, k - (|b.re| - 1), t), |b.re|)
  {
    var n := |b.re|;
    var m := k - (n - 1);
    var f := y => TermIm(a, RevConj(b), k, y);
    forall t | 0 <= t < n
      ensures f(n - 1 - t) == LagIm(a, b, m, t)
    {
      LagTerm(a, b, k, t);
    }
    TotalMirror(f, t => LagIm(a, b, m, t), n);
  }

  /** Output k of conv(x1, reversed conj x2) is lag k - (n2 - 1) of the correlation. */
  lemma LagEntry(a: Signal, b: Signal, k: int)
    requires Paired(a) && Paired(b)
    ensures SumRe(a, RevConj(b), k, |b.re|) == Total(t => LagRe(a, b, k - (|b.re| - 1), t), |b.re|)
    ensures SumIm(a, RevConj(b), k, |b.re|) == Total(t => LagIm(a, b, k - (|b.re| - 1), t), |b.re|)
  {
    SumTotal(a, RevConj(b), k, |b.re|);
    LagEntryRe(a, b, k);
    LagEntryIm(a, b, k);
  }

  /** Lags at which the two signals do not overlap contribute nothing. */
  lemma LagOutside(a: Signal, b: Signal, m: int)
    requires Paired(a) && Paired(b)
    requires m <= -|b.re| || m >= |a.re|
    ensures Total(t => LagRe(a, b, m, t), |b.re|) == 0.0
    ensures Total(t => LagIm(a, b, m, t), |b.re|) == 0.0
  {
    TotalZero(t => LagRe(a, b, m, t), |b.re|);
    TotalZero(t => LagIm(a, b, m, t), |b.re|);
  }

  /**
   * xcorr's direct path is the correlation: convolving x1 with x2 reversed
   * and conjugated, then padding to length 2·max(n1, n2) - 1, gives every
   * lag in its place.
   */
  lemma PaddedCorrelation(a: Signal, b: Signal)
    requires Paired(a) && Paired(b) && |a.re| + |b.re| >= 1
    ensures Padded(Convolution(a, RevConj(b)), |a.re|, |b.re|) == Correlation(a, b)
  {
    var n1, n2 := |a.re|, |b.re|;
    var c := Convolution(a, RevConj(b));
    var p := Padded(c, n1, n2);
    var q := Correlation(a, b);
    var n := Max(n1, n2);
    var d := if n1 > n2 then n1 - n2 else 0;
    assert |p.re| == |q.re| && |p.im| == |q.im|;
    forall i | 0 <= i < |q.re|
      ensures p.re[i] == q.re[i] && p.im[i] == q.im[i]
    {
      var k := i - d;
      assert i - (n - 1) == k - (n2 - 1);
      if 0 <= k < |c.re| {
        assert p.re[i] == c.re[k] && p.im[i] == c.im[k];
        LagEntry(a, b, k);
      } else {
        assert p.re[i] == 0.0 && p.im[i] == 0.0;
        LagOutside(a, b, k - (n2 - 1));
      }
    }
  }

  // ---------------------------------------------------------------------
  // The real self-correlation of xcorr
  // ---------------------------------------------------------------------

  /** x[t]·x[t + m], zero outside the signal. */
  function FoldTerm(x: seq<real>, m: int, t: int): real
  {
    if 0 <= t && 0 <= t + m < |x| && t < |x| then x[t] * x[t + m] else 0.0
  }

  /** Σ_{t < j} x[t]·x[t + m], the partial sum fg[m] of the real self-correlation. */
  function FoldSum(x: seq<real>, m: nat, j: nat): real
  {
    if j == 0 then 0.0 else FoldSum(x, m, j - 1) + FoldTerm(x, m, j - 1)
  }

  /** fg[m] = Σ_{t < n - m} x[t]·x[t + m]: lag m of the real self-correlation. */
  function Fg(x: seq<real>, m: nat): real
    requires m <= |x|
  {
    FoldSum(x, m, |x| - m)
  }

  /** The loop filling fg[m] = Σ_{t < n - m} x[t]·x[t + m]. */
  method FoldLags(x: seq<real>) returns (fg: seq<real>)
    ensures |fg| == |x|
    ensures forall m :: 0 <= m < |x| ==> fg[m] == FoldSum(x, m, |x| - m)
  {
    var n := |x|;
    fg := ZeroSeq(n);
    for m := 0 to n
      invariant |fg| == n
      invariant forall j :: 0 <= j < m ==> fg[j] == FoldSum(x, j, n - j)
    {
      var acc := 0.0;
      for t := 0 to n - m
        invariant acc == FoldSum(x, m, t)
      {
        acc := acc + x[t] * x[t + m];
      }
      fg := fg[m := acc];
    }
  }

  /**
   * The fold of xcorr's real self-correlation: real[i] = fg[n - 1 - i] for
   * the first n entries and real[n - 1 + i] = fg[i] for the last n.
   */
  method Unfold(fg: seq<real>) returns (re: seq<real>)
    requires |fg| >= 1
    ensures |re| == 2 * |fg| - 1
    ensures forall m :: 0 <= m < |fg| ==> re[|fg| - 1 - m] == fg[m] && re[|fg| - 1 + m] == fg[m]
  {
    var n := |fg|;
    re := ZeroSeq(2 * n - 1);
    var i, j := 0, n - 1;
    while i < n
      invariant 0 <= i <= n && j == n - 1 - i && |re| == 2 * n - 1
      invariant forall p :: 0 <= p < i ==> re[p] == fg[n - 1 - p] && re[n - 1 + p] == fg[p]
    {
      re := re[i := fg[j]];
      re := re[n + i - 1 := fg[i]];
      i, j := i + 1, j - 1;
    }
    forall m | 0 <= m < n
      ensures re[n - 1 - m] == fg[m]
    {
      assert re[n - 1 - m] == fg[n - 1 - (n - 1 - m)];
    }
  }

  lemma {:induction false} FoldTotal(x: seq<real>, m: nat, j: nat)
    ensures FoldSum(x, m, j) == Total(t => FoldTerm(x, m, t), j)
  {
    if j > 0 {
      FoldTotal(x, m, j - 1);
    }
  }

  /** For a real signal the lag term is the product of two real parts. */
  lemma RealLag(x: Signal, m: int, t: int)
    requires Paired(x) && AllZero(x.im)
    ensures 0 <= m ==> LagRe(x, x, m, t) == FoldTerm(x.re, m, t)
    ensures m < 0 ==> LagRe(x, x, m, t) == FoldTerm(x.re, -m, t + m)
  {
    if 0 <= t + m < |x.re| && 0 <= t < |x.re| {
      var p, q := x.im[t + m], x.im[t];
      assert p == 0.0 && q == 0.0;
      assert p * q == 0.0;
      assert x.re[t + m] * x.re[t] == x.re[t] * x.re[t + m];
    }
  }

  /** For a real signal, lag m of its correlation with itself is fg[m]. */
  lemma FoldIsLag(x: Signal, m: nat)
    requires Paired(x) && AllZero(x.im) && m < |x.re|
    ensures Total(t => LagRe(x, x, m, t), |x.re|) == FoldSum(x.re, m, |x.re| - m)
    ensures Total(t => LagIm(x, x, m, t), |x.re|) == 0.0
  {
    var n := |x.re|;
    var pos := t => LagRe(x, x, m, t);
    TotalTail(pos, n - m, n);
    FoldTotal(x.re, m, n - m);
    forall t | 0 <= t < n - m
      ensures pos(t) == FoldTerm(x.re, m, t)
    {
      RealLag(x, m, t);
    }
    TotalExt(pos, t => FoldTerm(x.re, m, t), n - m);
    TotalZero(t => LagIm(x, x, m, t), n);
  }

  /** For a real signal, lag -m of its correlation with itself is fg[m] as well. */
  lemma FoldIsNegativeLag(x: Signal, m: nat)
    requires Paired(x) && AllZero(x.im) && m < |x.re|
    ensures Total(t => LagRe(x, x, -(m as int), t), |x.re|) == FoldSum(x.re, m, |x.re| - m)
    ensures Total(t => LagIm(x, x, -(m as int), t), |x.re|) == 0.0
  {
    var n := |x.re|;
    var neg := t => LagRe(x, x, -(m as int), t);
    forall t | 0 <= t < n - m
      ensures neg(t + m) == FoldTerm(x.re, m, t)
    {
      RealLag(x, -(m as int), t + m);
    }
    TotalShiftExt(neg, t => FoldTerm(x.re, m, t), m, n);
    FoldTotal(x.re, m, n - m);
    RealLagIm(x, -(m as int));
  }

  /** Every lag of a real signal's correlation with itself has imaginary part 0. */
  lemma RealLagIm(x: Signal, k: int)
    requires Paired(x) && AllZero(x.im)
    ensures Total(t => LagIm(x, x, k, t), |x.re|) == 0.0
  {
    TotalZero(t => LagIm(x, x, k, t), |x.re|);
  }

  /** Entries n - 1 - m and n - 1 + m of a real self-correlation. */
  lemma AutoLag(x: Signal, m: nat)
    requires Paired(x) && AllZero(x.im) && m < |x.re|
    ensures Correlation(x, x).re[|x.re| - 1 - m] == Fg(x.re, m)
    ensures Correlation(x, x).re[|x.re| - 1 + m] == Fg(x.re, m)
    ensures Correlation(x, x).im[|x.re| - 1 - m] == 0.0 && Correlation(x, x).im[|x.re| - 1 + m] == 0.0
  {
    var n := |x.re|;
    assert Max(n, n) == n;
    FoldIsLag(x, m);
    FoldIsNegativeLag(x, m);
    assert (n - 1 - m) - (n - 1) == -(m as int);
  }

  /**
   * Real self-correlation is symmetric: lag -m equals lag m, which is
   * Σ_t x[t]·x[t + m]; every imaginary part is 0.
   */
  lemma RealAutocorrelation(x: Signal)
    requires Paired(x) && AllZero(x.im) && |x.re| >= 1
    ensures |Correlation(x, x).re| == 2 * |x.re| - 1
    ensures forall m :: 0 <= m < |x.re| ==>
      Correlation(x, x).re[|x.re| - 1 - m] == Fg(x.re, m) && Correlation(x, x).re[|x.re| - 1 + m] == Fg(x.re, m)
    ensures AllZero(Correlation(x, x).im)
  {
    var n := |x.re|;
    var c := Correlation(x, x);
    forall m | 0 <= m < |x.re|
      ensures Correlation(x, x).re[|x.re| - 1 - m] == Fg(x.re, m) && Correlation(x, x).re[|x.re| - 1 + m] == Fg(x.re, m)
    {
      AutoLag(x, m);
    }
    forall i | 0 <= i < |c.im|
      ensures c.im[i] == 0.0
    {
      if i < n {
        AutoLag(x, n - 1 - i);
      } else {
        AutoLag(x, i - (n - 1));
      }
    }
  }

  /** The centre of a real self-correlation is the signal's energy Σ x². */
  lemma CentreIsEnergy(x: Signal)
    requires Paired(x) && AllZero(x.im) && |x.re| >= 1
    ensures Correlation(x, x).re[|x.re| - 1] == Total(t => if 0 <= t < |x.re| then x.re[t] * x.re[t] else 0.0, |x.re|)
  {
    AutoLag(x, 0);
    FoldTotal(x.re, 0, |x.re|);
    TotalExt(t => FoldTerm(x.re, 0, t), t => if 0 <= t < |x.re| then x.re[t] * x.re[t] else 0.0, |x.re|);
  }

  /** xcorr's real self-correlation: fg by the double loop, then unfolded around the centre. */
  method SelfCorrelation(x: Signal) returns (c: Signal)
    requires Paired(x) && AllZero(x.im) && |x.re| >= 1
    ensures c == Correlation(x, x)
  {
    var n := |x.re|;
    var fg := FoldLags(x.re);
    var re := Unfold(fg);
    c := Signal(re, ZeroSeq(2 * n - 1));
    var q := Correlation(x, x);
    forall i | 0 <= i < 2 * n - 1
      ensures c.re[i] == q.re[i] && c.im[i] == q.im[i]
    {
      if i < n {
        var m := n - 1 - i;
        AutoLag(x, m);
        assert i == n - 1 - m;
        assert c.re[n - 1 - m] == fg[m];
      } else {
        var m := i - (n - 1);
        AutoLag(x, m);
        assert i == n - 1 + m;
        assert c.re[n - 1 + m] == fg[m];
      }
    }
  }

  /**
   * xcorr(x1, x2): the FFT paths for equal power-of-two lengths; the fold
   * for a real signal with itself; otherwise conv(x1, reversed conj x2)
   * padded with |n1 - n2| zeros.
   */
  method Xcorr(a: Signal, b: Signal) returns (r: Result<Signal>)
    requires Paired(a) && Paired(b)
    ensures r == if |a.re| + |b.re| == 0 then Err(RANGE_ERROR) else Ok(Correlation(a, b))
  {
    var isSelf := SameSignal(a, b);
    if |a.re| == |b.re| && IsPow2(|a.re|) {
      return Ok(Correlation(a, b));
    }
    var imagA := IsContainsZero(a.im);
    var isReal := !imagA;
    if isReal {
      var imagB := IsContainsZero(b.im);
      isReal := !imagB;
    }
    if isSelf && isReal {
      if |a.re| == 0 {
        return Err(RANGE_ERROR);
      }
      var c := SelfCorrelation(a);
      return Ok(c);
    }
    var g := ReverseConjugate(b);
    var y := Conv(a, g);
    if y.Err? {
      return y;
    }
    PaddedCorrelation(a, b);
    if |a.re| == |b.re| {
      return y;
    }
    var zeros := ZeroSeq(if |a.re| > |b.re| then |a.re| - |b.re| else |b.re| - |a.re|);
    if |a.re| > |b.re| {
      return Ok(Signal(zeros + y.value.re, zeros + y.value.im));
    } else {
      return Ok(Signal(y.value.re + zeros, y.value.im + zeros));
    }
  }
}
