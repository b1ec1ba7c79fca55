/**
 * The self-correlation FFT path of SignalTool.xcorr, as written, for a
 * one-sample signal. The input is padded to two samples, its power spectrum
 * is taken, and the inverse transform is applied to the power spectrum as
 * the real parts together with the padded input's imaginary parts as the
 * imaginary parts. A power spectrum has no imaginary part, so the inverse
 * transform should get zeros there.
 *
 * A two-point transform needs no floating point: the only twiddle factor is
 * cos 0 + i sin 0 = 1, so fft and ifft are one butterfly each, and ifft
 * scales by 1/2.
 */
module XcorrFindings {
  import opened RealSums
  import opened SignalTool

  /** The single butterfly of a two-point transform: (a0 + a1, a0 − a1). */
  function Butterfly(s: Signal): (t: Signal)
    requires Paired(s) && |s.re| == 2
    ensures Paired(t) && |t.re| == 2
    ensures t.re[0] + t.re[1] == 2.0 * s.re[0] && t.im[0] + t.im[1] == 2.0 * s.im[0]
  {
    Signal([s.re[0] + s.re[1], s.re[0] - s.re[1]], [s.im[0] + s.im[1], s.im[0] - s.im[1]])
  }

  /** ifft of two points: the butterfly, every entry multiplied by inv_size = 1/2. */
  function Ifft2(s: Signal): (t: Signal)
    requires Paired(s) && |s.re| == 2
    ensures Paired(t) && |t.re| == 2
    ensures Butterfly(t) == s
  {
    var b := Butterfly(s);
    Signal([b.re[0] / 2.0, b.re[1] / 2.0], [b.im[0] / 2.0, b.im[1] / 2.0])
  }

  /** powerfft of two points: the squared modulus of each entry of fft. */
  function PowerFft2(s: Signal): (p: seq<real>)
    requires Paired(s) && |s.re| == 2
    ensures |p| == 2 && forall i :: 0 <= i < 2 ==> p[i] >= 0.0
  {
    var f := Butterfly(s);
    [f.re[0] * f.re[0] + f.im[0] * f.im[0], f.re[1] * f.re[1] + f.im[1] * f.im[1]]
  }

  /**
   * The self path of xcorr on one sample with `imag` handed to ifft beside
   * the power spectrum. After `pop()` one entry is left, and the shift loop
   * reads it from index size + 1 = 2, which wraps to 0.
   */
  function SelfFft(a: Signal, imag: seq<real>): (c: Signal)
    requires Paired(a) && |a.re| == 1 && |imag| == 2
    ensures Paired(c) && |c.re| == 1
  {
    var padded := Signal([a.re[0], 0.0], [a.im[0], 0.0]);
    var fg := Ifft2(Signal(PowerFft2(padded), imag));
    Signal([fg.re[0]], [fg.im[0]])
  }

  /** As written: ifft gets the padded input's imaginary parts. */
  function SelfFftAsWritten(a: Signal): (c: Signal)
    requires Paired(a) && |a.re| == 1
    ensures Paired(c) && |c.re| == 1
    ensures c.re[0] == a.re[0] * a.re[0] + a.im[0] * a.im[0] && c.im[0] == a.im[0] / 2.0
  {
    SelfFft(a, [a.im[0], 0.0])
  }

  /** Corrected: ifft gets zeros for the imaginary parts of the power spectrum. */
  function SelfFftCorrected(a: Signal): (c: Signal)
    requires Paired(a) && |a.re| == 1
    ensures Paired(c) && |c.re| == 1
    ensures c.re[0] == a.re[0] * a.re[0] + a.im[0] * a.im[0] && c.im[0] == 0.0
  {
    SelfFft(a, [0.0, 0.0])
  }

  /** The correlation of one sample with itself at lag 0: |x|², with no imaginary part. */
  lemma CorrelationOfOne(a: Signal)
    requires Paired(a) && |a.re| == 1
    ensures Correlation(a, a) == Signal([a.re[0] * a.re[0] + a.im[0] * a.im[0]], [0.0])
  {
    var c := Correlation(a, a);
    var fr := t => LagRe(a, a, 0 - (1 - 1), t);
    var fi := t => LagIm(a, a, 0 - (1 - 1), t);
    assert c.re[0] == Total(fr, 1) == fr(0);
    assert c.im[0] == Total(fi, 1) == fi(0);
    assert fr(0) == a.re[0] * a.re[0] + a.im[0] * a.im[0];
    assert fi(0) == a.im[0] * a.re[0] - a.re[0] * a.im[0] == 0.0;
    assert |c.re| == 1 by {
      assert Max(|a.re|, |a.re|) == 1;
    }
    assert c.re == [c.re[0]] && c.im == [c.im[0]];
  }

  /** The corrected path is the correlation for every one-sample signal. */
  lemma SelfFftCorrectedIsCorrelation(a: Signal)
    requires Paired(a) && |a.re| == 1
    ensures SelfFftCorrected(a) == Correlation(a, a)
  {
    CorrelationOfOne(a);
    var c := SelfFftCorrected(a);
    var x := a.re[0] * a.re[0] + a.im[0] * a.im[0];
    assert c.re[0] == x && c.im[0] == 0.0;
    assert c.re == [x];
    assert c.im == [0.0];
    assert c == Signal([x], [0.0]);
  }

  /** As written, the path agrees with the correlation exactly when the sample is real. */
  lemma SelfFftAsWrittenAgrees(a: Signal)
    requires Paired(a) && |a.re| == 1
    ensures SelfFftAsWritten(a) == Correlation(a, a) <==> a.im[0] == 0.0
  {
    CorrelationOfOne(a);
    var c := SelfFftAsWritten(a);
    var x := a.re[0] * a.re[0] + a.im[0] * a.im[0];
    assert c.re[0] == x && c.im[0] == a.im[0] / 2.0;
    assert c.re == [x];
    assert c.im == [a.im[0] / 2.0];
    assert c == Signal([x], [a.im[0] / 2.0]);
  }

  /** xcorr([i]) as written is [1 + 0.5i]; the correlation is [1]. */
  lemma SelfFftImaginaryUnit()
    ensures SelfFftAsWritten(Signal([0.0], [1.0])) == Signal([1.0], [0.5])
    ensures Correlation(Signal([0.0], [1.0]), Signal([0.0], [1.0])) == Signal([1.0], [0.0])
  {
    CorrelationOfOne(Signal([0.0], [1.0]));
  }
}
