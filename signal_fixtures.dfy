module SignalFixtures {
  import opened SignalTool

  /** test/Signal.js: conv([1 2 3 4], [5 4 3 2 1]) = [5 14 26 40 30 20 11 4]. */
  lemma ConvFixture()
    ensures Convolution(Signal([1.0, 2.0, 3.0, 4.0], [0.0, 0.0, 0.0, 0.0]),
                        Signal([5.0, 4.0, 3.0, 2.0, 1.0], [0.0, 0.0, 0.0, 0.0, 0.0]))
      == Signal([5.0, 14.0, 26.0, 40.0, 30.0, 20.0, 11.0, 4.0], [0.0, 0.0, 0.0, 0.0, 0.0, 0.0, 0.0, 0.0])
  {
    var a := Signal([1.0, 2.0, 3.0, 4.0], [0.0, 0.0, 0.0, 0.0]);
    var b := Signal([5.0, 4.0, 3.0, 2.0, 1.0], [0.0, 0.0, 0.0, 0.0, 0.0]);
    var c := Convolution(a, b);
    assert SumRe(a, b, 0, 1) == 5.0;
    assert SumRe(a, b, 0, 2) == 5.0;
    assert SumRe(a, b, 0, 3) == 5.0;
    assert SumRe(a, b, 0, 4) == 5.0;
    assert SumRe(a, b, 0, 5) == 5.0;
    assert SumRe(a, b, 1, 1) == 10.0;
    assert SumRe(a, b, 1, 2) == 14.0;
    assert SumRe(a, b, 1, 3) == 14.0;
    assert SumRe(a, b, 1, 4) == 14.0;
    assert SumRe(a, b, 1, 5) == 14.0;
    assert SumRe(a, b, 2, 1) == 15.0;
    assert SumRe(a, b, 2, 2) == 23.0;
    assert SumRe(a, b, 2, 3) == 26.0;
    assert SumRe(a, b, 2, 4) == 26.0;
    assert SumRe(a, b, 2, 5) == 26.0;
    assert SumRe(a, b, 3, 1) == 20.0;
    assert SumRe(a, b, 3, 2) == 32.0;
    assert SumRe(a, b, 3, 3) == 38.0;
    assert SumRe(a, b, 3, 4) == 40.0;
    assert SumRe(a, b, 3, 5) == 40.0;
    assert SumRe(a, b, 4, 1) == 0.0;
    assert SumRe(a, b, 4, 2) == 16.0;
    assert SumRe(a, b, 4, 3) == 25.0;
    assert SumRe(a, b, 4, 4) == 29.0;
    assert SumRe(a, b, 4, 5) == 30.0;
    assert SumRe(a, b, 5, 1) == 0.0;
    assert SumRe(a, b, 5, 2) == 0.0;
    assert SumRe(a, b, 5, 3) == 12.0;
    assert SumRe(a, b, 5, 4) == 18.0;
    assert SumRe(a, b, 5, 5) == 20.0;
    assert SumRe(a, b, 6, 1) == 0.0;
    assert SumRe(a, b, 6, 2) == 0.0;
    assert SumRe(a, b, 6, 3) == 0.0;
    assert SumRe(a, b, 6, 4) == 8.0;
    assert SumRe(a, b, 6, 5) == 11.0;
    assert SumRe(a, b, 7, 1) == 0.0;
    assert SumRe(a, b, 7, 2) == 0.0;
    assert SumRe(a, b, 7, 3) == 0.0;
    assert SumRe(a, b, 7, 4) == 0.0;
    assert SumRe(a, b, 7, 5) == 4.0;
    forall k | 0 <= k < 8
      ensures c.im[k] == 0.0
    {
      SumOfReal(a, b, k, 5);
    }
  }

  /** test/Signal.js: xcorr([1 2 3 4], [5 4 3 2 1]) = [1 4 10 20 30 34 31 20 0], the shorter x1 padded at the end. */
  lemma XcorrFixture()
    ensures Correlation(Signal([1.0, 2.0, 3.0, 4.0], [0.0, 0.0, 0.0, 0.0]),
                        Signal([5.0, 4.0, 3.0, 2.0, 1.0], [0.0, 0.0, 0.0, 0.0, 0.0])).re
      == [1.0, 4.0, 10.0, 20.0, 30.0, 34.0, 31.0, 20.0, 0.0]
  {
    var a := Signal([1.0, 2.0, 3.0, 4.0], [0.0, 0.0, 0.0, 0.0]);
    var b := Signal([5.0, 4.0, 3.0, 2.0, 1.0], [0.0, 0.0, 0.0, 0.0, 0.0]);
    var g := Signal([1.0, 2.0, 3.0, 4.0, 5.0], [0.0, 0.0, 0.0, 0.0, 0.0]);
    assert RevConj(b).re == g.re;
    assert RevConj(b).im == g.im;
    PaddedCorrelation(a, b);
    assert SumRe(a, g, 0, 1) == 1.0;
    assert SumRe(a, g, 0, 2) == 1.0;
    assert SumRe(a, g, 0, 3) == 1.0;
    assert SumRe(a, g, 0, 4) == 1.0;
    assert SumRe(a, g, 0, 5) == 1.0;
    assert SumRe(a, g, 1, 1) == 2.0;
    assert SumRe(a, g, 1, 2) == 4.0;
    assert SumRe(a, g, 1, 3) == 4.0;
    assert SumRe(a, g, 1, 4) == 4.0;
    assert SumRe(a, g, 1, 5) == 4.0;
    assert SumRe(a, g, 2, 1) == 3.0;
    assert SumRe(a, g, 2, 2) == 7.0;
    assert SumRe(a, g, 2, 3) == 10.0;
    assert SumRe(a, g, 2, 4) == 10.0;
    assert SumRe(a, g, 2, 5) == 10.0;
    assert SumRe(a, g, 3, 1) == 4.0;
    assert SumRe(a, g, 3, 2) == 10.0;
    assert SumRe(a, g, 3, 3) == 16.0;
    assert SumRe(a, g, 3, 4) == 20.0;
    assert SumRe(a, g, 3, 5) == 20.0;
    assert SumRe(a, g, 4, 1) == 0.0;
    assert SumRe(a, g, 4, 2) == 8.0;
    assert SumRe(a, g, 4, 3) == 17.0;
    assert SumRe(a, g, 4, 4) == 25.0;
    assert SumRe(a, g, 4, 5) == 30.0;
    assert SumRe(a, g, 5, 1) == 0.0;
    assert SumRe(a, g, 5, 2) == 0.0;
    assert SumRe(a, g, 5, 3) == 12.0;
    assert SumRe(a, g, 5, 4) == 24.0;
    assert SumRe(a, g, 5, 5) == 34.0;
    assert SumRe(a, g, 6, 1) == 0.0;
    assert SumRe(a, g, 6, 2) == 0.0;
    assert SumRe(a, g, 6, 3) == 0.0;
    assert SumRe(a, g, 6, 4) == 16.0;
    assert SumRe(a, g, 6, 5) == 31.0;
    assert SumRe(a, g, 7, 1) == 0.0;
    assert SumRe(a, g, 7, 2) == 0.0;
    assert SumRe(a, g, 7, 3) == 0.0;
    assert SumRe(a, g, 7, 4) == 0.0;
    assert SumRe(a, g, 7, 5) == 20.0;
  }
}
