/**
 * Fixtures of test/Statistics.js for median and variance, worked through
 * the model: the insertion sort step by step for the median, the running
 * sums for the mean and the squared deviation for the variance.
 */
module StatisticsFixtures {
  import opened Wrappers
  import opened ComplexNum
  import opened Grid
  import opened Statistics
  import Vectors

  function R(x: real): Complex { Complex(x, 0.0) }

  /** [6 6 1 2] sorted ascending is [1 2 6 6]; the two sixes compare equal and stay in order. */
  lemma SortFixture()
    ensures SortVector([R(6.0), R(6.0), R(1.0), R(2.0)], Ascend) == [R(1.0), R(2.0), R(6.0), R(6.0)]
  {
    assert SortVector([R(2.0)], Ascend) == [R(2.0)];
    assert Cmp(R(1.0), R(2.0)) == ComplexOrder.Less;
    assert SortVector([R(1.0), R(2.0)], Ascend) == [R(1.0), R(2.0)];
    assert Cmp(R(6.0), R(1.0)) == ComplexOrder.More;
    assert Cmp(R(6.0), R(2.0)) == ComplexOrder.More;
    assert Insert(R(6.0), [R(2.0)], Ascend) == [R(2.0), R(6.0)];
    assert SortVector([R(6.0), R(1.0), R(2.0)], Ascend) == [R(1.0), R(2.0), R(6.0)];
    assert Cmp(R(6.0), R(6.0)) == ComplexOrder.Same;
    assert Insert(R(6.0), [R(6.0)], Ascend) == [R(6.0), R(6.0)];
    assert Insert(R(6.0), [R(2.0), R(6.0)], Ascend) == [R(2.0), R(6.0), R(6.0)];
  }

  /** The median of [6 6 1 2] is the mean of the middle elements 2 and 6 of the sort. */
  lemma MedianOfFixture(data: seq<Complex>)
    requires data == [R(6.0), R(6.0), R(1.0), R(2.0)]
    ensures MedianOf(data) == R(4.0)
  {
    SortFixture();
    var s := SortVector(data, Ascend);
    assert s[1] == R(2.0) && s[2] == R(6.0);
    assert Div(Add(R(2.0), R(6.0)), TWO) == Some(R(4.0));
  }

  /** test/Statistics.js: median([6 6 1 2]) is 4. */
  lemma MedianFixture(m: Grid)
    requires m == [[R(6.0), R(6.0), R(1.0), R(2.0)]]
    ensures Median(m, None) == Ok([[R(4.0)]])
  {
    MedianOfFixture(m[0]);
    assert MedianVector(m[0]) == [R(4.0)];
  }

  /** The sum of four elements, term by term. */
  lemma SumOfFour(data: seq<Complex>)
    requires |data| == 4
    ensures SumOf(data, 4) == Add(Add(Add(data[0], data[1]), data[2]), data[3])
  {
    assert SumOf(data, 1) == data[0] by {
      assert SumOf(data, 1) == Add(ZERO, data[0]);
    }
    assert SumOf(data, 2) == Add(SumOf(data, 1), data[1]);
    assert SumOf(data, 3) == Add(SumOf(data, 2), data[2]);
  }

  /** The sum of [3 29 12 32] is 76, so its mean is 19. */
  lemma MeanFixture(data: seq<Complex>)
    requires data == [R(3.0), R(29.0), R(12.0), R(32.0)]
    ensures MeanOf(data) == R(19.0)
  {
    SumOfFour(data);
    assert SumOf(data, 4) == R(76.0);
    assert Div(R(76.0), Count(4)) == Some(R(19.0));
  }

  /** The squared deviation of four elements, term by term. */
  lemma DeviationOfFour(data: seq<Complex>, mean: Complex)
    requires |data| == 4
    ensures Deviation(data, mean, 4) == NormSq(Sub(data[0], mean)) + NormSq(Sub(data[1], mean))
      + NormSq(Sub(data[2], mean)) + NormSq(Sub(data[3], mean))
  {
    assert Deviation(data, mean, 1) == NormSq(Sub(data[0], mean));
    assert Deviation(data, mean, 2) == Deviation(data, mean, 1) + NormSq(Sub(data[1], mean));
    assert Deviation(data, mean, 3) == Deviation(data, mean, 2) + NormSq(Sub(data[2], mean));
  }

  /** The squared distance between two reals. */
  lemma SquaredDistance(a: real, b: real, s: real)
    requires s == (a - b) * (a - b)
    ensures NormSq(Sub(R(a), R(b))) == s
  {
  }

  /** The squared distances of [3 29 12 32] from 19 add up to 256 + 100 + 49 + 169 = 574. */
  lemma DeviationFixture(data: seq<Complex>)
    requires data == [R(3.0), R(29.0), R(12.0), R(32.0)]
    ensures Deviation(data, R(19.0), 4) == 574.0
  {
    DeviationOfFour(data, R(19.0));
    SquaredDistance(3.0, 19.0, 256.0);
    SquaredDistance(29.0, 19.0, 100.0);
    SquaredDistance(12.0, 19.0, 49.0);
    SquaredDistance(32.0, 19.0, 169.0);
  }

  /** A single row's variance, read automatically along the row, is a one-by-one matrix. */
  lemma VarianceOfOneRow(m: Grid, cor: real)
    requires IsRect(m) && |m| == 1 && Defined(|m[0]|, cor)
    ensures Variance(m, cor, Vectors.Auto) == Ok([[VarianceOf(m[0], MeanOf(m[0]), cor)]])
  {
    assert ByRows(m, Vectors.Auto) && Lines(m, true) == m;
    var values := seq(|m|, k requires 0 <= k < |m| => VarianceOf(m[k], MeanOf(m[k]), cor));
    assert values == [VarianceOf(m[0], MeanOf(m[0]), cor)];
    assert Arrange(values, true) == [[values[0]]];
  }

  /** The squared deviation 574 over 4 - 1 + cor. */
  lemma VarianceOfFixture(data: seq<Complex>, cor: real)
    requires data == [R(3.0), R(29.0), R(12.0), R(32.0)] && cor >= 0.0
    ensures VarianceOf(data, MeanOf(data), cor) == R(574.0 / (3.0 + cor))
  {
    MeanFixture(data);
    DeviationFixture(data);
  }

  /**
   * test/Statistics.js: variance([3 29 12 32]) is 574/3 = 191.33 with no
   * correction (the default) and 574/4 = 143.5 with correction 1.
   */
  lemma VarianceFixture(m: Grid)
    requires m == [[R(3.0), R(29.0), R(12.0), R(32.0)]]
    ensures Variance(m, 0.0, Vectors.Auto) == Ok([[R(574.0 / 3.0)]])
    ensures Variance(m, 1.0, Vectors.Auto) == Ok([[R(143.5)]])
  {
    VarianceOfOneRow(m, 0.0);
    VarianceOfOneRow(m, 1.0);
    VarianceOfFixture(m[0], 0.0);
    VarianceOfFixture(m[0], 1.0);
  }
}
