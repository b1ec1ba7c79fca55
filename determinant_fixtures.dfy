/**
 * Fixtures of test/LinearAlgebra.js for det, worked through the model: the
 * cofactor expansion of a 3×3 and a 4×4 matrix, and the large-size rule on
 * hand-computed LUP factors of the 5×5 matrix.
 */
module DeterminantFixtures {
  import opened ComplexNum
  import opened Grid
  import opened Determinant
  import Decomposition

  function R(x: real): Complex { Complex(x, 0.0) }

  /** The 2×2 cross product a·d − b·c of the base case. */
  function Cross(a: Complex, b: Complex, c: Complex, d: Complex): Complex {
    Sub(Mul(a, d), Mul(b, c))
  }

  /** A 3×3 expansion down the first column: three signed terms, each on a 2×2 minor. */
  lemma CofactorThree(x: Grid)
    requires IsSquare(x) && |x| == 3
    ensures CofactorDet(x) == Add(Sub(Add(ZERO,
      Mul(x[0][0], Cross(x[1][1], x[1][2], x[2][1], x[2][2]))),
      Mul(x[1][0], Cross(x[0][1], x[0][2], x[2][1], x[2][2]))),
      Mul(x[2][0], Cross(x[0][1], x[0][2], x[1][1], x[1][2])))
  {
    var m0, m1, m2 := Minor(x, 0), Minor(x, 1), Minor(x, 2);
    assert CofactorDet(m0) == Cross(x[1][1], x[1][2], x[2][1], x[2][2]);
    assert CofactorDet(m1) == Cross(x[0][1], x[0][2], x[2][1], x[2][2]);
    assert CofactorDet(m2) == Cross(x[0][1], x[0][2], x[1][1], x[1][2]);
    assert Expansion(x, 1) == Add(ZERO, Mul(x[0][0], CofactorDet(m0)));
    assert Expansion(x, 2) == Sub(Expansion(x, 1), Mul(x[1][0], CofactorDet(m1)));
    assert Expansion(x, 3) == Add(Expansion(x, 2), Mul(x[2][0], CofactorDet(m2)));
  }

  /** A 4×4 expansion down the first column: four signed terms on 3×3 minors. */
  lemma CofactorFour(x: Grid)
    requires IsSquare(x) && |x| == 4
    ensures CofactorDet(x) == Sub(Add(Sub(Add(ZERO,
      Mul(x[0][0], CofactorDet(Minor(x, 0)))),
      Mul(x[1][0], CofactorDet(Minor(x, 1)))),
      Mul(x[2][0], CofactorDet(Minor(x, 2)))),
      Mul(x[3][0], CofactorDet(Minor(x, 3))))
  {
    assert Expansion(x, 1) == Add(ZERO, Mul(x[0][0], CofactorDet(Minor(x, 0))));
    assert Expansion(x, 2) == Sub(Expansion(x, 1), Mul(x[1][0], CofactorDet(Minor(x, 1))));
    assert Expansion(x, 3) == Add(Expansion(x, 2), Mul(x[2][0], CofactorDet(Minor(x, 2))));
  }

  /** A real 3×3 matrix: the expansion is the familiar real determinant. */
  lemma RealThree(x: Grid, a: real, b: real, c: real, d: real, e: real, f: real, g: real, h: real, i: real)
    requires x == [[R(a), R(b), R(c)], [R(d), R(e), R(f)], [R(g), R(h), R(i)]]
    ensures CofactorDet(x) == R(a * (e * i - f * h) - d * (b * i - c * h) + g * (b * f - c * e))
  {
    CofactorThree(x);
  }

  /** test/LinearAlgebra.js: det([1 2 3; 0 -1 5; -2 3 4]) is −45. */
  lemma DetThreeByThree(x: Grid)
    requires x == [[R(1.0), R(2.0), R(3.0)], [R(0.0), R(-1.0), R(5.0)], [R(-2.0), R(3.0), R(4.0)]]
    ensures CofactorDet(x) == R(-45.0)
  {
    RealThree(x, 1.0, 2.0, 3.0, 0.0, -1.0, 5.0, -2.0, 3.0, 4.0);
  }

  /** test/LinearAlgebra.js: det([3 2 1 0; 1 2 3 4; 2 1 0 1; 2 0 2 1]) is −32. */
  lemma DetFourByFour(x: Grid)
    requires x == [[R(3.0), R(2.0), R(1.0), R(0.0)], [R(1.0), R(2.0), R(3.0), R(4.0)],
                   [R(2.0), R(1.0), R(0.0), R(1.0)], [R(2.0), R(0.0), R(2.0), R(1.0)]]
    ensures CofactorDet(x) == R(-32.0)
  {
    CofactorFour(x);
    RealThree(Minor(x, 0), 2.0, 3.0, 4.0, 1.0, 0.0, 1.0, 0.0, 2.0, 1.0);
    RealThree(Minor(x, 1), 2.0, 1.0, 0.0, 1.0, 0.0, 1.0, 0.0, 2.0, 1.0);
    RealThree(Minor(x, 2), 2.0, 1.0, 0.0, 2.0, 3.0, 4.0, 0.0, 2.0, 1.0);
    RealThree(Minor(x, 3), 2.0, 1.0, 0.0, 2.0, 3.0, 4.0, 1.0, 0.0, 1.0);
  }

  /**
   * A stated P for the 5×5 matrix: rows in the order 0, 4, 3, 2, 1, worked by
   * hand from lup's pivot rule, not derived from Decomposition.Lup. It moves four
   * rows, a count of 2.
   */
  lemma PivotOrder(p: Grid)
    requires p == [[ONE, ZERO, ZERO, ZERO, ZERO], [ZERO, ZERO, ZERO, ZERO, ONE], [ZERO, ZERO, ZERO, ONE, ZERO],
                   [ZERO, ZERO, ONE, ZERO, ZERO], [ZERO, ONE, ZERO, ZERO, ZERO]]
    ensures IsRect(p) && ExchangeCount(p) == 2.0 && !IsOddCount(ExchangeCount(p))
  {
    var perm: seq<nat> := [0, 4, 3, 2, 1];
    assert Decomposition.PermutationOf(p, perm);
    ExchangeCountMoved(p, perm);
    assert FixedPoints(perm, 5) == 1 by {
      assert FixedPoints(perm, 1) == 1;
      assert FixedPoints(perm, 3) == 1;
    }
    ExchangeParity(1);
  }

  /** The diagonal product of a 5×5 matrix with a real diagonal is the real product of its entries. */
  lemma DiagonalFive(u: Grid, a: real, b: real, c: real, d: real, e: real)
    requires |u| == 5 && forall i :: 0 <= i < 5 ==> 5 <= |u[i]|
    requires u[0][0] == R(a) && u[1][1] == R(b) && u[2][2] == R(c) && u[3][3] == R(d) && u[4][4] == R(e)
    ensures DiagonalProduct(u, 5) == R(a * b * c * d * e)
  {
    assert DiagonalProduct(u, 1) == R(a) by {
      assert DiagonalProduct(u, 1) == Mul(ONE, u[0][0]);
    }
    assert DiagonalProduct(u, 2) == R(a * b);
    assert DiagonalProduct(u, 3) == R(a * b * c);
    assert DiagonalProduct(u, 4) == R(a * b * c * d);
  }

  /**
   * A stated U for the 5×5 matrix, worked by hand in exact fractions from lup's
   * pivot rule, not derived from Decomposition.Lup: its diagonal multiplies out
   * to −284.
   */
  lemma UpperDiagonal(u: Grid)
    requires u == [[R(2.0), R(3.0), R(1.0), R(4.0), R(5.0)],
                   [R(0.0), R(7.0 / 2.0), R(5.0 / 2.0), R(2.0), R(5.0 / 2.0)],
                   [R(0.0), R(0.0), R(27.0 / 7.0), R(23.0 / 7.0), R(-15.0 / 7.0)],
                   [R(0.0), R(0.0), R(0.0), R(176.0 / 27.0), R(-23.0 / 9.0)],
                   [R(0.0), R(0.0), R(0.0), R(0.0), R(-71.0 / 44.0)]]
    ensures DiagonalProduct(u, 5) == R(-284.0)
  {
    assert 2.0 * (7.0 / 2.0) * (27.0 / 7.0) * (176.0 / 27.0) * (-71.0 / 44.0) == -284.0;
    DiagonalFive(u, 2.0, 7.0 / 2.0, 27.0 / 7.0, 176.0 / 27.0, -71.0 / 44.0);
  }

  /**
   * test/LinearAlgebra.js: det of [2 3 1 4 5; 2 3 0 3 4; 1 4 0 8 3; 1 1 4 5 0;
   * 1 5 3 4 5] is −284. Worked by hand, lup takes the largest pivot of each
   * column: rows 0, 4, 3, 2, 1 in turn, with the factor U below. P and U are
   * stated here, not derived from Decomposition.Lup, so this lemma gives the
   * large-size rule's value for them only. The count is even, so the diagonal
   * of U, 2 · 7/2 · 27/7 · 176/27 · −71/44 = −284, is not negated.
   */
  lemma DetFiveByFive(p: Grid, u: Grid)
    requires p == [[ONE, ZERO, ZERO, ZERO, ZERO], [ZERO, ZERO, ZERO, ZERO, ONE], [ZERO, ZERO, ZERO, ONE, ZERO],
                   [ZERO, ZERO, ONE, ZERO, ZERO], [ZERO, ONE, ZERO, ZERO, ZERO]]
    requires u == [[R(2.0), R(3.0), R(1.0), R(4.0), R(5.0)],
                   [R(0.0), R(7.0 / 2.0), R(5.0 / 2.0), R(2.0), R(5.0 / 2.0)],
                   [R(0.0), R(0.0), R(27.0 / 7.0), R(23.0 / 7.0), R(-15.0 / 7.0)],
                   [R(0.0), R(0.0), R(0.0), R(176.0 / 27.0), R(-23.0 / 9.0)],
                   [R(0.0), R(0.0), R(0.0), R(0.0), R(-71.0 / 44.0)]]
    ensures LupDet(p, u) == R(-284.0)
  {
    PivotOrder(p);
    UpperDiagonal(u);
  }
}
