/**
 * Two inputs on which inv as written differs from an inverse: a singular
 * matrix that still yields a finite result, and a complex diagonal matrix
 * whose diagonal path conjugates.
 */
module InverseFindings {
  import opened Wrappers
  import opened ComplexNum
  import opened Grid
  import Elimination
  import opened Inverse

  lemma AugmentedSingular(x: Grid)
    requires x == [[ONE, ONE], [ZERO, ZERO]]
    ensures Augmented(x) == [[ONE, ONE, ONE, ZERO], [ZERO, ZERO, ZERO, ONE]]
  {
    var e := Eye(2, 2);
    assert e[0] == [ONE, ZERO] && e[1] == [ZERO, ONE];
    var m := Augmented(x);
    assert m == ConcatRight(x, e);
    assert m[0] == x[0] + e[0] && m[1] == x[1] + e[1];
    assert m[0] == [ONE, ONE, ONE, ZERO];
    assert m[1] == [ZERO, ZERO, ZERO, ONE];
    assert |m| == 2;
  }

  /** Scaling by ONE and eliminating with a zero factor leave a grid as it is. */
  lemma TrivialStep(m: Grid, k: nat)
    requires IsRect(m) && k < |m| && k < Cols(m)
    requires forall i :: 0 <= i < |m| && i != k ==> m[i][k] == ZERO
    ensures Elimination.ScaledRowOf(m, k, k, ONE) == m
    ensures EliminatedOf(m, k) == m
  {
    var u := Elimination.ScaledRowOf(m, k, k, ONE);
    forall j | 0 <= j < Cols(m)
      ensures u[k][j] == m[k][j]
    {
      RingLaws(ONE, m[k][j], ZERO);
    }
    assert u[k] == m[k];
    assert forall i :: 0 <= i < |m| ==> u[i] == m[i];
    var t := EliminatedOf(m, k);
    forall i, j | 0 <= i < |m| && i != k && 0 <= j < Cols(m)
      ensures t[i][j] == m[i][j]
    {
      RingLaws(ZERO, m[k][j], ZERO);
    }
    assert forall i :: 0 <= i < |m| ==> t[i] == m[i];
  }

  /**
   * inv([1 1; 0 0]) as written: column 1 has no pivot from row 1 on, the
   * search answers row 0, and exchanging rows 1 and 0 puts a usable pivot in
   * place. A finite matrix comes back although none inverts a singular one;
   * the corrected rule reaches the zero pivot and reports it.
   */
  lemma SingularAsWritten(x: Grid)
    requires x == [[ONE, ONE], [ZERO, ZERO]]
    ensures GaussJordanOf(Augmented(x), 2, 0, true) == Some([[ZERO, ZERO, ZERO, ONE], [ONE, ONE, ONE, ZERO]])
    ensures GaussJordanOf(Augmented(x), 2, 0, false).None?
  {
    AugmentedSingular(x);
    var m: Grid := [[ONE, ONE, ONE, ZERO], [ZERO, ZERO, ZERO, ONE]];
    var s: Grid := [[ZERO, ZERO, ZERO, ONE], [ONE, ONE, ONE, ZERO]];
    assert Elimination.MaxRowOf(m, 0, 0, 1) == Elimination.RowMax(0, 1.0);
    assert Elimination.MaxRowOf(m, 0, 0, 2) == Elimination.RowMax(0, 1.0);
    assert SwapRows(m, 0, 0) == m;
    TrivialStep(m, 0);
    assert Elimination.MaxRowOf(m, 1, 1, 2) == Elimination.RowMax(0, 0.0);
    assert SwapRows(m, 1, 0) == s;
    TrivialStep(s, 1);
    assert GaussJordanOf(s, 2, 2, true) == Some(s);
    assert GaussJordanOf(m, 2, 1, true) == Some(s);
    assert GaussJordanOf(m, 2, 1, false) == None;
  }

  /** The matrix returned as written for [1 1; 0 0] is not a left inverse of it. */
  lemma SingularAsWrittenProduct(x: Grid, y: Grid)
    requires x == [[ONE, ONE], [ZERO, ZERO]] && y == [[ZERO, ONE], [ONE, ZERO]]
    ensures IsRect(x) && IsRect(y) && MatMul(y, x)[0][0] == ZERO
  {
    var p := Mul(y[0][0], x[0][0]);
    assert p == ZERO;
    var q := Mul(y[0][1], x[1][0]);
    assert q == ZERO;
    assert RowColumn(y, x, 0, 0, 1) == Add(ZERO, p);
    assert RowColumn(y, x, 0, 0, 2) == Add(RowColumn(y, x, 0, 0, 1), q);
  }

  lemma InvImaginaryUnit()
    ensures ComplexNum.Inv(Complex(0.0, 1.0)) == Some(Complex(0.0, -1.0))
    ensures Conj(Complex(0.0, 1.0)) == Complex(0.0, -1.0)
    ensures ComplexNum.Inv(Complex(0.0, -1.0)) == Some(Complex(0.0, 1.0))
  {
  }

  /** The first row of the as-written diagonal result for diag(a, 1). */
  lemma DiagonalFirstRow(x: Grid, a: Complex)
    requires |x| == 2 && |x[0]| == 2 && |x[1]| == 2
    requires x[0][0] == a && a != ZERO && x[0][1] == ZERO && x[1][0] == ZERO && x[1][1] == ONE
    ensures DiagonalInverseAsWritten(x).Ok? && Shape(DiagonalInverseAsWritten(x).value, 2, 2)
    ensures DiagonalInverseAsWritten(x).value[0][0] == ComplexNum.Inv(Conj(a)).value
    ensures DiagonalInverseAsWritten(x).value[0][1] == ZERO
  {
  }

  /** The corner of the as-written result times diag(a, 1). */
  lemma DiagonalCorner(x: Grid, a: Complex)
    requires |x| == 2 && |x[0]| == 2 && |x[1]| == 2
    requires x[0][0] == a && a != ZERO && x[0][1] == ZERO && x[1][0] == ZERO && x[1][1] == ONE
    ensures DiagonalInverseAsWritten(x).Ok? && IsRect(DiagonalInverseAsWritten(x).value)
    ensures MatMul(DiagonalInverseAsWritten(x).value, x)[0][0] == Mul(ComplexNum.Inv(Conj(a)).value, a)
  {
    DiagonalFirstRow(x, a);
    ProductCorner(DiagonalInverseAsWritten(x).value, x, ComplexNum.Inv(Conj(a)).value, a);
  }

  /** The corner of a product of 2×2 grids whose first row and first column each hold one nonzero entry. */
  lemma ProductCorner(y: Grid, x: Grid, b: Complex, a: Complex)
    requires Shape(y, 2, 2) && Shape(x, 2, 2)
    requires y[0][0] == b && y[0][1] == ZERO && x[0][0] == a && x[1][0] == ZERO
    ensures IsRect(y) && IsRect(x) && MatMul(y, x)[0][0] == Mul(b, a)
  {
    var p := Mul(b, a);
    assert RowColumn(y, x, 0, 0, 1) == p by {
      assert RowColumn(y, x, 0, 0, 1) == Add(ZERO, p);
    }
    assert RowColumn(y, x, 0, 0, 2) == p by {
      var q := Mul(y[0][1], x[1][0]);
      assert q == ZERO;
      assert RowColumn(y, x, 0, 0, 2) == Add(p, q);
    }
  }

  /**
   * inv([i 0; 0 1]) as written: the conjugate turns i into -i, whose
   * reciprocal is i again, and i·i leaves -1 where the identity has 1.
   */
  lemma ConjugatedDiagonal(x: Grid)
    requires |x| == 2 && |x[0]| == 2 && |x[1]| == 2
    requires x[0][0] == Complex(0.0, 1.0) && x[0][1] == ZERO && x[1][0] == ZERO && x[1][1] == ONE
    ensures DiagonalInverseAsWritten(x).Ok? && IsRect(DiagonalInverseAsWritten(x).value)
    ensures MatMul(DiagonalInverseAsWritten(x).value, x)[0][0] == Complex(-1.0, 0.0)
  {
    DiagonalCorner(x, Complex(0.0, 1.0));
    InvImaginaryUnit();
    assert Mul(Complex(0.0, 1.0), Complex(0.0, 1.0)) == Complex(-1.0, 0.0);
  }

  /** The corrected diagonal path on the same input returns diag(-i, 1), a left inverse. */
  lemma ConjugatedDiagonalCorrected(x: Grid)
    requires |x| == 2 && |x[0]| == 2 && |x[1]| == 2
    requires x[0][0] == Complex(0.0, 1.0) && x[0][1] == ZERO && x[1][0] == ZERO && x[1][1] == ONE
    ensures DiagonalInverse(x).Ok? && IsRect(DiagonalInverse(x).value)
    ensures MatMul(DiagonalInverse(x).value, x) == Eye(2, 2)
  {
    assert forall i, j :: 0 <= i < 2 && 0 <= j < 2 && i != j ==> x[i][j] == ZERO;
    assert forall i :: 0 <= i < 2 ==> x[i][i] != ZERO;
    DiagonalInverseExact(x);
  }
}
