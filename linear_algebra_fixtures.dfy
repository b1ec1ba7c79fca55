/**
 * Fixtures of test/LinearAlgebra.js for rank, linsolve and inv. The rank
 * ones are worked through the model of getLinearDependenceVector; the
 * linsolve and inv ones show the matrix nonsingular by solving its real
 * equations, and then the contracts of Solve.Linsolve and Inverse.Inv
 * give success, the solution and the identity product.
 */
module LinearAlgebraFixtures {
  import opened Wrappers
  import opened ComplexNum
  import opened Grid
  import opened Elimination
  import GridTests
  import Solve
  import Inverse

  function R(x: real): Complex { Complex(x, 0.0) }

  // ---------------------------------------------------------------------
  // rank
  // ---------------------------------------------------------------------

  lemma PivotTwoByTwo(m: Grid, rest: seq<nat>)
    requires m == [[R(1.0), R(2.0)], [R(2.0), R(4.0)]] && rest == [0, 1]
    ensures MaxRemainingOf(m, rest, 0, 2) == Pick(4.0, 1)
  {
    assert MaxRemainingOf(m, rest, 0, 1) == Pick(1.0, 0);
  }

  lemma RowOneTwoByTwo(m: Grid)
    requires m == [[R(1.0), R(2.0)], [R(2.0), R(4.0)]]
    ensures EliminatedRowOf(m, 0, 1, 0) == [ZERO, ZERO]
  {
    assert Div(m[0][0], m[1][0]) == Some(R(0.5));
  }

  lemma ClearedTwoByTwo(m: Grid, left: seq<nat>)
    requires m == [[R(1.0), R(2.0)], [R(2.0), R(4.0)]] && left == [0]
    ensures EliminatedRest(m, left, 1, 0) == [[ZERO, ZERO], [R(2.0), R(4.0)]]
  {
    assert EliminatedRowOf(m, 0, 1, 0) == [ZERO, ZERO] by {
      RowOneTwoByTwo(m);
    }
    assert left[..0] == [];
  }

  /** [1 2; 2 4], column 0: row 1 is the pivot, and clears row 0. */
  lemma FirstColumnTwoByTwo(m: Grid, rest: seq<nat>, bound: real)
    requires m == [[R(1.0), R(2.0)], [R(2.0), R(4.0)]] && rest == [0, 1] && bound == 1.0e-20
    ensures ColumnOf(m, rest, 0, bound) == Stage([[ZERO, ZERO], [R(2.0), R(4.0)]], [0])
  {
    assert MaxRemainingOf(m, rest, 0, 2) == Pick(4.0, 1) by {
      PivotTwoByTwo(m, rest);
    }
    assert ColumnOf(m, rest, 0, bound) == Stage(EliminatedRest(m, [0], 1, 0), [0]) by {
      ColumnTakes(m, rest, 0, bound);
      assert rest[..1] + rest[2..] == [0];
    }
    ClearedTwoByTwo(m, [0]);
  }

  /** [0 0; 2 4] with row 0 listed, from column 1 on: no pivot, and row 0 stays. */
  lemma SecondColumnTwoByTwo(m: Grid, left: seq<nat>, bound: real)
    requires m == [[ZERO, ZERO], [R(2.0), R(4.0)]] && left == [0] && bound == 1.0e-20
    ensures DependentRowsOf(m, left, 1, bound) == [0]
  {
    assert MaxRemainingOf(m, left, 1, 1) == Pick(0.0, 0);
    ColumnSkips(m, left, 1, bound);
    AllColumnsDone(m, left, bound);
  }

  /**
   * [1 2; 2 4]: the pivot of column 0 is row 1, which clears row 0; row 0
   * is then zero in column 1 and stays listed.
   */
  lemma DependentRowsTwoByTwo(m: Grid, rest: seq<nat>, bound: real)
    requires m == [[R(1.0), R(2.0)], [R(2.0), R(4.0)]] && rest == [0, 1] && bound == 1.0e-20
    ensures DependentRowsOf(m, rest, 0, bound) == [0]
  {
    var g := ColumnOf(m, rest, 0, bound);
    assert DependentRowsOf(m, rest, 0, bound) == DependentRowsOf(g.grid, g.rows, 1, bound) by {
      DependentRowsNext(m, rest, 0, bound);
    }
    FirstColumnTwoByTwo(m, rest, bound);
    SecondColumnTwoByTwo(g.grid, g.rows, bound);
  }

  lemma PivotThreeFirst(m: Grid, rest: seq<nat>)
    requires m == [[R(1.0), R(2.0), R(3.0)], [R(0.0), R(0.0), R(0.0)], [R(2.0), R(4.0), R(5.0)]]
    requires rest == [0, 1, 2]
    ensures MaxRemainingOf(m, rest, 0, 3) == Pick(4.0, 2)
  {
    assert MaxRemainingOf(m, rest, 0, 2) == Pick(1.0, 0);
  }

  lemma RowOneThreeFirst(m: Grid)
    requires m == [[R(1.0), R(2.0), R(3.0)], [R(0.0), R(0.0), R(0.0)], [R(2.0), R(4.0), R(5.0)]]
    ensures EliminatedRowOf(m, 0, 2, 0) == [ZERO, ZERO, R(0.5)]
  {
    assert Div(m[0][0], m[2][0]) == Some(R(0.5));
  }

  /** A row that is zero throughout stays zero, whatever the pivot. */
  lemma ZeroRowStays(m: Grid, i: nat, pivot: nat, col: nat)
    requires IsRect(m) && col < Cols(m) && i < |m| && pivot < |m| && m[pivot][col] != ZERO
    requires forall j :: 0 <= j < |m[i]| ==> m[i][j] == ZERO
    ensures EliminatedRowOf(m, i, pivot, col) == m[i]
  {
    var b := m[pivot][col];
    NormSqPositive(b);
    assert Quotient(ZERO, b) == ZERO;
    var r := EliminatedRowOf(m, i, pivot, col);
    forall j | 0 <= j < Cols(m)
      ensures r[j] == m[i][j]
    {
      if j >= col {
        assert Mul(m[pivot][j], ZERO) == ZERO;
      }
    }
  }

  lemma ClearedThreeFirst(m: Grid, left: seq<nat>)
    requires m == [[R(1.0), R(2.0), R(3.0)], [R(0.0), R(0.0), R(0.0)], [R(2.0), R(4.0), R(5.0)]]
    requires left == [0, 1]
    ensures EliminatedRest(m, left, 2, 0) == [[R(0.0), R(0.0), R(0.5)], [R(0.0), R(0.0), R(0.0)], [R(2.0), R(4.0), R(5.0)]]
  {
    var row0 := EliminatedRowOf(m, 0, 2, 0);
    assert row0 == [ZERO, ZERO, R(0.5)] by {
      RowOneThreeFirst(m);
    }
    assert EliminatedRowOf(m, 1, 2, 0) == m[1] by {
      ZeroRowStays(m, 1, 2, 0);
    }
    assert left[..1] == [0] && [0][..0] == [];
    assert EliminatedRest(m, [0], 2, 0) == m[0 := row0];
  }

  /** [1 2 3; 0 0 0; 2 4 5], column 0: row 2 is the pivot, and leaves [0 0 0.5] in row 0. */
  lemma FirstColumnThreeByThree(m: Grid, rest: seq<nat>, bound: real)
    requires m == [[R(1.0), R(2.0), R(3.0)], [R(0.0), R(0.0), R(0.0)], [R(2.0), R(4.0), R(5.0)]]
    requires rest == [0, 1, 2] && bound == 1.0e-20
    ensures ColumnOf(m, rest, 0, bound) ==
      Stage([[R(0.0), R(0.0), R(0.5)], [R(0.0), R(0.0), R(0.0)], [R(2.0), R(4.0), R(5.0)]], [0, 1])
  {
    assert MaxRemainingOf(m, rest, 0, 3) == Pick(4.0, 2) by {
      PivotThreeFirst(m, rest);
    }
    assert rest[..2] + rest[3..] == [0, 1];
    assert ColumnOf(m, rest, 0, bound) == Stage(EliminatedRest(m, [0, 1], 2, 0), [0, 1]) by {
      ColumnTakes(m, rest, 0, bound);
    }
    ClearedThreeFirst(m, [0, 1]);
  }

  /**
   * [0 0 0.5; 0 0 0; 2 4 5] with rows 0 and 1 listed, from column 1 on:
   * column 1 has no pivot, row 0 is the pivot of column 2, and row 1 stays.
   */
  lemma LaterColumnsThreeByThree(m: Grid, left: seq<nat>, bound: real)
    requires m == [[R(0.0), R(0.0), R(0.5)], [R(0.0), R(0.0), R(0.0)], [R(2.0), R(4.0), R(5.0)]]
    requires left == [0, 1] && bound == 1.0e-20
    ensures DependentRowsOf(m, left, 1, bound) == [1]
  {
    assert MaxRemainingOf(m, left, 1, 2) == Pick(0.0, 0);
    ColumnSkips(m, left, 1, bound);
    assert MaxRemainingOf(m, left, 2, 2) == Pick(0.25, 0);
    assert ColumnOf(m, left, 2, bound) == Stage(m, [1]) by {
      ColumnTakes(m, left, 2, bound);
      assert left[..0] + left[1..] == [1];
    }
    DependentRowsNext(m, left, 2, bound);
    AllColumnsDone(m, [1], bound);
  }

  /**
   * [1 2 3; 0 0 0; 2 4 5]: row 2 is the pivot of column 0, which leaves
   * [0 0 0.5] in row 0; column 1 has nothing left above the tolerance,
   * and row 0 is the pivot of column 2, so row 1 alone stays listed.
   */
  lemma DependentRowsThreeByThree(m: Grid, rest: seq<nat>, bound: real)
    requires m == [[R(1.0), R(2.0), R(3.0)], [R(0.0), R(0.0), R(0.0)], [R(2.0), R(4.0), R(5.0)]]
    requires rest == [0, 1, 2] && bound == 1.0e-20
    ensures DependentRowsOf(m, rest, 0, bound) == [1]
  {
    var g := ColumnOf(m, rest, 0, bound);
    assert DependentRowsOf(m, rest, 0, bound) == DependentRowsOf(g.grid, g.rows, 1, bound) by {
      DependentRowsNext(m, rest, 0, bound);
    }
    FirstColumnThreeByThree(m, rest, bound);
    LaterColumnsThreeByThree(g.grid, g.rows, bound);
  }

  /**
   * test/LinearAlgebra.js: rank([1 2; 2 4]) = 1, the value Rank's contract
   * gives with the default tolerance.
   */
  lemma RankTwoByTwo(m: Grid)
    requires m == [[R(1.0), R(2.0)], [R(2.0), R(4.0)]]
    ensures |m| - |DependentRowsOf(m, Range(|m|), 0, Squared(GridTests.MatTol(0.0)))| == 1
  {
    assert Range(2) == [0, 1];
    assert Squared(GridTests.MatTol(0.0)) == 1.0e-20;
    DependentRowsTwoByTwo(m, Range(2), Squared(GridTests.MatTol(0.0)));
  }

  /**
   * test/LinearAlgebra.js: rank([1 2 3; 0 0 0; 2 4 5]) = 2, the value Rank's
   * contract gives with the default tolerance.
   */
  lemma RankThreeByThree(m: Grid)
    requires m == [[R(1.0), R(2.0), R(3.0)], [R(0.0), R(0.0), R(0.0)], [R(2.0), R(4.0), R(5.0)]]
    ensures |m| - |DependentRowsOf(m, Range(|m|), 0, Squared(GridTests.MatTol(0.0)))| == 2
  {
    assert Range(3) == [0, 1, 2];
    assert Squared(GridTests.MatTol(0.0)) == 1.0e-20;
    DependentRowsThreeByThree(m, Range(3), Squared(GridTests.MatTol(0.0)));
  }

  // ---------------------------------------------------------------------
  // linsolve and inv
  // ---------------------------------------------------------------------


  /** A real scalar times a complex number scales both parts. */
  lemma RealTimes(x: real, w: Complex)
    ensures Mul(R(x), w) == Complex(x * w.re, x * w.im)
  {
  }

  /** A real row of four applied to v, as two real combinations. */
  lemma RowDotFour(r: seq<Complex>, v: seq<Complex>, x0: real, x1: real, x2: real, x3: real)
    requires r == [R(x0), R(x1), R(x2), R(x3)] && |v| == 4
    ensures Solve.Dot(r, v, 0, 4) == Complex(x0 * v[0].re + x1 * v[1].re + x2 * v[2].re + x3 * v[3].re,
                                              x0 * v[0].im + x1 * v[1].im + x2 * v[2].im + x3 * v[3].im)
  {
    RealTimes(x0, v[0]);
    RealTimes(x1, v[1]);
    RealTimes(x2, v[2]);
    RealTimes(x3, v[3]);
    assert Solve.Dot(r, v, 0, 1) == Complex(x0 * v[0].re, x0 * v[0].im);
    assert Solve.Dot(r, v, 0, 2) == Complex(x0 * v[0].re + x1 * v[1].re, x0 * v[0].im + x1 * v[1].im);
    assert Solve.Dot(r, v, 0, 3) == Complex(x0 * v[0].re + x1 * v[1].re + x2 * v[2].re, x0 * v[0].im + x1 * v[1].im + x2 * v[2].im);
  }

  /** A real row of four that sends v to c: two real equations. */
  lemma RowValueFour(r: seq<Complex>, v: seq<Complex>, x0: real, x1: real, x2: real, x3: real, c: Complex)
    requires r == [R(x0), R(x1), R(x2), R(x3)] && |v| == 4 && Solve.Dot(r, v, 0, 4) == c
    ensures RowSendsFour(x0, x1, x2, x3, v[0].re, v[1].re, v[2].re, v[3].re, c.re)
    ensures RowSendsFour(x0, x1, x2, x3, v[0].im, v[1].im, v[2].im, v[3].im, c.im)
  {
    RowDotFour(r, v, x0, x1, x2, x3);
  }

  /** The real row (x0, x1, x2, x3) sends (p0, p1, p2, p3) to q. */
  predicate RowSendsFour(x0: real, x1: real, x2: real, x3: real, p0: real, p1: real, p2: real, p3: real, q: real) {
    x0 * p0 + x1 * p1 + x2 * p2 + x3 * p3 == q
  }

  /** [2 1 3 4; 3 2 5 2; 3 4 1 -1; -1 -3 1 3] sends (p0, p1, p2, p3) to (q0, q1, q2, q3). */
  predicate SystemSends(p0: real, p1: real, p2: real, p3: real, q0: real, q1: real, q2: real, q3: real) {
    RowSendsFour(2.0, 1.0, 3.0, 4.0, p0, p1, p2, p3, q0)
    && RowSendsFour(3.0, 2.0, 5.0, 2.0, p0, p1, p2, p3, q1)
    && RowSendsFour(3.0, 4.0, 1.0, -1.0, p0, p1, p2, p3, q2)
    && RowSendsFour(-1.0, -3.0, 1.0, 3.0, p0, p1, p2, p3, q3)
  }

  /** The system is nonsingular: only zero goes to zero. */
  lemma SystemZeroOnly(p0: real, p1: real, p2: real, p3: real)
    requires SystemSends(p0, p1, p2, p3, 0.0, 0.0, 0.0, 0.0)
    ensures p0 == 0.0 && p1 == 0.0 && p2 == 0.0 && p3 == 0.0
  {
  }

  /** (1, -1, 3, -2) is the only vector the system sends to (2, 12, 4, -1). */
  lemma SystemSolvedBy(p0: real, p1: real, p2: real, p3: real)
    requires SystemSends(p0, p1, p2, p3, 2.0, 12.0, 4.0, -1.0)
    ensures p0 == 1.0 && p1 == -1.0 && p2 == 3.0 && p3 == -2.0
  {
  }

  /** Row i of a sends v to b[i]. */
  ghost predicate SendsTo(a: Grid, v: seq<Complex>, b: seq<Complex>) {
    |a| == |b| && forall i :: 0 <= i < |a| ==> |v| <= |a[i]| && Solve.Dot(a[i], v, 0, |v|) == b[i]
  }

  /** A vector the rows send to zero, as SendsTo. */
  lemma AnnihilatesSends(a: Grid, v: seq<Complex>, z: seq<Complex>)
    requires Solve.Annihilates(a, v, |v|) && |z| == |a| && forall i :: 0 <= i < |z| ==> z[i] == ZERO
    ensures SendsTo(a, v, z)
  {
  }

  /** The system's rows applied to v, as eight real equations. */
  lemma SystemEquations(a: Grid, v: seq<Complex>, b: seq<Complex>)
    requires a == [[R(2.0), R(1.0), R(3.0), R(4.0)], [R(3.0), R(2.0), R(5.0), R(2.0)],
                   [R(3.0), R(4.0), R(1.0), R(-1.0)], [R(-1.0), R(-3.0), R(1.0), R(3.0)]]
    requires |v| == 4 && SendsTo(a, v, b)
    ensures SystemSends(v[0].re, v[1].re, v[2].re, v[3].re, b[0].re, b[1].re, b[2].re, b[3].re)
    ensures SystemSends(v[0].im, v[1].im, v[2].im, v[3].im, b[0].im, b[1].im, b[2].im, b[3].im)
  {
    RowValueFour(a[0], v, 2.0, 1.0, 3.0, 4.0, b[0]);
    RowValueFour(a[1], v, 3.0, 2.0, 5.0, 2.0, b[1]);
    RowValueFour(a[2], v, 3.0, 4.0, 1.0, -1.0, b[2]);
    RowValueFour(a[3], v, -1.0, -3.0, 1.0, 3.0, b[3]);
  }

  /** Both real systems of the 4x4 matrix force v to zero. */
  lemma ZeroVector(v: seq<Complex>)
    requires |v| == 4
    requires SystemSends(v[0].re, v[1].re, v[2].re, v[3].re, ZERO.re, ZERO.re, ZERO.re, ZERO.re)
    requires SystemSends(v[0].im, v[1].im, v[2].im, v[3].im, ZERO.im, ZERO.im, ZERO.im, ZERO.im)
    ensures forall j :: 0 <= j < 4 ==> v[j] == ZERO
  {
    SystemZeroOnly(v[0].re, v[1].re, v[2].re, v[3].re);
    SystemZeroOnly(v[0].im, v[1].im, v[2].im, v[3].im);
  }

  /** The system sends only zero to zero. */
  lemma SystemKernel(a: Grid)
    requires a == [[R(2.0), R(1.0), R(3.0), R(4.0)], [R(3.0), R(2.0), R(5.0), R(2.0)],
                   [R(3.0), R(4.0), R(1.0), R(-1.0)], [R(-1.0), R(-3.0), R(1.0), R(3.0)]]
    ensures Solve.TrivialKernel(a, 4)
  {
    forall v: seq<Complex> | Solve.Annihilates(a, v, 4)
      ensures forall j :: 0 <= j < 4 ==> v[j] == ZERO
    {
      AnnihilatesSends(a, v, [ZERO, ZERO, ZERO, ZERO]);
      SystemEquations(a, v, [ZERO, ZERO, ZERO, ZERO]);
      ZeroVector(v);
    }
  }

  /** a·x == b, read row by row. */
  lemma ProductSends(a: Grid, x: Grid, b: Grid)
    requires IsRect(a) && IsRect(x) && |a| == 4 && Shape(x, 4, 1) && Cols(a) == 4 && MatMul(a, x) == b
    ensures Shape(b, 4, 1) && |Column(x, 0)| == 4 && SendsTo(a, Column(x, 0), [b[0][0], b[1][0], b[2][0], b[3][0]])
  {
    var c := [b[0][0], b[1][0], b[2][0], b[3][0]];
    forall i | 0 <= i < 4
      ensures Solve.Dot(a[i], Column(x, 0), 0, 4) == c[i]
    {
      Solve.RowColumnDot(a, x, Column(x, 0), i, 4);
    }
  }

  /** The column whose real and imaginary parts solve the 4x4 system for [2; 12; 4; -1]. */
  lemma SolvedColumn(x: Grid, c: seq<Complex>)
    requires Shape(x, 4, 1) && c == [R(2.0), R(12.0), R(4.0), R(-1.0)]
    requires var v := Column(x, 0);
      SystemSends(v[0].re, v[1].re, v[2].re, v[3].re, c[0].re, c[1].re, c[2].re, c[3].re)
      && SystemSends(v[0].im, v[1].im, v[2].im, v[3].im, c[0].im, c[1].im, c[2].im, c[3].im)
    ensures x == [[R(1.0)], [R(-1.0)], [R(3.0)], [R(-2.0)]]
  {
    var v := Column(x, 0);
    SystemSolvedBy(v[0].re, v[1].re, v[2].re, v[3].re);
    SystemZeroOnly(v[0].im, v[1].im, v[2].im, v[3].im);
    assert forall k :: 0 <= k < 4 ==> x[k] == [v[k]];
  }

  /** The only column the system sends to [2; 12; 4; -1] is [1; -1; 3; -2]. */
  lemma SystemSolution(a: Grid, b: Grid, x: Grid)
    requires a == [[R(2.0), R(1.0), R(3.0), R(4.0)], [R(3.0), R(2.0), R(5.0), R(2.0)],
                   [R(3.0), R(4.0), R(1.0), R(-1.0)], [R(-1.0), R(-3.0), R(1.0), R(3.0)]]
    requires b == [[R(2.0)], [R(12.0)], [R(4.0)], [R(-1.0)]]
    requires IsRect(a) && IsRect(x) && Shape(x, 4, 1) && Cols(a) == |x| && MatMul(a, x) == b
    ensures x == [[R(1.0)], [R(-1.0)], [R(3.0)], [R(-2.0)]]
  {
    ProductSends(a, x, b);
    var c := [b[0][0], b[1][0], b[2][0], b[3][0]];
    SystemEquations(a, Column(x, 0), c);
    SolvedColumn(x, c);
  }

  /** A real row of three applied to v, as two real combinations. */
  lemma RowDotThree(r: seq<Complex>, v: seq<Complex>, x0: real, x1: real, x2: real)
    requires r == [R(x0), R(x1), R(x2)] && |v| == 3
    ensures Solve.Dot(r, v, 0, 3) == Complex(x0 * v[0].re + x1 * v[1].re + x2 * v[2].re,
                                              x0 * v[0].im + x1 * v[1].im + x2 * v[2].im)
  {
    RealTimes(x0, v[0]);
    RealTimes(x1, v[1]);
    RealTimes(x2, v[2]);
    assert Solve.Dot(r, v, 0, 1) == Complex(x0 * v[0].re, x0 * v[0].im);
    assert Solve.Dot(r, v, 0, 2) == Complex(x0 * v[0].re + x1 * v[1].re, x0 * v[0].im + x1 * v[1].im);
  }

  /** A real row of three that sends v to zero: two real equations. */
  lemma RowZeroThree(r: seq<Complex>, v: seq<Complex>, x0: real, x1: real, x2: real)
    requires r == [R(x0), R(x1), R(x2)] && |v| == 3 && Solve.Dot(r, v, 0, 3) == ZERO
    ensures RowSendsThree(x0, x1, x2, v[0].re, v[1].re, v[2].re, 0.0)
    ensures RowSendsThree(x0, x1, x2, v[0].im, v[1].im, v[2].im, 0.0)
  {
    RowDotThree(r, v, x0, x1, x2);
  }

  /** The real row (x0, x1, x2) sends (p0, p1, p2) to q. */
  predicate RowSendsThree(x0: real, x1: real, x2: real, p0: real, p1: real, p2: real, q: real) {
    x0 * p0 + x1 * p1 + x2 * p2 == q
  }

  /** [1 1 -1; -2 0 1; 0 2 1] sends (p0, p1, p2) to zero. */
  predicate InvSystemZero(p0: real, p1: real, p2: real) {
    RowSendsThree(1.0, 1.0, -1.0, p0, p1, p2, 0.0)
    && RowSendsThree(-2.0, 0.0, 1.0, p0, p1, p2, 0.0)
    && RowSendsThree(0.0, 2.0, 1.0, p0, p1, p2, 0.0)
  }

  /** [1 1 -1; -2 0 1; 0 2 1] is nonsingular: only zero goes to zero. */
  lemma InvSystemZeroOnly(p0: real, p1: real, p2: real)
    requires InvSystemZero(p0, p1, p2)
    ensures p0 == 0.0 && p1 == 0.0 && p2 == 0.0
  {
  }

  /** The rows of [1 1 -1; -2 0 1; 0 2 1] sending v to zero, as six real equations. */
  lemma InvEquations(a: Grid, v: seq<Complex>)
    requires a == [[R(1.0), R(1.0), R(-1.0)], [R(-2.0), R(0.0), R(1.0)], [R(0.0), R(2.0), R(1.0)]]
    requires |v| == 3 && SendsTo(a, v, [ZERO, ZERO, ZERO])
    ensures InvSystemZero(v[0].re, v[1].re, v[2].re) && InvSystemZero(v[0].im, v[1].im, v[2].im)
  {
    RowZeroThree(a[0], v, 1.0, 1.0, -1.0);
    RowZeroThree(a[1], v, -2.0, 0.0, 1.0);
    RowZeroThree(a[2], v, 0.0, 2.0, 1.0);
  }

  /** [1 1 -1; -2 0 1; 0 2 1] sends only zero to zero. */
  lemma InvKernel(a: Grid)
    requires a == [[R(1.0), R(1.0), R(-1.0)], [R(-2.0), R(0.0), R(1.0)], [R(0.0), R(2.0), R(1.0)]]
    ensures Solve.TrivialKernel(a, 3)
  {
    forall v: seq<Complex> | Solve.Annihilates(a, v, 3)
      ensures forall j :: 0 <= j < 3 ==> v[j] == ZERO
    {
      AnnihilatesSends(a, v, [ZERO, ZERO, ZERO]);
      InvEquations(a, v);
      InvSystemZeroOnly(v[0].re, v[1].re, v[2].re);
      InvSystemZeroOnly(v[0].im, v[1].im, v[2].im);
    }
  }

  /** test/LinearAlgebra.js, linsolve: the 4x4 system has the solution [1; -1; 3; -2]. */
  method LinsolveSystem(a: Grid, b: Grid) returns (x: Grid)
    requires a == [[R(2.0), R(1.0), R(3.0), R(4.0)], [R(3.0), R(2.0), R(5.0), R(2.0)],
                   [R(3.0), R(4.0), R(1.0), R(-1.0)], [R(-1.0), R(-3.0), R(1.0), R(3.0)]]
    requires b == [[R(2.0)], [R(12.0)], [R(4.0)], [R(-1.0)]]
    ensures x == [[R(1.0)], [R(-1.0)], [R(3.0)], [R(-2.0)]]
  {
    SystemKernel(a);
    var res := Solve.Linsolve(a, b);
    x := res.value;
    SystemSolution(a, b, x);
  }

  /** [1 1 -1; -2 0 1; 0 2 1] is square and not diagonal, so inv takes Gauss-Jordan. */
  lemma NotDiagonal(a: Grid)
    requires a == [[R(1.0), R(1.0), R(-1.0)], [R(-2.0), R(0.0), R(1.0)], [R(0.0), R(2.0), R(1.0)]]
    ensures IsRect(a) && |a| == Cols(a) == 3 && !GridTests.DiagonalGrid(a, GridTests.MatTol(0.0))
  {
    assert !IsZero(a[0][1], GridTests.MatTol(0.0));
  }

  /** test/LinearAlgebra.js, testINV: inv(X) succeeds and inv(X)·X is the identity. */
  method InvSystem(a: Grid) returns (y: Grid)
    requires a == [[R(1.0), R(1.0), R(-1.0)], [R(-2.0), R(0.0), R(1.0)], [R(0.0), R(2.0), R(1.0)]]
    ensures IsRect(y) && Cols(y) == 3 && MatMul(y, a) == Eye(3, 3)
  {
    InvKernel(a);
    NotDiagonal(a);
    var res := Inverse.Inv(a);
    y := res.value;
  }
}
