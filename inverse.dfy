/**
 * inv of LinearAlgebra: the reciprocal of a scalar, the reciprocal diagonal
 * of a diagonal matrix, and otherwise Gauss–Jordan elimination of [X | I].
 * Each row operation keeps "left half == right half · X", so once the left
 * half is the identity the right half is a left inverse of X.
 */
module Inverse {
  import opened Wrappers
  import opened ComplexNum
  import opened Grid
  import GridTests
  import Elimination
  import Solve
  import Determinant
  import Products
  import Vectors

  const NOT_SQUARE: string := Determinant.NOT_SQUARE
  const NON_FINITE: string := Solve.NON_FINITE

  // ---------------------------------------------------------------------
  // The Gauss–Jordan loop as a function of its state
  // ---------------------------------------------------------------------

  /** [X | I]. */
  function Augmented(x: Grid): (m: Grid)
    requires IsRect(x) && |x| == Cols(x)
    ensures IsRect(m) && Shape(m, |x|, 2 * |x|) && Cols(m) == 2 * |x|
    ensures forall i, j :: 0 <= i < |x| && 0 <= j < 2 * |x| ==>
      m[i][j] == if j < |x| then x[i][j] else if j - |x| == i then ONE else ZERO
  {
    ShapeRect(Eye(|x|, |x|), |x|, |x|);
    ConcatRight(x, Eye(|x|, |x|))
  }

  /** Columns n .. 2n - 1 of every row. */
  function RightHalf(m: Grid, n: nat): (y: Grid)
    requires Shape(m, n, 2 * n)
    ensures Shape(y, n, n)
    ensures forall i, j :: 0 <= i < n && 0 <= j < n ==> y[i][j] == m[i][n + j]
  {
    seq(n, i requires 0 <= i < n => m[i][n..2 * n])
  }

  /** Every row other than k, from column k on, less row k times its own entry in column k. */
  function EliminatedOf(m: Grid, k: nat): (t: Grid)
    requires IsRect(m) && k < |m| && k < Cols(m)
    ensures IsRect(t) && Shape(t, |m|, Cols(m)) && Cols(t) == Cols(m) && t[k] == m[k]
    ensures forall i, j :: 0 <= i < |m| && i != k && 0 <= j < Cols(m) ==>
      t[i][j] == if j < k then m[i][j] else Sub(m[i][j], Mul(m[k][j], m[i][k]))
  {
    seq(|m|, i requires 0 <= i < |m| =>
      if i == k then m[k]
      else seq(Cols(m), j requires 0 <= j < Cols(m) => if j < k then m[i][j] else Sub(m[i][j], Mul(m[k][j], m[i][k]))))
  }

  /**
   * The loop from column k on. Row k is exchanged with the row getMaxRowNumber
   * reports, normalised by the inverse of its pivot and subtracted from every
   * other row. With `always`, the rule as written, the exchange happens even
   * when no row from k on has a nonzero entry in column k, and the search then
   * answers row 0; without it, such a column is left in place, as lup does.
   */
  function GaussJordanOf(m: Grid, n: nat, k: nat, always: bool): Option<Grid>
    requires IsRect(m) && |m| == n && Cols(m) == 2 * n && k <= n
    decreases n - k
  {
    if k == n then Some(m)
    else
      var r := Elimination.MaxRowOf(m, k, k, n);
      var s := if always || r.max != 0.0 then SwapRows(m, k, r.index) else m;
      match ComplexNum.Inv(s[k][k])
      case None => None
      case Some(c) => GaussJordanOf(EliminatedOf(Elimination.ScaledRowOf(s, k, k, c), k), n, k + 1, always)
  }

  // ---------------------------------------------------------------------
  // The invariant: left half == right half · X
  // ---------------------------------------------------------------------

  /** row[n]·x[0][j] + ... + row[n+k-1]·x[k-1][j]. */
  function RightTimes(row: seq<Complex>, x: Grid, j: nat, n: nat, k: nat): Complex
    requires Shape(x, n, n) && j < n && k <= n && |row| == 2 * n
  {
    if k == 0 then ZERO else Add(RightTimes(row, x, j, n, k - 1), Mul(row[n + k - 1], x[k - 1][j]))
  }

  ghost predicate Consistent(row: seq<Complex>, x: Grid, n: nat) {
    Shape(x, n, n) && |row| == 2 * n && forall j :: 0 <= j < n ==> row[j] == RightTimes(row, x, j, n, n)
  }

  ghost predicate Tracks(m: Grid, x: Grid, n: nat) {
    Shape(m, n, 2 * n) && forall i :: 0 <= i < n ==> Consistent(m[i], x, n)
  }

  /** The first k columns are those of the identity. */
  ghost predicate Reduced(m: Grid, n: nat, k: nat) {
    k <= n && Shape(m, n, 2 * n)
    && forall i, j :: 0 <= i < n && 0 <= j < k ==> m[i][j] == if i == j then ONE else ZERO
  }

  lemma {:induction false} RightTimesScale(r: seq<Complex>, s: seq<Complex>, x: Grid, c: Complex, j: nat, n: nat, k: nat)
    requires Shape(x, n, n) && j < n && k <= n && |r| == 2 * n && |s| == 2 * n
    requires forall q :: n <= q < n + k ==> s[q] == Mul(r[q], c)
    ensures RightTimes(s, x, j, n, k) == Mul(RightTimes(r, x, j, n, k), c)
  {
    if k > 0 {
      RightTimesScale(r, s, x, c, j, n, k - 1);
      Solve.MulRightSwap(r[n + k - 1], x[k - 1][j], c);
      Solve.MulRightDistributes(RightTimes(r, x, j, n, k - 1), Mul(r[n + k - 1], x[k - 1][j]), c);
    }
  }

  lemma {:induction false} RightTimesEliminate(r: seq<Complex>, p: seq<Complex>, s: seq<Complex>, x: Grid, f: Complex, j: nat, n: nat, k: nat)
    requires Shape(x, n, n) && j < n && k <= n && |r| == 2 * n && |p| == 2 * n && |s| == 2 * n
    requires forall q :: n <= q < n + k ==> s[q] == Sub(r[q], Mul(p[q], f))
    ensures RightTimes(s, x, j, n, k) == Sub(RightTimes(r, x, j, n, k), Mul(RightTimes(p, x, j, n, k), f))
  {
    if k > 0 {
      RightTimesEliminate(r, p, s, x, f, j, n, k - 1);
      var q := n + k - 1;
      var b := x[k - 1][j];
      Solve.MulRightDistributes(r[q], Mul(p[q], f), b);
      Solve.MulRightSwap(p[q], b, f);
      Solve.MulRightDistributes(RightTimes(p, x, j, n, k - 1), Mul(p[q], b), f);
    }
  }

  lemma ScaleConsistent(r: seq<Complex>, s: seq<Complex>, x: Grid, c: Complex, n: nat)
    requires Consistent(r, x, n) && |s| == 2 * n
    requires forall q :: 0 <= q < 2 * n ==> s[q] == Mul(r[q], c)
    ensures Consistent(s, x, n)
  {
    forall j | 0 <= j < n
      ensures s[j] == RightTimes(s, x, j, n, n)
    {
      RightTimesScale(r, s, x, c, j, n, n);
    }
  }

  lemma EliminateConsistent(r: seq<Complex>, p: seq<Complex>, s: seq<Complex>, x: Grid, f: Complex, n: nat)
    requires Consistent(r, x, n) && Consistent(p, x, n) && |s| == 2 * n
    requires forall q :: 0 <= q < 2 * n ==> s[q] == Sub(r[q], Mul(p[q], f))
    ensures Consistent(s, x, n)
  {
    forall j | 0 <= j < n
      ensures s[j] == RightTimes(s, x, j, n, n)
    {
      RightTimesEliminate(r, p, s, x, f, j, n, n);
    }
  }

  lemma SwapKeeps(x: Grid, m: Grid, n: nat, k: nat, p: nat)
    requires Tracks(m, x, n) && Reduced(m, n, k) && k <= p < n
    ensures Tracks(SwapRows(m, k, p), x, n) && Reduced(SwapRows(m, k, p), n, k)
  {
    var s := SwapRows(m, k, p);
    forall i | 0 <= i < n
      ensures Consistent(s[i], x, n)
    {
      var o := if i == k then p else if i == p then k else i;
      assert s[i] == m[o];
    }
    forall i, j | 0 <= i < n && 0 <= j < k
      ensures s[i][j] == if i == j then ONE else ZERO
    {
      var o := if i == k then p else if i == p then k else i;
      assert s[i] == m[o];
    }
  }

  lemma NormalizeKeeps(x: Grid, s: Grid, n: nat, k: nat, c: Complex)
    requires Tracks(s, x, n) && Reduced(s, n, k) && IsRect(s) && k < n
    requires s[k][k] != ZERO && c == ComplexNum.Inv(s[k][k]).value
    ensures Tracks(Elimination.ScaledRowOf(s, k, k, c), x, n) && Reduced(Elimination.ScaledRowOf(s, k, k, c), n, k)
    ensures Elimination.ScaledRowOf(s, k, k, c)[k][k] == ONE
  {
    var u := Elimination.ScaledRowOf(s, k, k, c);
    forall q | 0 <= q < 2 * n
      ensures u[k][q] == Mul(s[k][q], c)
    {
      if q < k {
        assert s[k][q] == ZERO;
      }
    }
    ScaleConsistent(s[k], u[k], x, c, n);
    forall i | 0 <= i < n
      ensures Consistent(u[i], x, n)
    {
      if i != k {
        assert u[i] == s[i];
      }
    }
    InvDiv(ONE, s[k][k]);
    RingLaws(s[k][k], c, ZERO);
  }

  lemma EliminateKeeps(x: Grid, u: Grid, n: nat, k: nat)
    requires Tracks(u, x, n) && Reduced(u, n, k) && IsRect(u) && k < n && u[k][k] == ONE
    ensures Tracks(EliminatedOf(u, k), x, n) && Reduced(EliminatedOf(u, k), n, k + 1)
  {
    var t := EliminatedOf(u, k);
    forall i | 0 <= i < n
      ensures Consistent(t[i], x, n)
    {
      if i != k {
        var f := u[i][k];
        forall q | 0 <= q < 2 * n
          ensures t[i][q] == Sub(u[i][q], Mul(u[k][q], f))
        {
          if q < k {
            assert u[k][q] == ZERO;
          }
        }
        EliminateConsistent(u[i], u[k], t[i], x, f, n);
      }
    }
    forall i | 0 <= i < n && i != k
      ensures t[i][k] == ZERO
    {
      assert Mul(ONE, u[i][k]) == u[i][k];
    }
  }

  lemma StepKeeps(x: Grid, m: Grid, s: Grid, n: nat, k: nat, p: nat, c: Complex)
    requires IsRect(m) && Tracks(m, x, n) && Reduced(m, n, k) && k <= p < n
    requires s == m || s == SwapRows(m, k, p)
    requires s[k][k] != ZERO && c == ComplexNum.Inv(s[k][k]).value
    ensures IsRect(s) && Cols(s) == 2 * n
    ensures Tracks(EliminatedOf(Elimination.ScaledRowOf(s, k, k, c), k), x, n)
    ensures Reduced(EliminatedOf(Elimination.ScaledRowOf(s, k, k, c), k), n, k + 1)
  {
    SwapKeeps(x, m, n, k, p);
    ShapeRect(s, n, 2 * n);
    NormalizeKeeps(x, s, n, k, c);
    EliminateKeeps(x, Elimination.ScaledRowOf(s, k, k, c), n, k);
  }

  lemma {:induction false} GaussJordanKeeps(x: Grid, m: Grid, n: nat, k: nat, r: Grid)
    requires IsRect(m) && |m| == n && Cols(m) == 2 * n && k <= n
    requires Tracks(m, x, n) && Reduced(m, n, k)
    requires GaussJordanOf(m, n, k, false) == Some(r)
    ensures Tracks(r, x, n) && Reduced(r, n, n)
    decreases n - k
  {
    if k < n {
      var rm := Elimination.MaxRowOf(m, k, k, n);
      var p := if rm.max != 0.0 then rm.index else k;
      var s := if rm.max != 0.0 then SwapRows(m, k, rm.index) else m;
      var c := ComplexNum.Inv(s[k][k]).value;
      StepKeeps(x, m, s, n, k, p, c);
      GaussJordanKeeps(x, EliminatedOf(Elimination.ScaledRowOf(s, k, k, c), k), n, k + 1, r);
    }
  }

  lemma {:induction false} UnitRightTimes(row: seq<Complex>, x: Grid, i: nat, j: nat, n: nat, k: nat)
    requires Shape(x, n, n) && i < n && j < n && k <= n && |row| == 2 * n
    requires forall q :: n <= q < 2 * n ==> row[q] == if q == n + i then ONE else ZERO
    ensures RightTimes(row, x, j, n, k) == if i < k then x[i][j] else ZERO
  {
    if k > 0 {
      UnitRightTimes(row, x, i, j, n, k - 1);
    }
  }

  lemma InitialTracks(x: Grid)
    requires IsRect(x) && |x| == Cols(x)
    ensures Tracks(Augmented(x), x, |x|) && Reduced(Augmented(x), |x|, 0)
  {
    var n := |x|;
    var m := Augmented(x);
    forall i | 0 <= i < n
      ensures Consistent(m[i], x, n)
    {
      forall j | 0 <= j < n
        ensures m[i][j] == RightTimes(m[i], x, j, n, n)
      {
        UnitRightTimes(m[i], x, i, j, n, n);
      }
    }
  }

  lemma {:induction false} RightHalfTimes(m: Grid, x: Grid, n: nat, i: nat, j: nat, k: nat)
    requires Shape(m, n, 2 * n) && IsRect(x) && Shape(x, n, n) && i < n && j < n && k <= n
    ensures RowColumn(RightHalf(m, n), x, i, j, k) == RightTimes(m[i], x, j, n, k)
  {
    if k > 0 {
      RightHalfTimes(m, x, n, i, j, k - 1);
    }
  }

  lemma InverseProduct(x: Grid, r: Grid, n: nat)
    requires IsRect(x) && |x| == Cols(x) == n && Tracks(r, x, n) && Reduced(r, n, n)
    ensures IsRect(RightHalf(r, n)) && MatMul(RightHalf(r, n), x) == Eye(n, n)
  {
    var y := RightHalf(r, n);
    ShapeRect(y, n, n);
    var p := MatMul(y, x);
    var e := Eye(n, n);
    forall i | 0 <= i < n
      ensures p[i] == e[i]
    {
      forall j | 0 <= j < n
        ensures p[i][j] == e[i][j]
      {
        RightHalfTimes(r, x, n, i, j, n);
        assert Consistent(r[i], x, n);
      }
    }
  }

  /** Whatever the corrected loop returns, its right half times X is the identity. */
  lemma GaussJordanInverts(x: Grid, r: Grid)
    requires IsRect(x) && |x| == Cols(x)
    requires GaussJordanOf(Augmented(x), |x|, 0, false) == Some(r)
    ensures Shape(r, |x|, 2 * |x|) && IsRect(RightHalf(r, |x|)) && MatMul(RightHalf(r, |x|), x) == Eye(|x|, |x|)
  {
    InitialTracks(x);
    GaussJordanKeeps(x, Augmented(x), |x|, 0, r);
    InverseProduct(x, r, |x|);
  }

  // ---------------------------------------------------------------------
  // When the loop succeeds: exactly when X is nonsingular
  // ---------------------------------------------------------------------

  /** A zero maximum stands for a zero column; a nonzero one is the modulus of a nonzero cell. */
  lemma {:induction false} MaxRowOfMeaning(m: Grid, col: nat, offset: nat, row: nat)
    requires IsRect(m) && col < Cols(m) && row <= |m|
    ensures var r := Elimination.MaxRowOf(m, col, offset, row);
      r.max >= 0.0
      && (r.max == 0.0 ==> forall i :: offset <= i < row ==> m[i][col] == ZERO)
      && (r.max != 0.0 ==> m[r.index][col] != ZERO)
    decreases row
  {
    if row > offset {
      MaxRowOfMeaning(m, col, offset, row - 1);
      var r := Elimination.MaxRowOf(m, col, offset, row - 1);
      var cell := m[row - 1][col];
      if NormSq(cell) <= r.max && r.max == 0.0 {
        Elimination.NotAboveZero(cell, r.max);
      } else if NormSq(cell) > r.max {
        assert cell != ZERO;
      }
    }
  }

  /** Clearing column k with the unit row k keeps the kernel of the left half. */
  lemma EliminatedKernel(m: Grid, n: nat, k: nat, v: seq<Complex>)
    requires IsRect(m) && Reduced(m, n, k) && k < n && m[k][k] == ONE
    ensures Solve.Annihilates(EliminatedOf(m, k), v, n) <==> Solve.Annihilates(m, v, n)
  {
    var t := EliminatedOf(m, k);
    if |v| == n && Solve.Dot(m[k], v, 0, n) == ZERO {
      forall i | 0 <= i < n && i != k
        ensures Solve.Dot(t[i], v, 0, n) == Solve.Dot(m[i], v, 0, n)
      {
        var f := m[i][k];
        forall q | 0 <= q < n
          ensures t[i][q] == Sub(m[i][q], Mul(m[k][q], f))
        {
          if q < k {
            assert m[k][q] == ZERO;
          }
        }
        Solve.DotEliminate(m[i], m[k], t[i], v, f, 0, n);
        assert Mul(ZERO, f) == ZERO;
      }
    }
  }

  /** One step of the loop keeps the kernel of the left half. */
  lemma StepKernel(x: Grid, m: Grid, s: Grid, n: nat, k: nat, p: nat, c: Complex)
    requires IsRect(m) && Tracks(m, x, n) && Reduced(m, n, k) && k <= p < n
    requires Solve.SameKernel(x, m, n)
    requires s == m || s == SwapRows(m, k, p)
    requires s[k][k] != ZERO && c == ComplexNum.Inv(s[k][k]).value
    ensures IsRect(s) && Cols(s) == 2 * n
    ensures Solve.SameKernel(x, EliminatedOf(Elimination.ScaledRowOf(s, k, k, c), k), n)
  {
    SwapKeeps(x, m, n, k, p);
    ShapeRect(s, n, 2 * n);
    NormalizeKeeps(x, s, n, k, c);
    var u := Elimination.ScaledRowOf(s, k, k, c);
    assert c != ZERO by {
      InvDiv(ONE, s[k][k]);
      assert Mul(ZERO, s[k][k]) == ZERO;
    }
    forall v
      ensures Solve.Annihilates(EliminatedOf(u, k), v, n) <==> Solve.Annihilates(x, v, n)
    {
      Solve.SwapKernel(m, k, p, v, n);
      Solve.ScaleKernel(s, u, k, c, v, n);
      EliminatedKernel(u, n, k, v);
    }
  }

  /**
   * A reduction whose column k has nothing left from row k down sends a
   * nonzero vector to zero: the left half cut to n + 1 columns is upper
   * triangular there with a unit diagonal before k.
   */
  lemma ZeroPivotKernel(m: Grid, n: nat, k: nat)
    requires Reduced(m, n, k) && k < n
    requires forall i :: k <= i < n ==> m[i][k] == ZERO
    ensures !Solve.TrivialKernel(m, n)
  {
    var h := seq(n, i requires 0 <= i < n => m[i][..n + 1]);
    Solve.ZeroColumnKernel(h, n, k);
    forall v | Solve.Annihilates(h, v, n)
      ensures Solve.Annihilates(m, v, n)
    {
      forall i | 0 <= i < n
        ensures Solve.Dot(m[i], v, 0, n) == ZERO
      {
        Solve.DotExt(m[i], h[i], v, v, 0, n);
      }
    }
  }

  /** From a reduction that shares the kernel of a nonsingular X, the loop never meets a zero pivot. */
  lemma {:induction false} GaussJordanSucceeds(x: Grid, m: Grid, n: nat, k: nat)
    requires IsRect(m) && |m| == n && Cols(m) == 2 * n && k <= n
    requires Tracks(m, x, n) && Reduced(m, n, k)
    requires Solve.SameKernel(x, m, n) && Solve.TrivialKernel(x, n)
    ensures GaussJordanOf(m, n, k, false).Some?
    decreases n - k
  {
    if k < n {
      var rm := Elimination.MaxRowOf(m, k, k, n);
      MaxRowOfMeaning(m, k, k, n);
      if rm.max == 0.0 {
        ZeroPivotKernel(m, n, k);
        Solve.KernelShared(x, m, n);
        assert false;
      }
      var s := SwapRows(m, k, rm.index);
      var c := ComplexNum.Inv(s[k][k]).value;
      StepKeeps(x, m, s, n, k, rm.index, c);
      StepKernel(x, m, s, n, k, rm.index, c);
      GaussJordanSucceeds(x, EliminatedOf(Elimination.ScaledRowOf(s, k, k, c), k), n, k + 1);
    }
  }

  /** A matrix with a left inverse sends only zero to zero. */
  lemma LeftInverseKernel(c: Grid, a: Grid)
    requires IsRect(a) && IsRect(c) && |a| == Cols(a) && Cols(c) == |a|
    requires MatMul(c, a) == Eye(|a|, |a|)
    ensures Solve.TrivialKernel(a, |a|)
  {
    var n := |a|;
    forall v | Solve.Annihilates(a, v, n)
      ensures forall j :: 0 <= j < n ==> v[j] == ZERO
    {
      var col := seq(n, i requires 0 <= i < n => [v[i]]);
      var zero := seq(n, i requires 0 <= i < n => [ZERO]);
      ShapeRect(col, n, 1);
      ShapeRect(zero, n, 1);
      forall i | 0 <= i < n
        ensures MatMul(a, col)[i] == MatMul(a, zero)[i]
      {
        Solve.RowColumnDot(a, col, v, i, n);
        Solve.RowColumnDot(a, zero, Vectors.Zeros(n), i, n);
        Solve.DotZeroRight(a[i], Vectors.Zeros(n), 0, n);
      }
      LeftCancel(c, a, col, zero);
      forall j | 0 <= j < n
        ensures v[j] == ZERO
      {
        assert col[j][0] == zero[j][0];
      }
    }
  }

  /** A left inverse cancels on the left: c·a == I and a·u == a·w give u == w. */
  lemma LeftCancel(c: Grid, a: Grid, u: Grid, w: Grid)
    requires IsRect(a) && IsRect(c) && IsRect(u) && IsRect(w)
    requires Cols(c) == |a| && Cols(a) == |u| == |w| && Cols(u) == Cols(w)
    requires MatMul(c, a) == Eye(Cols(a), Cols(a))
    requires MatMul(a, u) == MatMul(a, w)
    ensures u == w
  {
    Products.MatMulAssoc(c, a, u);
    Products.MatMulAssoc(c, a, w);
    Products.MatMulEye(u);
    Products.MatMulEye(w);
  }

  /** The corrected loop runs to the end exactly when X is nonsingular. */
  lemma GaussJordanNonsingular(x: Grid)
    requires IsRect(x) && |x| == Cols(x)
    ensures GaussJordanOf(Augmented(x), |x|, 0, false).Some? <==> Solve.TrivialKernel(x, |x|)
  {
    var n := |x|;
    var m := Augmented(x);
    match GaussJordanOf(m, n, 0, false)
    case Some(r) =>
      GaussJordanInverts(x, r);
      LeftInverseKernel(RightHalf(r, n), x);
    case None =>
      if Solve.TrivialKernel(x, n) {
        InitialTracks(x);
        ShapeRect(Eye(n, n), n, n);
        Solve.AugmentedKernel(x, Eye(n, n), n);
        GaussJordanSucceeds(x, m, n, 0);
      }
  }

  // ---------------------------------------------------------------------
  // The diagonal path
  // ---------------------------------------------------------------------

  /** X.T() with each diagonal entry inverted, as written: T() is the conjugate transpose. */
  function DiagonalInverseAsWritten(x: Grid): Result<Grid>
    requires IsRect(x) && |x| == Cols(x)
  {
    if forall i :: 0 <= i < |x| ==> x[i][i] != ZERO then
      Ok(seq(|x|, i requires 0 <= i < |x| => seq(|x|, j requires 0 <= j < |x| =>
        if i == j then ComplexNum.Inv(Conj(x[i][i])).value else Conj(x[j][i]))))
    else Err(NON_FINITE)
  }

  /** The transpose with each diagonal entry inverted. */
  function DiagonalInverse(x: Grid): Result<Grid>
    requires IsRect(x) && |x| == Cols(x)
  {
    if forall i :: 0 <= i < |x| ==> x[i][i] != ZERO then
      Ok(seq(|x|, i requires 0 <= i < |x| => seq(|x|, j requires 0 <= j < |x| =>
        if i == j then ComplexNum.Inv(x[i][i]).value else x[j][i])))
    else Err(NON_FINITE)
  }

  lemma {:induction false} RowColumnSingle(a: Grid, b: Grid, i: nat, j: nat, s: nat, k: nat)
    requires IsRect(b) && j < Cols(b) && i < |a| && k <= |a[i]| && k <= |b| && s < |a[i]| && s < |b|
    requires forall q :: 0 <= q < k && q != s ==> a[i][q] == ZERO
    ensures RowColumn(a, b, i, j, k) == if s < k then Mul(a[i][s], b[s][j]) else ZERO
  {
    if k > 0 {
      RowColumnSingle(a, b, i, j, s, k - 1);
    }
  }

  /** An exactly diagonal matrix with a nonzero diagonal: the result is its inverse. */
  lemma DiagonalInverseExact(x: Grid)
    requires IsRect(x) && |x| == Cols(x)
    requires forall i, j :: 0 <= i < |x| && 0 <= j < |x| && i != j ==> x[i][j] == ZERO
    requires forall i :: 0 <= i < |x| ==> x[i][i] != ZERO
    ensures DiagonalInverse(x).Ok? && IsRect(DiagonalInverse(x).value)
    ensures MatMul(DiagonalInverse(x).value, x) == Eye(|x|, |x|)
  {
    var n := |x|;
    var y := DiagonalInverse(x).value;
    assert Shape(y, n, n);
    ShapeRect(y, n, n);
    var p := MatMul(y, x);
    var e := Eye(n, n);
    forall i | 0 <= i < n
      ensures p[i] == e[i]
    {
      forall j | 0 <= j < n
        ensures p[i][j] == e[i][j]
      {
        RowColumnSingle(y, x, i, j, i, n);
        InvDiv(ONE, x[i][i]);
      }
    }
  }

  // ---------------------------------------------------------------------
  // inv
  // ---------------------------------------------------------------------

  /** ONE.div(x) of the scalar case. */
  function ScalarInverse(a: Complex): Result<Grid> {
    match Div(ONE, a)
    case None => Err(NON_FINITE)
    case Some(v) => Ok([[v]])
  }

  lemma ScalarInverseProduct(x: Grid)
    requires IsRect(x) && |x| == 1 && Cols(x) == 1 && x[0][0] != ZERO
    ensures ScalarInverse(x[0][0]).Ok? && IsRect(ScalarInverse(x[0][0]).value)
    ensures MatMul(ScalarInverse(x[0][0]).value, x) == Eye(1, 1)
  {
    var y := ScalarInverse(x[0][0]).value;
    DivRoundTrip(ONE, x[0][0]);
    assert RowColumn(y, x, 0, 0, 1) == Add(ZERO, Mul(y[0][0], x[0][0]));
    assert MatMul(y, x)[0] == Eye(1, 1)[0];
  }

  /** Every row but k: from column k on, less row k times the row's own entry in column k. */
  method EliminateOthers(m: Grid, k: nat) returns (t: Grid)
    requires IsRect(m) && k < |m| && k < Cols(m)
    ensures t == EliminatedOf(m, k)
  {
    ghost var e := EliminatedOf(m, k);
    t := m;
    var row := 0;
    while row < |m|
      invariant row <= |m| && IsRect(t) && Shape(t, |m|, Cols(m)) && Cols(t) == Cols(m)
      invariant forall i :: 0 <= i < |m| ==> t[i] == if i < row then e[i] else m[i]
    {
      if row != k {
        var temp := t[row][k];
        t := Elimination.EliminateRow(t, row, k, k, temp);
        assert t[row] == e[row];
      }
      row := row + 1;
    }
  }

  /** The Gauss–Jordan loop, exchanging only when the pivot search finds a nonzero entry. */
  method GaussJordan(x: Grid) returns (res: Option<Grid>)
    requires IsRect(x) && |x| == Cols(x)
    ensures res == GaussJordanOf(Augmented(x), |x|, 0, false)
  {
    var n := |x|;
    ShapeRect(Eye(n, n), n, n);
    var m := ConcatRight(x, Eye(n, n));
    ghost var goal := GaussJordanOf(m, n, 0, false);
    var k := 0;
    while k < n
      invariant k <= n && IsRect(m) && |m| == n && Cols(m) == 2 * n
      invariant GaussJordanOf(m, n, k, false) == goal
    {
      var ok, t := GaussJordanStep(m, n, k);
      if !ok {
        return None;
      }
      m, k := t, k + 1;
    }
    return Some(m);
  }

  /** Column k: exchange, normalise, eliminate; false when the pivot is zero. */
  method GaussJordanStep(m: Grid, n: nat, k: nat) returns (ok: bool, t: Grid)
    requires IsRect(m) && |m| == n && Cols(m) == 2 * n && k < n
    ensures ok ==> IsRect(t) && |t| == n && Cols(t) == 2 * n
    ensures ok ==> GaussJordanOf(t, n, k + 1, false) == GaussJordanOf(m, n, k, false)
    ensures !ok ==> GaussJordanOf(m, n, k, false) == None
  {
    var r := Elimination.MaxRowNumber(m, k, k, 0);
    var s := m;
    if r.max != 0.0 {
      s := SwapRows(m, k, r.index);
    }
    SwapShape(m, k, r.index);
    GaussJordanUnfold(m, n, k, r, s);
    var c := ComplexNum.Inv(s[k][k]);
    if c.None? {
      return false, m;
    }
    var u := Elimination.ScaleRow(s, k, k, c.value);
    t := EliminateOthers(u, k);
    ok := true;
  }

  lemma SwapShape(m: Grid, a: nat, b: nat)
    requires IsRect(m) && a < |m| && b < |m|
    ensures IsRect(SwapRows(m, a, b)) && Cols(SwapRows(m, a, b)) == Cols(m)
  {
    var s := SwapRows(m, a, b);
    assert forall i :: 0 <= i < |m| ==> |s[i]| == Cols(m);
  }

  /** One step of GaussJordanOf, without the exchange when the column is zero. */
  lemma GaussJordanUnfold(m: Grid, n: nat, k: nat, r: Elimination.RowMax, s: Grid)
    requires IsRect(m) && |m| == n && Cols(m) == 2 * n && k < n
    requires r == Elimination.MaxRowOf(m, k, k, Elimination.RowEnd(m, 0))
    requires s == if r.max != 0.0 then SwapRows(m, k, r.index) else m
    requires IsRect(s) && Cols(s) == 2 * n
    ensures ComplexNum.Inv(s[k][k]).None? ==> GaussJordanOf(m, n, k, false) == None
    ensures ComplexNum.Inv(s[k][k]).Some? ==>
      GaussJordanOf(m, n, k, false)
      == GaussJordanOf(EliminatedOf(Elimination.ScaledRowOf(s, k, k, ComplexNum.Inv(s[k][k]).value), k), n, k + 1, false)
  {
  }

  /** The diagonal path: the transpose, then each diagonal entry inverted in turn. */
  method DiagonalPath(x: Grid) returns (res: Result<Grid>)
    requires IsRect(x) && |x| == Cols(x)
    ensures res == DiagonalInverse(x)
  {
    var n := |x|;
    var y := Transpose(x);
    var i := 0;
    while i < n
      invariant i <= n && Shape(y, n, n)
      invariant forall p :: 0 <= p < i ==> x[p][p] != ZERO
      invariant forall p, q :: 0 <= p < n && 0 <= q < n ==> y[p][q] == if p == q && p < i then ComplexNum.Inv(x[p][p]).value else x[q][p]
    {
      var v := ComplexNum.Inv(y[i][i]);
      if v.None? {
        assert x[i][i] == ZERO;
        return Err(NON_FINITE);
      }
      y := y[i := y[i][i := v.value]];
      i := i + 1;
    }
    var d := DiagonalInverse(x);
    assert d.Ok?;
    forall p | 0 <= p < n
      ensures y[p] == d.value[p]
    {
      assert forall q :: 0 <= q < n ==> y[p][q] == d.value[p][q];
    }
    assert y == d.value;
    return Ok(y);
  }

  method Inv(x: Grid) returns (res: Result<Grid>)
    requires IsRect(x)
    ensures |x| == 1 && Cols(x) == 1 ==> res == ScalarInverse(x[0][0])
    ensures !(|x| == 1 && Cols(x) == 1) && |x| != Cols(x) ==> res == Err(NOT_SQUARE)
    ensures !(|x| == 1 && Cols(x) == 1) && |x| == Cols(x) && GridTests.DiagonalGrid(x, GridTests.MatTol(0.0)) ==>
      res == DiagonalInverse(x)
    ensures !(|x| == 1 && Cols(x) == 1) && |x| == Cols(x) && !GridTests.DiagonalGrid(x, GridTests.MatTol(0.0)) ==>
      (res.Err? ==> res.msg == NON_FINITE)
      && (res.Ok? ==> IsRect(res.value) && Cols(res.value) == |x| && MatMul(res.value, x) == Eye(|x|, |x|))
      && (res.Ok? <==> Solve.TrivialKernel(x, |x|))
  {
    if |x| == 1 && Cols(x) == 1 {
      return ScalarInverse(x[0][0]);
    }
    if |x| != Cols(x) {
      return Err(NOT_SQUARE);
    }
    if GridTests.DiagonalGrid(x, GridTests.MatTol(0.0)) {
      res := DiagonalPath(x);
      return;
    }
    var r := GaussJordan(x);
    GaussJordanNonsingular(x);
    if r.None? {
      return Err(NON_FINITE);
    }
    GaussJordanInverts(x, r.value);
    return Ok(RightHalf(r.value, |x|));
  }
}
