/**
 * The tolerance predicates of Matrix over its array. Every test but
 * isReal/isComplex replaces an omitted (zero) tolerance by 1e-10; the cell
 * tests themselves are Complex.isZero/isOne/isReal/equals.
 */
module GridTests {
  import opened ComplexNum
  import opened Grid
  import ComplexOrder

  /** `tolerance ? tolerance : 1.0e-10` */
  function MatTol(tolerance: real): (t: real)
    ensures t != 0.0 && (tolerance != 0.0 ==> t == tolerance)
  {
    if tolerance != 0.0 then tolerance else 1.0e-10
  }

  /** Every cell satisfies p, given its row and column. */
  predicate AllCells(m: Grid, p: (Complex, int, int) -> bool)
    requires IsRect(m)
  {
    forall i, j :: 0 <= i < |m| && 0 <= j < Cols(m) ==> p(m[i][j], i, j)
  }

  predicate ZerosGrid(m: Grid, t: real) requires IsRect(m) {
    forall i, j :: 0 <= i < |m| && 0 <= j < Cols(m) ==> IsZero(m[i][j], t)
  }

  predicate IdentityGrid(m: Grid, t: real) requires IsRect(m) {
    forall i, j :: 0 <= i < |m| && 0 <= j < Cols(m) ==> if i == j then IsOne(m[i][j], t) else IsZero(m[i][j], t)
  }

  predicate DiagonalGrid(m: Grid, t: real) requires IsRect(m) {
    forall i, j :: 0 <= i < |m| && 0 <= j < Cols(m) && i != j ==> IsZero(m[i][j], t)
  }

  predicate TridiagonalGrid(m: Grid, t: real) requires IsRect(m) {
    forall i, j :: 0 <= i < |m| && 0 <= j < Cols(m) && (i - j > 1 || j - i > 1) ==> IsZero(m[i][j], t)
  }

  predicate UpperGrid(m: Grid, t: real) requires IsRect(m) {
    forall i, j :: 0 <= i < |m| && 0 <= j < Cols(m) && i > j ==> IsZero(m[i][j], t)
  }

  predicate LowerGrid(m: Grid, t: real) requires IsRect(m) {
    forall i, j :: 0 <= i < |m| && 0 <= j < Cols(m) && i < j ==> IsZero(m[i][j], t)
  }

  predicate RealGrid(m: Grid, t: real) requires IsRect(m) {
    forall i, j :: 0 <= i < |m| && 0 <= j < Cols(m) ==> IsReal(m[i][j], t)
  }

  /** isSymmetric: square, and each cell above the diagonal equals its mirror image. */
  predicate SymmetricGrid(m: Grid, t: real) requires IsRect(m) {
    |m| == Cols(m)
    && forall i, j :: 0 <= i < j < |m| ==> ComplexOrder.Equals(m[i][j], m[j][i], t)
  }

  /** isHermitian: square, a real diagonal, and each cell above it equal to the conjugate of its mirror image. */
  predicate HermitianGrid(m: Grid, t: real) requires IsRect(m) {
    |m| == Cols(m)
    && (forall i :: 0 <= i < |m| ==> IsReal(m[i][i], t))
    && forall i, j :: 0 <= i < j < |m| ==> ComplexOrder.Equals(m[i][j], Conj(m[j][i]), t)
  }

  /**
   * isPermutation: square, every cell one or zero, no row and no column
   * holding two ones, and every row and column holding one.
   */
  ghost predicate PermutationGrid(m: Grid, t: real) requires IsRect(m) {
    |m| == Cols(m)
    && (forall i, j :: 0 <= i < |m| && 0 <= j < |m| ==> IsOne(m[i][j], t) || IsZero(m[i][j], t))
    && (forall i, j, k :: 0 <= i < |m| && 0 <= j < k < |m| ==> !(IsOne(m[i][j], t) && IsOne(m[i][k], t)))
    && (forall i, j, k :: 0 <= j < |m| && 0 <= i < k < |m| ==> !(IsOne(m[i][j], t) && IsOne(m[k][j], t)))
    && (forall i :: 0 <= i < |m| ==> RowHasOne(m, i, t))
    && (forall j :: 0 <= j < |m| ==> ColumnHasOne(m, j, t))
  }

  ghost predicate RowHasOne(m: Grid, i: int, t: real) requires 0 <= i < |m| {
    exists j :: 0 <= j < |m[i]| && IsOne(m[i][j], t)
  }

  ghost predicate ColumnHasOne(m: Grid, j: int, t: real) requires IsRect(m) && 0 <= j < Cols(m) {
    exists i :: 0 <= i < |m| && IsOne(m[i][j], t)
  }

  // ---------------------------------------------------------------------
  // The isPermutation scan, as a state and its steps
  // ---------------------------------------------------------------------

  /**
   * After scanning every cell before (row, col) of the n-by-n grid m: the
   * scanned cells are ones or zeros, each scanned one marked its row and
   * column, and each mark came from a scanned one (recorded in rw and cw).
   */
  ghost predicate PermScan(m: Grid, t: real, is_row: seq<bool>, is_col: seq<bool>, rw: seq<int>, cw: seq<int>, row: int, col: int)
    requires IsRect(m) && |m| == Cols(m)
  {
    var n := |m|;
    0 <= row <= n && 0 <= col <= n
    && |is_row| == n && |is_col| == n && |rw| == n && |cw| == n
    && (forall i, j :: 0 <= i < row && 0 <= j < n ==> IsOne(m[i][j], t) || IsZero(m[i][j], t))
    && (forall j :: row < n && 0 <= j < col ==> IsOne(m[row][j], t) || IsZero(m[row][j], t))
    && (forall i, j {:trigger IsOne(m[i][j], t)} :: 0 <= i < row && 0 <= j < n && IsOne(m[i][j], t) ==> is_row[i] && rw[i] == j && is_col[j] && cw[j] == i)
    && (forall j {:trigger IsOne(m[row][j], t)} :: row < n && 0 <= j < col && IsOne(m[row][j], t) ==> is_row[row] && rw[row] == j && is_col[j] && cw[j] == row)
    && (forall i :: 0 <= i < n && is_row[i] ==> 0 <= rw[i] < n && IsOne(m[i][rw[i]], t) && (i < row || (i == row && rw[i] < col)))
    && (forall j :: 0 <= j < n && is_col[j] ==> 0 <= cw[j] < n && IsOne(m[cw[j]][j], t) && (cw[j] < row || (cw[j] == row && j < col)))
  }

  lemma PermScanStart(m: Grid, t: real)
    requires IsRect(m) && |m| == Cols(m)
    ensures PermScan(m, t, seq(|m|, _ => false), seq(|m|, _ => false), seq(|m|, _ => 0), seq(|m|, _ => 0), 0, 0)
  {
  }

  lemma PermScanNextRow(m: Grid, t: real, is_row: seq<bool>, is_col: seq<bool>, rw: seq<int>, cw: seq<int>, row: int)
    requires IsRect(m) && |m| == Cols(m)
    requires row < |m| && PermScan(m, t, is_row, is_col, rw, cw, row, |m|)
    ensures PermScan(m, t, is_row, is_col, rw, cw, row + 1, 0)
  {
    var n := |m|;
    forall i, j | 0 <= i < row + 1 && 0 <= j < n
      ensures IsOne(m[i][j], t) || IsZero(m[i][j], t)
      ensures IsOne(m[i][j], t) ==> is_row[i] && rw[i] == j && is_col[j] && cw[j] == i
    {
      if i == row {
        assert row < n && 0 <= j < |m|;
      }
    }
  }

  /** A zero cell is passed over. */
  lemma PermScanZero(m: Grid, t: real, is_row: seq<bool>, is_col: seq<bool>, rw: seq<int>, cw: seq<int>, row: int, col: int)
    requires IsRect(m) && |m| == Cols(m) && 0 <= row < |m| && 0 <= col < |m|
    requires PermScan(m, t, is_row, is_col, rw, cw, row, col)
    requires !IsOne(m[row][col], t) && IsZero(m[row][col], t)
    ensures PermScan(m, t, is_row, is_col, rw, cw, row, col + 1)
  {
  }

  /** A one in an unmarked row and column marks both. */
  lemma PermScanOne(m: Grid, t: real, is_row: seq<bool>, is_col: seq<bool>, rw: seq<int>, cw: seq<int>, row: int, col: int)
    requires IsRect(m) && |m| == Cols(m) && 0 <= row < |m| && 0 <= col < |m|
    requires PermScan(m, t, is_row, is_col, rw, cw, row, col)
    requires IsOne(m[row][col], t) && !is_row[row] && !is_col[col]
    ensures PermScan(m, t, is_row[row := true], is_col[col := true], rw[row := col], cw[col := row], row, col + 1)
  {
    var n := |m|;
    var is_row', is_col', rw', cw' := is_row[row := true], is_col[col := true], rw[row := col], cw[col := row];
    forall i, j | 0 <= i < row && 0 <= j < n && IsOne(m[i][j], t)
      ensures is_row'[i] && rw'[i] == j && is_col'[j] && cw'[j] == i
    {
      assert is_col[j] && j != col;
    }
    forall j | 0 <= j < n && is_col'[j]
      ensures 0 <= cw'[j] < n && IsOne(m[cw'[j]][j], t) && (cw'[j] < row || (cw'[j] == row && j < col + 1))
    {
      if j != col {
        assert is_col[j];
      }
    }
  }

  /** A cell that is neither one nor zero rules the grid out. */
  lemma PermScanStray(m: Grid, t: real, row: int, col: int)
    requires IsRect(m) && |m| == Cols(m) && 0 <= row < |m| && 0 <= col < |m|
    requires !IsOne(m[row][col], t) && !IsZero(m[row][col], t)
    ensures !PermutationGrid(m, t)
  {
  }

  /** A one in a row or column already marked rules the grid out. */
  lemma PermScanSecondOne(m: Grid, t: real, is_row: seq<bool>, is_col: seq<bool>, rw: seq<int>, cw: seq<int>, row: int, col: int)
    requires IsRect(m) && |m| == Cols(m) && 0 <= row < |m| && 0 <= col < |m|
    requires PermScan(m, t, is_row, is_col, rw, cw, row, col)
    requires IsOne(m[row][col], t) && (is_row[row] || is_col[col])
    ensures !PermutationGrid(m, t)
  {
    if is_row[row] {
      assert IsOne(m[row][rw[row]], t) && rw[row] < col;
    } else {
      assert IsOne(m[cw[col]][col], t) && cw[col] < row;
    }
  }

  /** Once every cell is scanned with every row and column marked, the grid is a permutation. */
  lemma PermScanAllMarked(m: Grid, t: real, is_row: seq<bool>, is_col: seq<bool>, rw: seq<int>, cw: seq<int>)
    requires IsRect(m) && |m| == Cols(m)
    requires PermScan(m, t, is_row, is_col, rw, cw, |m|, 0)
    requires forall k :: 0 <= k < |m| ==> is_row[k] && is_col[k]
    ensures PermutationGrid(m, t)
  {
    PermScanMarksHaveOnes(m, t, is_row, is_col, rw, cw);
    PermScanOnesAreSingle(m, t, is_row, is_col, rw, cw);
  }

  /** A marked row or column holds the one that marked it. */
  lemma PermScanMarksHaveOnes(m: Grid, t: real, is_row: seq<bool>, is_col: seq<bool>, rw: seq<int>, cw: seq<int>)
    requires IsRect(m) && |m| == Cols(m)
    requires PermScan(m, t, is_row, is_col, rw, cw, |m|, 0)
    requires forall k :: 0 <= k < |m| ==> is_row[k] && is_col[k]
    ensures forall i :: 0 <= i < |m| ==> RowHasOne(m, i, t)
    ensures forall j :: 0 <= j < |m| ==> ColumnHasOne(m, j, t)
  {
    forall r | 0 <= r < |m|
      ensures RowHasOne(m, r, t)
    {
      assert IsOne(m[r][rw[r]], t);
    }
    forall c | 0 <= c < |m|
      ensures ColumnHasOne(m, c, t)
    {
      assert IsOne(m[cw[c]][c], t);
    }
  }

  /** After a full scan no row and no column holds two ones: each one recorded its column in rw and its row in cw. */
  lemma PermScanOnesAreSingle(m: Grid, t: real, is_row: seq<bool>, is_col: seq<bool>, rw: seq<int>, cw: seq<int>)
    requires IsRect(m) && |m| == Cols(m)
    requires PermScan(m, t, is_row, is_col, rw, cw, |m|, 0)
    ensures forall i, j, k :: 0 <= i < |m| && 0 <= j < k < |m| ==> !(IsOne(m[i][j], t) && IsOne(m[i][k], t))
    ensures forall i, j, k :: 0 <= j < |m| && 0 <= i < k < |m| ==> !(IsOne(m[i][j], t) && IsOne(m[k][j], t))
  {
    forall i, j, k | 0 <= i < |m| && 0 <= j < k < |m|
      ensures !(IsOne(m[i][j], t) && IsOne(m[i][k], t))
    {
      if IsOne(m[i][j], t) {
        assert rw[i] == j;
      }
    }
    forall i, j, k | 0 <= j < |m| && 0 <= i < k < |m|
      ensures !(IsOne(m[i][j], t) && IsOne(m[k][j], t))
    {
      if IsOne(m[i][j], t) {
        assert cw[j] == i;
      }
    }
  }

  /** Once every cell is scanned, an unmarked row or column rules the grid out. */
  lemma PermScanUnmarked(m: Grid, t: real, is_row: seq<bool>, is_col: seq<bool>, rw: seq<int>, cw: seq<int>, k: int)
    requires IsRect(m) && |m| == Cols(m)
    requires PermScan(m, t, is_row, is_col, rw, cw, |m|, 0)
    requires 0 <= k < |m| && !(is_row[k] && is_col[k])
    ensures !PermutationGrid(m, t)
  {
    if !is_row[k] {
      forall j | 0 <= j < |m|
        ensures !IsOne(m[k][j], t)
      {
      }
      assert !RowHasOne(m, k, t);
    } else {
      forall i | 0 <= i < |m|
        ensures !IsOne(m[i][k], t)
      {
      }
      assert !ColumnHasOne(m, k, t);
    }
  }

  /** The identity passes every test that concerns off-diagonal cells, for any positive tolerance. */
  lemma EyeTests(n: nat, tolerance: real)
    requires n > 0 && 0.0 <= tolerance
    ensures IsRect(Eye(n, n))
    ensures IdentityGrid(Eye(n, n), tolerance) && DiagonalGrid(Eye(n, n), tolerance)
    ensures UpperGrid(Eye(n, n), tolerance) && LowerGrid(Eye(n, n), tolerance)
    ensures SymmetricGrid(Eye(n, n), tolerance) && HermitianGrid(Eye(n, n), tolerance)
  {
    TolerancePredicates(ZERO, tolerance);
  }

  /** eye(n) is a permutation matrix whenever the tolerance keeps ONE and ZERO apart. */
  lemma EyePermutation(n: nat, tolerance: real)
    requires n > 0 && 0.0 <= tolerance && Tol(tolerance) <= 0.5
    ensures IsRect(Eye(n, n)) && PermutationGrid(Eye(n, n), tolerance)
  {
    var m := Eye(n, n);
    TolerancePredicates(ZERO, tolerance);
    assert !IsOne(ZERO, tolerance);
    assert IsOne(ONE, tolerance);
    forall i | 0 <= i < n
      ensures RowHasOne(m, i, tolerance)
    {
      assert m[i][i] == ONE;
      assert IsOne(m[i][i], tolerance);
    }
    forall j | 0 <= j < n
      ensures ColumnHasOne(m, j, tolerance)
    {
      assert m[j][j] == ONE;
      assert IsOne(m[j][j], tolerance);
    }
  }

  /** Swapping two rows of a permutation matrix gives a permutation matrix. */
  lemma SwapRowsPermutation(m: Grid, a: nat, b: nat, t: real)
    requires IsRect(m) && a < |m| && b < |m| && PermutationGrid(m, t)
    ensures IsRect(SwapRows(m, a, b)) && PermutationGrid(SwapRows(m, a, b), t)
  {
    SwappedRowsHaveOne(m, a, b, t);
    SwappedColumnsHaveOne(m, a, b, t);
    SwappedColumnsSingle(m, a, b, t);
  }

  lemma SwappedRowsHaveOne(m: Grid, a: nat, b: nat, t: real)
    requires IsRect(m) && a < |m| && b < |m| && PermutationGrid(m, t)
    ensures forall i :: 0 <= i < |m| ==> RowHasOne(SwapRows(m, a, b), i, t)
  {
    var s := SwapRows(m, a, b);
    forall i | 0 <= i < |m|
      ensures RowHasOne(s, i, t)
    {
      var f := if i == a then b else if i == b then a else i;
      assert s[i] == m[f] && RowHasOne(m, f, t);
      var j :| 0 <= j < |m[f]| && IsOne(m[f][j], t);
      assert IsOne(s[i][j], t);
    }
  }

  lemma SwappedColumnsHaveOne(m: Grid, a: nat, b: nat, t: real)
    requires IsRect(m) && a < |m| && b < |m| && PermutationGrid(m, t)
    ensures IsRect(SwapRows(m, a, b)) && Cols(SwapRows(m, a, b)) == Cols(m)
    ensures forall j :: 0 <= j < |m| ==> ColumnHasOne(SwapRows(m, a, b), j, t)
  {
    var s := SwapRows(m, a, b);
    assert s[0] == m[if 0 == a then b else if 0 == b then a else 0];
    forall j | 0 <= j < |m|
      ensures ColumnHasOne(s, j, t)
    {
      assert ColumnHasOne(m, j, t);
      var i :| 0 <= i < |m| && IsOne(m[i][j], t);
      var f := if i == a then b else if i == b then a else i;
      assert s[f] == m[i];
      assert IsOne(s[f][j], t);
    }
  }

  lemma SwappedColumnsSingle(m: Grid, a: nat, b: nat, t: real)
    requires IsRect(m) && a < |m| && b < |m| && PermutationGrid(m, t)
    ensures forall i, j, k :: 0 <= j < |m| && 0 <= i < k < |m| ==>
      !(IsOne(SwapRows(m, a, b)[i][j], t) && IsOne(SwapRows(m, a, b)[k][j], t))
  {
    var s := SwapRows(m, a, b);
    var from := (i: int) => if i == a then b else if i == b then a else i;
    assert forall i :: 0 <= i < |m| ==> s[i] == m[from(i)];
    forall i, j, k | 0 <= j < |m| && 0 <= i < k < |m|
      ensures !(IsOne(s[i][j], t) && IsOne(s[k][j], t))
    {
      if from(i) < from(k) {
      } else {
        assert from(k) < from(i);
      }
    }
  }


  /** Diagonal is upper and lower triangular together; the identity test implies the diagonal one. */
  lemma TriangularDiagonal(m: Grid, t: real)
    requires IsRect(m)
    ensures DiagonalGrid(m, t) <==> UpperGrid(m, t) && LowerGrid(m, t)
    ensures IdentityGrid(m, t) ==> DiagonalGrid(m, t)
    ensures DiagonalGrid(m, t) ==> TridiagonalGrid(m, t)
  {
  }

  /** The transpose of an upper triangular matrix is lower triangular, and the other way round. */
  lemma TransposeTriangular(m: Grid, t: real)
    requires IsRect(m)
    ensures IsRect(Transpose(m))
    ensures UpperGrid(m, t) <==> LowerGrid(Transpose(m), t)
  {
    var n := Transpose(m);
    if UpperGrid(m, t) {
      assert forall i, j :: 0 <= i < |n| && 0 <= j < Cols(n) && i < j ==> n[i][j] == m[j][i];
    }
    if LowerGrid(n, t) {
      forall i, j | 0 <= i < |m| && 0 <= j < Cols(m) && i > j
        ensures IsZero(m[i][j], t)
      {
        assert n[j][i] == m[i][j];
      }
    }
  }

  /** A real symmetric matrix is Hermitian. */
  lemma SymmetricRealHermitian(m: Grid, t: real)
    requires IsRect(m) && SymmetricGrid(m, t) && forall i, j :: 0 <= i < |m| && 0 <= j < Cols(m) ==> m[i][j].im == 0.0
    requires 0.0 <= t
    ensures HermitianGrid(m, t)
  {
    forall i | 0 <= i < |m|
      ensures IsReal(m[i][i], t)
    {
      TolerancePredicates(m[i][i], t);
    }
  }
}
