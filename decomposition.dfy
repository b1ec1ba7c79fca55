/**
 * The LUP and LU decompositions of LinearAlgebra: lup eliminates column by
 * column with partial pivoting, recording the multipliers in L and the
 * row exchanges in P, and ends with P·A == L·U; lu folds P back into L.
 */
module Decomposition {
  import opened ComplexNum
  import opened Grid
  import Elimination
  import Products

  // ---------------------------------------------------------------------
  // Permutations
  // ---------------------------------------------------------------------

  /** perm and inv are mutually inverse permutations of 0 .. n - 1. */
  ghost predicate IsPermutationPair(perm: seq<nat>, inv: seq<nat>, n: nat) {
    |perm| == n && |inv| == n
    && (forall i :: 0 <= i < n ==> perm[i] < n && inv[i] < n)
    && (forall i :: 0 <= i < n ==> inv[perm[i]] == i)
    && (forall i :: 0 <= i < n ==> perm[inv[i]] == i)
  }

  /** p is the permutation matrix whose row i is row perm[i] of the identity. */
  ghost predicate PermutationOf(p: Grid, perm: seq<nat>) {
    Shape(p, |perm|, |perm|)
    && forall i, j :: 0 <= i < |perm| && 0 <= j < |perm| ==> p[i][j] == if perm[i] == j then ONE else ZERO
  }

  /** Exchanging positions a and b of perm, and the matching entries of inv. */
  lemma SwapPermutation(perm: seq<nat>, inv: seq<nat>, n: nat, a: nat, b: nat)
    requires IsPermutationPair(perm, inv, n) && a < n && b < n
    ensures IsPermutationPair(perm[a := perm[b]][b := perm[a]], inv[perm[a] := b][perm[b] := a], n)
  {
  }

  lemma SwapPermutationMatrix(p: Grid, perm: seq<nat>, a: nat, b: nat)
    requires PermutationOf(p, perm) && a < |perm| && b < |perm|
    ensures PermutationOf(SwapRows(p, a, b), perm[a := perm[b]][b := perm[a]])
  {
  }

  /** A row that is one at s and zero elsewhere picks row s of the other factor. */
  lemma {:induction false} RowColumnSelect(a: Grid, b: Grid, i: int, j: int, n: nat, s: int)
    requires IsRect(b) && 0 <= j < Cols(b) && 0 <= i < |a| && n <= |a[i]| && n <= |b|
    requires forall q :: 0 <= q < n ==> a[i][q] == if q == s then ONE else ZERO
    ensures RowColumn(a, b, i, j, n) == if 0 <= s < n then b[s][j] else ZERO
  {
    if n > 0 {
      RowColumnSelect(a, b, i, j, n - 1, s);
    }
  }

  /** Multiplying by a permutation matrix reorders the rows: row i of P·A is row perm[i] of A. */
  lemma PermutationProduct(p: Grid, perm: seq<nat>, a: Grid)
    requires PermutationOf(p, perm) && IsRect(a) && |a| == |perm|
    requires forall i :: 0 <= i < |perm| ==> perm[i] < |perm|
    ensures IsRect(p) && Cols(p) == |a|
    ensures forall i, j :: 0 <= i < |a| && 0 <= j < Cols(a) ==> MatMul(p, a)[i][j] == a[perm[i]][j]
  {
    forall i, j | 0 <= i < |a| && 0 <= j < Cols(a)
      ensures MatMul(p, a)[i][j] == a[perm[i]][j]
    {
      RowColumnSelect(p, a, i, j, |a|, perm[i]);
    }
  }

  /** A permutation matrix is real, so its conjugate transpose is its transpose. */
  lemma PermutationAdjoint(p: Grid, perm: seq<nat>)
    requires PermutationOf(p, perm) && |perm| > 0
    ensures IsRect(p) && CTranspose(p) == Transpose(p)
  {
    assert forall i, j :: 0 <= i < |p| && 0 <= j < Cols(p) ==> p[i][j].im == 0.0;
    CTransposeOfReal(p);
  }

  /** Row i of P^T is one at inv[i] and zero elsewhere. */
  lemma InverseRow(p: Grid, perm: seq<nat>, inv: seq<nat>, i: nat)
    requires IsPermutationPair(perm, inv, |perm|) && PermutationOf(p, perm) && i < |perm|
    ensures IsRect(p) && forall q :: 0 <= q < |perm| ==> Transpose(p)[i][q] == if q == inv[i] then ONE else ZERO
  {
    forall q | 0 <= q < |perm|
      ensures p[q][i] == if q == inv[i] then ONE else ZERO
    {
      assert perm[q] == i <==> q == inv[i] by {
        if perm[q] == i {
          assert inv[perm[q]] == q;
        }
      }
    }
  }

  /** Each cell of P^H·X, from the unit rows of P^H. */
  lemma InverseProductCell(t: Grid, x: Grid, s: nat, i: nat, j: nat)
    requires IsRect(t) && IsRect(x) && Cols(t) == |x| && i < |t| && j < Cols(x) && s < |x|
    requires forall q :: 0 <= q < |x| ==> t[i][q] == if q == s then ONE else ZERO
    ensures MatMul(t, x)[i][j] == x[s][j]
  {
    RowColumnSelect(t, x, i, j, |x|, s);
  }

  /** Multiplying by the transpose of a permutation matrix undoes the reordering. */
  lemma InversePermutationProduct(p: Grid, perm: seq<nat>, inv: seq<nat>, x: Grid)
    requires IsPermutationPair(perm, inv, |perm|) && PermutationOf(p, perm) && IsRect(x) && |x| == |perm|
    ensures IsRect(p) && IsRect(Transpose(p)) && Cols(Transpose(p)) == |x|
    ensures forall i, j :: 0 <= i < |x| && 0 <= j < Cols(x) ==> MatMul(Transpose(p), x)[i][j] == x[inv[i]][j]
  {
    var t := Transpose(p);
    assert IsRect(t) && |t| == |x| && Cols(t) == |x|;
    forall i, j | 0 <= i < |x| && 0 <= j < Cols(x)
      ensures MatMul(t, x)[i][j] == x[inv[i]][j]
    {
      InverseRow(p, perm, inv, i);
      InverseProductCell(t, x, inv[i], i, j);
    }
  }

  // ---------------------------------------------------------------------
  // Sums of products
  // ---------------------------------------------------------------------

  /** RowColumn depends only on the first n cells of row i and of column j. */
  lemma {:induction false} RowColumnExt(a: Grid, b: Grid, i: int, a': Grid, b': Grid, i': int, j: int, n: nat)
    requires IsRect(b) && 0 <= j < Cols(b) && 0 <= i < |a| && n <= |a[i]| && n <= |b|
    requires IsRect(b') && j < Cols(b') && 0 <= i' < |a'| && n <= |a'[i']| && n <= |b'|
    requires forall q :: 0 <= q < n ==> a[i][q] == a'[i'][q] && b[q][j] == b'[q][j]
    ensures RowColumn(a, b, i, j, n) == RowColumn(a', b', i', j, n)
  {
    if n > 0 {
      RowColumnExt(a, b, i, a', b', i', j, n - 1);
    }
  }

  /** Setting a zero coefficient at position s to one adds row s of the other factor. */
  lemma {:induction false} RowColumnUnit(a: Grid, b: Grid, a': Grid, i: int, j: int, n: nat, s: int)
    requires IsRect(b) && 0 <= j < Cols(b) && 0 <= i < |a| && n <= |a[i]| && n <= |b|
    requires 0 <= i < |a'| && n <= |a'[i]| && 0 <= s < n
    requires a[i][s] == ZERO && a'[i][s] == ONE
    requires forall q :: 0 <= q < n && q != s ==> a'[i][q] == a[i][q]
    ensures RowColumn(a', b, i, j, n) == Add(RowColumn(a, b, i, j, n), b[s][j])
  {
    var x, x' := RowColumn(a, b, i, j, n - 1), RowColumn(a', b, i, j, n - 1);
    if n - 1 == s {
      RowColumnExt(a, b, i, a', b, i, j, n - 1);
      assert RowColumn(a, b, i, j, n) == Add(x, Mul(ZERO, b[s][j]));
      assert RowColumn(a', b, i, j, n) == Add(x', Mul(ONE, b[s][j]));
    } else {
      RowColumnUnit(a, b, a', i, j, n - 1, s);
      var y := Mul(a[i][n - 1], b[n - 1][j]);
      assert RowColumn(a, b, i, j, n) == Add(x, y);
      assert RowColumn(a', b, i, j, n) == Add(x', y);
    }
  }

  // ---------------------------------------------------------------------
  // The state of lup's elimination
  // ---------------------------------------------------------------------

  /**
   * lup after the columns before k: L (rows × rows) has non-zero entries
   * only strictly below its diagonal and before column k, U (rows × cols)
   * is zero below its diagonal in the columns before k, and row i of A
   * taken in the order perm is row i of U plus the L-weighted pivot rows of
   * U above it.
   */
  ghost predicate Factored(a: Grid, l: Grid, u: Grid, perm: seq<nat>, k: nat)
    requires IsRect(a)
  {
    var rows, cols := |a|, Cols(a);
    Shape(l, rows, rows) && Shape(u, rows, cols) && |perm| == rows
    && (forall i :: 0 <= i < rows ==> perm[i] < rows)
    && (forall i, j :: 0 <= i < rows && 0 <= j < rows && (i <= j || k <= j) ==> l[i][j] == ZERO)
    && (forall i, j :: 0 <= i < rows && 0 <= j < cols && j < i && j < k ==> u[i][j] == ZERO)
    && (forall i, j :: 0 <= i < rows && 0 <= j < cols ==>
          a[perm[i]][j] == Add(RowColumn(l, u, i, j, Min(k, rows)), u[i][j]))
  }

  /**
   * Inside column k < rows, with the pivot u[k][k] non-zero, after the rows
   * k + 1 .. row - 1 have been eliminated: those rows hold their
   * multiplier in column k of L and a zero in column k of U.
   */
  ghost predicate Eliminating(a: Grid, l: Grid, u: Grid, perm: seq<nat>, k: nat, row: nat)
    requires IsRect(a) && k < |a|
  {
    var rows, cols := |a|, Cols(a);
    Shape(l, rows, rows) && Shape(u, rows, cols) && |perm| == rows
    && (forall i :: 0 <= i < rows ==> perm[i] < rows)
    && k < cols && u[k][k] != ZERO
    && (forall i, j :: 0 <= i < rows && 0 <= j < rows && (i <= j || k < j || (j == k && row <= i)) ==> l[i][j] == ZERO)
    && (forall i, j :: 0 <= i < rows && 0 <= j < cols && j < i && (j < k || (j == k && i < row)) ==> u[i][j] == ZERO)
    && (forall i, j :: 0 <= i < rows && 0 <= j < cols ==>
          a[perm[i]][j] == Add(RowColumn(l, u, i, j, k + 1), u[i][j]))
  }

  /** Before any column: L zero, U == A, perm the identity. */
  lemma FactoredStart(a: Grid, l: Grid, perm: seq<nat>)
    requires IsRect(a) && Shape(l, |a|, |a|) && |perm| == |a|
    requires forall i, j :: 0 <= i < |a| && 0 <= j < |a| ==> l[i][j] == ZERO
    requires forall i :: 0 <= i < |a| ==> perm[i] == i
    ensures Factored(a, l, a, perm, 0)
  {
  }

  /** lup's initial state: L zero, U == A, P the identity, perm and its inverse the identity order. */
  method LupStart(a: Grid) returns (l: Grid, u: Grid, p: Grid, ghost perm: seq<nat>, ghost inv: seq<nat>)
    requires IsRect(a)
    ensures u == a && p == Eye(|a|, |a|) && perm == Elimination.Range(|a|)
    ensures Shape(l, |a|, |a|) && forall i, j :: 0 <= i < |a| && 0 <= j < |a| ==> l[i][j] == ZERO
    ensures Factored(a, l, u, perm, 0)
    ensures IsPermutationPair(perm, inv, |a|) && PermutationOf(p, perm)
  {
    var rows := |a|;
    l := seq(rows, i => seq(rows, j => ZERO));
    u := a;
    p := Eye(rows, rows);
    perm := Elimination.Range(rows);
    inv := Elimination.Range(rows);
    FactoredStart(a, l, perm);
  }

  /** A column with nothing to eliminate (or beyond the last row) changes nothing. */
  lemma SkipColumn(a: Grid, l: Grid, u: Grid, perm: seq<nat>, k: nat)
    requires IsRect(a) && Factored(a, l, u, perm, k) && k < Cols(a)
    requires forall i :: k <= i < |a| ==> u[i][k] == ZERO
    ensures Factored(a, l, u, perm, k + 1)
  {
    if k < |a| {
      ZeroColumnTerm(l, u, k);
    }
  }

  /** A column of L that is zero adds nothing to the products of L and U. */
  lemma ZeroColumnTerm(l: Grid, u: Grid, k: nat)
    requires IsRect(u) && k < |u| && |l| == |u|
    requires forall i :: 0 <= i < |l| ==> k < |l[i]| && l[i][k] == ZERO
    ensures forall i, j :: 0 <= i < |l| && 0 <= j < Cols(u) ==> RowColumn(l, u, i, j, k + 1) == RowColumn(l, u, i, j, k)
  {
    forall i, j | 0 <= i < |l| && 0 <= j < Cols(u)
      ensures RowColumn(l, u, i, j, k + 1) == RowColumn(l, u, i, j, k)
    {
      assert l[i][k] == ZERO;
    }
  }

  /** Exchanging rows k and p >= k of L, U and perm keeps the state. */
  lemma SwapStep(a: Grid, l: Grid, u: Grid, perm: seq<nat>, k: nat, p: nat)
    requires IsRect(a) && Factored(a, l, u, perm, k) && k < |a| && k <= p < |a|
    ensures Factored(a, SwapRows(l, k, p), SwapRows(u, k, p), perm[k := perm[p]][p := perm[k]], k)
  {
    var l', u', perm' := SwapRows(l, k, p), SwapRows(u, k, p), perm[k := perm[p]][p := perm[k]];
    forall i, j | 0 <= i < |a| && 0 <= j < Cols(a)
      ensures a[perm'[i]][j] == Add(RowColumn(l', u', i, j, k), u'[i][j])
    {
      var src := if i == k then p else if i == p then k else i;
      assert l'[i] == l[src] && u'[i] == u[src] && perm'[i] == perm[src];
      RowColumnExt(l, u, src, l', u', i, j, k);
    }
  }

  /** With a non-zero pivot in place, elimination of column k can start at row k + 1. */
  lemma StartElimination(a: Grid, l: Grid, u: Grid, perm: seq<nat>, k: nat)
    requires IsRect(a) && Factored(a, l, u, perm, k) && k < |a| && k < Cols(a) && u[k][k] != ZERO
    ensures Eliminating(a, l, u, perm, k, k + 1)
  {
    ZeroColumnTerm(l, u, k);
  }

  /** The multiplier times the pivot cell, added to L's side and taken from U's, cancels. */
  lemma Cancel(x: Complex, t: Complex, v: Complex, w: Complex)
    ensures Add(Add(x, Mul(t, v)), Sub(w, Mul(v, t))) == Add(Add(x, Mul(ZERO, v)), w)
  {
  }

  lemma CancelZero(x: Complex, t: Complex, w: Complex)
    ensures Add(Add(x, Mul(t, ZERO)), w) == Add(Add(x, Mul(ZERO, ZERO)), w)
  {
  }

  /** The eliminated row: the product term the multiplier adds cancels what was taken out of U. */
  lemma RowCancel(x: Complex, temp: Complex, ukj: Complex, urj: Complex, urj': Complex, before: Complex, after: Complex, small: bool)
    requires before == Add(x, Mul(ZERO, ukj)) && after == Add(x, Mul(temp, ukj))
    requires urj' == if small then urj else Sub(urj, Mul(ukj, temp))
    requires small ==> ukj == ZERO && urj == ZERO
    ensures Add(after, urj') == Add(before, urj)
  {
    if small {
      CancelZero(x, temp, urj);
    } else {
      Cancel(x, temp, ukj, urj);
    }
  }

  /** One cell of the elimination step: the multiplier added to L cancels the row taken out of U. */
  lemma EliminationCell(l: Grid, u: Grid, l': Grid, u': Grid, k: nat, row: nat, temp: Complex, i: nat, j: nat)
    requires IsRect(u) && IsRect(u') && |u'| == |u| && Cols(u') == Cols(u) && |l| == |u| == |l'|
    requires j < Cols(u) && i < |u| && k < row < |u| && k + 1 <= |l[i]| && |l'[i]| == |l[i]|
    requires k < |l[row]| == |l'[row]| && l[row][k] == ZERO && l'[row][k] == temp
    requires forall q :: 0 <= q < |l| && q != row ==> l'[q] == l[q]
    requires forall q :: 0 <= q < k ==> l'[row][q] == l[row][q]
    requires forall q :: 0 <= q < |u| && q != row ==> u'[q] == u[q]
    requires u'[row][j] == if j < k then u[row][j] else Sub(u[row][j], Mul(u[k][j], temp))
    requires j < k ==> u[k][j] == ZERO && u[row][j] == ZERO
    ensures Add(RowColumn(l', u', i, j, k + 1), u'[i][j]) == Add(RowColumn(l, u, i, j, k + 1), u[i][j])
  {
    EliminationPrefix(l, u, l', u', k, row, i, j);
    var x := RowColumn(l, u, i, j, k);
    var ukj := u[k][j];
    assert u'[k] == u[k];
    if i == row {
      RowCancel(x, temp, ukj, u[row][j], u'[row][j], RowColumn(l, u, i, j, k + 1), RowColumn(l', u', i, j, k + 1), j < k);
    } else {
      assert l'[i] == l[i] && u'[i] == u[i];
    }
  }

  /** The elimination of one row leaves the first k terms of every product unchanged. */
  lemma EliminationPrefix(l: Grid, u: Grid, l': Grid, u': Grid, k: nat, row: nat, i: nat, j: nat)
    requires IsRect(u) && IsRect(u') && |u'| == |u| && Cols(u') == Cols(u) && |l| == |u| == |l'|
    requires j < Cols(u) && i < |u| && k < row < |u| && k + 1 <= |l[i]| && |l'[i]| == |l[i]|
    requires k < |l[row]| == |l'[row]|
    requires forall q :: 0 <= q < |l| && q != row ==> l'[q] == l[q]
    requires forall q :: 0 <= q < k ==> l'[row][q] == l[row][q]
    requires forall q :: 0 <= q < |u| && q != row ==> u'[q] == u[q]
    ensures RowColumn(l', u', i, j, k) == RowColumn(l, u, i, j, k)
  {
    forall q | 0 <= q < k
      ensures l[i][q] == l'[i][q] && u[q][j] == u'[q][j]
    {
    }
    RowColumnExt(l, u, i, l', u', i, j, k);
  }

  /** One row of the elimination: multiplier into L, scaled pivot row out of U. */
  lemma EliminationStep(a: Grid, l: Grid, u: Grid, perm: seq<nat>, k: nat, row: nat, temp: Complex, l': Grid, u': Grid)
    requires IsRect(a) && k < row < |a| && Eliminating(a, l, u, perm, k, row)
    requires temp == Quotient(u[row][k], u[k][k])
    requires l' == l[row := l[row][k := temp]]
    requires Shape(u', |a|, Cols(a))
    requires forall i :: 0 <= i < |a| && i != row ==> u'[i] == u[i]
    requires forall j :: 0 <= j < Cols(a) ==> u'[row][j] == if j < k then u[row][j] else Sub(u[row][j], Mul(u[k][j], temp))
    ensures Eliminating(a, l', u', perm, k, row + 1)
  {
    QuotientRoundTrip(u[row][k], u[k][k]);
    assert u'[row][k] == ZERO;
    forall i, j | 0 <= i < |a| && 0 <= j < Cols(a)
      ensures a[perm[i]][j] == Add(RowColumn(l', u', i, j, k + 1), u'[i][j])
    {
      if j < k {
        assert u[k][j] == ZERO && u[row][j] == ZERO;
      }
      assert forall q :: 0 <= q < |l| && q != row ==> l'[q] == l[q];
      EliminationCell(l, u, l', u', k, row, temp, i, j);
    }
  }

  lemma FinishElimination(a: Grid, l: Grid, u: Grid, perm: seq<nat>, k: nat)
    requires IsRect(a) && k < |a| && Eliminating(a, l, u, perm, k, |a|)
    ensures Factored(a, l, u, perm, k + 1)
  {
  }

  // ---------------------------------------------------------------------
  // lup and lu
  // ---------------------------------------------------------------------

  /** L resized to rows × min(rows, cols) with ONE written on its diagonal. */
  function UnitDiagonal(l: Grid, rows: nat, n: nat): (t: Grid)
    requires Shape(l, rows, rows) && n <= rows
    ensures Shape(t, rows, n)
    ensures forall i, j :: 0 <= i < rows && 0 <= j < n ==> t[i][j] == if i == j then ONE else l[i][j]
  {
    seq(rows, i requires 0 <= i < rows => seq(n, j requires 0 <= j < n => if i == j then ONE else l[i][j]))
  }

  /** After the last column the trimmed factors multiply back to the reordered rows of A. */
  lemma FinalProduct(a: Grid, l: Grid, u: Grid, perm: seq<nat>, lf: Grid, uf: Grid)
    requires IsRect(a) && Factored(a, l, u, perm, Cols(a))
    requires lf == UnitDiagonal(l, |a|, Min(|a|, Cols(a)))
    requires IsRect(u) && uf == Resized(u, Min(|a|, Cols(a)), Cols(a))
    ensures IsRect(lf) && IsRect(uf) && Cols(lf) == |uf|
    ensures forall i, j :: 0 <= i < |a| && 0 <= j < Cols(a) ==> MatMul(lf, uf)[i][j] == a[perm[i]][j]
  {
    var n := Min(|a|, Cols(a));
    forall i, j | 0 <= i < |a| && 0 <= j < Cols(a)
      ensures RowColumn(lf, uf, i, j, n) == a[perm[i]][j]
    {
      if i < n {
        FinalUpperCell(a, l, u, perm, lf, uf, i, j);
      } else {
        FinalLowerCell(a, l, u, perm, lf, uf, i, j);
      }
    }
  }

  /** A row of L with its unit diagonal inside the trimmed factors. */
  lemma FinalUpperCell(a: Grid, l: Grid, u: Grid, perm: seq<nat>, lf: Grid, uf: Grid, i: nat, j: nat)
    requires IsRect(a) && Factored(a, l, u, perm, Cols(a))
    requires lf == UnitDiagonal(l, |a|, Min(|a|, Cols(a)))
    requires IsRect(u) && uf == Resized(u, Min(|a|, Cols(a)), Cols(a))
    requires i < Min(|a|, Cols(a)) && j < Cols(a)
    ensures RowColumn(lf, uf, i, j, Min(|a|, Cols(a))) == a[perm[i]][j]
  {
    var n := Min(|a|, Cols(a));
    assert Min(Cols(a), |a|) == n;
    var l1 := l[i := l[i][i := ONE]];
    forall q | 0 <= q < n
      ensures l[i][q] == l[i][q] && u[q][j] == uf[q][j]
    {
    }
    RowColumnExt(l, u, i, l, uf, i, j, n);
    assert l[i][i] == ZERO;
    RowColumnUnit(l, uf, l1, i, j, n, i);
    forall q | 0 <= q < n
      ensures l1[i][q] == lf[i][q] && uf[q][j] == uf[q][j]
    {
    }
    RowColumnExt(l1, uf, i, lf, uf, i, j, n);
    assert uf[i][j] == u[i][j];
  }

  /** A row below the last pivot: U's row there is zero in every column of the trimmed U. */
  lemma FinalLowerCell(a: Grid, l: Grid, u: Grid, perm: seq<nat>, lf: Grid, uf: Grid, i: nat, j: nat)
    requires IsRect(a) && Factored(a, l, u, perm, Cols(a))
    requires lf == UnitDiagonal(l, |a|, Min(|a|, Cols(a)))
    requires IsRect(u) && uf == Resized(u, Min(|a|, Cols(a)), Cols(a))
    requires Min(|a|, Cols(a)) <= i < |a| && j < Cols(a)
    ensures RowColumn(lf, uf, i, j, Min(|a|, Cols(a))) == a[perm[i]][j]
  {
    var n := Min(|a|, Cols(a));
    RowColumnExt(l, u, i, lf, uf, i, j, n);
    assert u[i][j] == ZERO;
  }

  /**
   * lup: Gaussian elimination with partial pivoting. For each column k the
   * pivot is the first row from k on with the largest modulus in that
   * column; a column with no non-zero cell there is skipped, otherwise the
   * pivot row is exchanged into row k of L, U and P and eliminated from the
   * rows below it. The result: L is rows × min(rows, cols) with a unit
   * diagonal and zeros above it, U is min(rows, cols) × cols and zero below
   * its diagonal, P is a permutation matrix, and P·A == L·U (the source's
   * P'·L·U == A).
   */
  method Lup(a: Grid) returns (l: Grid, u: Grid, p: Grid, ghost perm: seq<nat>, ghost inv: seq<nat>)
    requires IsRect(a)
    ensures Shape(l, |a|, Min(|a|, Cols(a))) && Shape(u, Min(|a|, Cols(a)), Cols(a)) && IsRect(l) && IsRect(u)
    ensures forall i, j :: 0 <= i < |a| && 0 <= j < Min(|a|, Cols(a)) ==>
      (i == j ==> l[i][j] == ONE) && (i < j ==> l[i][j] == ZERO)
    ensures forall i, j :: 0 <= i < Min(|a|, Cols(a)) && 0 <= j < Cols(a) && j < i ==> u[i][j] == ZERO
    ensures IsPermutationPair(perm, inv, |a|) && PermutationOf(p, perm) && IsRect(p)
    ensures Cols(p) == |a| && Cols(l) == |u| && MatMul(p, a) == MatMul(l, u)
  {
    var rows, cols := |a|, Cols(a);
    l, u, p, perm, inv := LupStart(a);
    var k := 0;
    while k < cols
      invariant 0 <= k <= cols
      invariant Factored(a, l, u, perm, k)
      invariant IsPermutationPair(perm, inv, rows) && PermutationOf(p, perm)
    {
      l, u, p, perm, inv := LupColumn(a, l, u, p, perm, inv, k);
      k := k + 1;
    }
    var n := Min(rows, cols);
    var lf := UnitDiagonal(l, rows, n);
    var uf := Resized(u, n, cols);
    FinalFactors(a, l, u, p, perm, lf, uf);
    l, u := lf, uf;
  }

  /** The trimmed factors lup returns: their shapes, their zero triangles, and P·A == L·U. */
  lemma FinalFactors(a: Grid, l: Grid, u: Grid, p: Grid, perm: seq<nat>, lf: Grid, uf: Grid)
    requires IsRect(a) && Factored(a, l, u, perm, Cols(a)) && PermutationOf(p, perm)
    requires lf == UnitDiagonal(l, |a|, Min(|a|, Cols(a)))
    requires IsRect(u) && uf == Resized(u, Min(|a|, Cols(a)), Cols(a))
    ensures Shape(lf, |a|, Min(|a|, Cols(a))) && Shape(uf, Min(|a|, Cols(a)), Cols(a)) && IsRect(lf) && IsRect(uf)
    ensures forall i, j :: 0 <= i < |a| && 0 <= j < Min(|a|, Cols(a)) ==>
      (i == j ==> lf[i][j] == ONE) && (i < j ==> lf[i][j] == ZERO)
    ensures forall i, j :: 0 <= i < Min(|a|, Cols(a)) && 0 <= j < Cols(a) && j < i ==> uf[i][j] == ZERO
    ensures IsRect(p) && Cols(p) == |a| && Cols(lf) == |uf| && MatMul(p, a) == MatMul(lf, uf)
  {
    FinalProduct(a, l, u, perm, lf, uf);
    PermutationProduct(p, perm, a);
    GridEq(MatMul(p, a), MatMul(lf, uf), |a|, Cols(a));
  }

  /**
   * One pass of lup's outer loop: the pivot search in column k from row k
   * on, the exchange of the pivot row into row k, and the elimination
   * below it.
   */
  method LupColumn(a: Grid, l: Grid, u: Grid, p: Grid, ghost perm: seq<nat>, ghost inv: seq<nat>, k: nat)
    returns (l': Grid, u': Grid, p': Grid, ghost perm': seq<nat>, ghost inv': seq<nat>)
    requires IsRect(a) && k < Cols(a) && Factored(a, l, u, perm, k)
    requires IsPermutationPair(perm, inv, |a|) && PermutationOf(p, perm)
    ensures Factored(a, l', u', perm', k + 1)
    ensures IsPermutationPair(perm', inv', |a|) && PermutationOf(p', perm')
  {
    assert IsRect(u) && Cols(u) == Cols(a);
    var best := Elimination.MaxRowNumber(u, k, k, 0);
    if best.max == 0.0 {
      SkipColumn(a, l, u, perm, k);
      l', u', p', perm', inv' := l, u, p, perm, inv;
    } else {
      var pivot := best.index;
      NormSqPositive(u[pivot][k]);
      l', u', p', perm', inv' := ExchangeRows(a, l, u, p, perm, inv, k, pivot);
      StartElimination(a, l', u', perm', k);
      l', u' := EliminateBelow(a, l', u', perm', k);
    }
  }

  /** _exchangeRow(k, pivot) on L, U and P, when the two differ. */
  method ExchangeRows(a: Grid, l: Grid, u: Grid, p: Grid, ghost perm: seq<nat>, ghost inv: seq<nat>, k: nat, pivot: nat)
    returns (l': Grid, u': Grid, p': Grid, ghost perm': seq<nat>, ghost inv': seq<nat>)
    requires IsRect(a) && k <= pivot < |a| && Factored(a, l, u, perm, k)
    requires IsPermutationPair(perm, inv, |a|) && PermutationOf(p, perm)
    ensures Factored(a, l', u', perm', k) && u'[k] == u[pivot]
    ensures IsPermutationPair(perm', inv', |a|) && PermutationOf(p', perm')
  {
    l', u', p', perm', inv' := l, u, p, perm, inv;
    if k != pivot {
      SwapStep(a, l, u, perm, k, pivot);
      SwapPermutation(perm, inv, |a|, k, pivot);
      SwapPermutationMatrix(p, perm, k, pivot);
      l' := SwapRows(l, k, pivot);
      u' := SwapRows(u, k, pivot);
      p' := SwapRows(p, k, pivot);
      perm', inv' := perm[k := perm[pivot]][pivot := perm[k]], inv[perm[k] := pivot][perm[pivot] := k];
    }
  }

  /** Elimination of column k from every row below the pivot row k. */
  method EliminateBelow(a: Grid, l: Grid, u: Grid, ghost perm: seq<nat>, k: nat) returns (l': Grid, u': Grid)
    requires IsRect(a) && k < |a| && Eliminating(a, l, u, perm, k, k + 1)
    ensures Factored(a, l', u', perm, k + 1)
  {
    l', u' := l, u;
    var row := k + 1;
    while row < |a|
      invariant k + 1 <= row <= |a|
      invariant Eliminating(a, l', u', perm, k, row)
    {
      assert IsRect(u');
      var temp := Div(u'[row][k], u'[k][k]).value;
      var l1 := l'[row := l'[row][k := temp]];
      var u1 := Elimination.EliminateRow(u', row, k, k, temp);
      EliminationStep(a, l', u', perm, k, row, temp, l1, u1);
      l', u' := l1, u1;
      row := row + 1;
    }
    FinishElimination(a, l', u', perm, k);
  }

  /**
   * lu: L := P^H·L and U from lup. Then L·U == A, U is zero below its
   * diagonal, and L is unit lower triangular once its rows are put back in
   * the pivot order.
   */
  method Lu(a: Grid) returns (l: Grid, u: Grid, ghost perm: seq<nat>)
    requires IsRect(a)
    ensures Shape(l, |a|, Min(|a|, Cols(a))) && Shape(u, Min(|a|, Cols(a)), Cols(a)) && IsRect(l) && IsRect(u)
    ensures |perm| == |a| && forall i :: 0 <= i < |a| ==> perm[i] < |a|
    ensures forall i, j :: 0 <= i < |a| && 0 <= j < Min(|a|, Cols(a)) ==>
      (i == j ==> l[perm[i]][j] == ONE) && (i < j ==> l[perm[i]][j] == ZERO)
    ensures forall i, j :: 0 <= i < Min(|a|, Cols(a)) && 0 <= j < Cols(a) && j < i ==> u[i][j] == ZERO
    ensures Cols(l) == |u| && MatMul(l, u) == a
  {
    var l0, u0, p, perm0, inv := Lup(a);
    PermutationAdjoint(p, perm0);
    LuProduct(a, l0, u0, p, perm0, inv);
    l := MatMul(CTranspose(p), l0);
    u := u0;
    perm := perm0;
    forall i, j | 0 <= i < |a| && 0 <= j < Min(|a|, Cols(a))
      ensures (i == j ==> l[perm[i]][j] == ONE) && (i < j ==> l[perm[i]][j] == ZERO)
    {
      assert l[perm[i]][j] == l0[i][j];
    }
  }

  /** P^T·L times U gives back A, and P^T·L is L with its rows put back in the original order. */
  lemma LuProduct(a: Grid, l: Grid, u: Grid, p: Grid, perm: seq<nat>, inv: seq<nat>)
    requires IsRect(a) && IsRect(l) && IsRect(u) && Cols(l) == |u| && |l| == |a| && Cols(u) == Cols(a)
    requires IsPermutationPair(perm, inv, |a|) && PermutationOf(p, perm)
    requires IsRect(p) && Cols(p) == |a| && MatMul(p, a) == MatMul(l, u)
    ensures IsRect(Transpose(p)) && Cols(Transpose(p)) == |l|
    ensures MatMul(MatMul(Transpose(p), l), u) == a
    ensures forall i, j :: 0 <= i < |a| && 0 <= j < Cols(l) ==> MatMul(Transpose(p), l)[perm[i]][j] == l[i][j]
  {
    var t := Transpose(p);
    InversePermutationProduct(p, perm, inv, l);
    forall i, j | 0 <= i < |a| && 0 <= j < Cols(l)
      ensures MatMul(t, l)[perm[i]][j] == l[i][j]
    {
      assert inv[perm[i]] == i;
    }
    Products.MatMulAssoc(t, l, u);
    var pa := MatMul(p, a);
    InversePermutationProduct(p, perm, inv, pa);
    PermutationProduct(p, perm, a);
    forall i, j | 0 <= i < |a| && 0 <= j < Cols(a)
      ensures MatMul(t, pa)[i][j] == a[i][j]
    {
      assert perm[inv[i]] == i;
    }
    GridEq(MatMul(t, pa), a, |a|, Cols(a));
  }
}
