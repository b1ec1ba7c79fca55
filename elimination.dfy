/**
 * Gaussian elimination as LinearAlgebraTool runs it: the pivot search
 * getMaxRowNumber, the row update both eliminations share, the
 * extraction of linearly dependent rows, and rank, which counts the rows
 * that extraction does not return.
 */
module Elimination {
  import opened Wrappers
  import opened ComplexNum
  import opened Grid
  import GridTests

  // ---------------------------------------------------------------------
  // getMaxRowNumber
  // ---------------------------------------------------------------------

  /**
   * The result of getMaxRowNumber. The source reports the modulus of the
   * winning cell; `max` here is its square, which orders rows the same way
   * and is zero exactly when the modulus is.
   */
  datatype RowMax = RowMax(index: nat, max: real)

  /** An absent (zero) row_index_max stands for the number of rows. */
  function RowEnd(m: Grid, limit: nat): nat {
    if limit == 0 then |m| else limit
  }

  /**
   * getMaxRowNumber: among the rows offset .. end - 1, the first row whose
   * cell in column col has the largest modulus. The running maximum starts
   * at zero and is replaced only by a strictly larger value, so an
   * all-zero range reports row 0 with maximum 0.
   */
  method MaxRowNumber(m: Grid, col: nat, offset: nat, limit: nat) returns (r: RowMax)
    requires IsRect(m) && col < Cols(m) && limit <= |m|
    ensures r.max >= 0.0
    ensures r.max == 0.0 <==> forall i :: offset <= i < RowEnd(m, limit) ==> m[i][col] == ZERO
    ensures r.max == 0.0 ==> r.index == 0
    ensures r.max != 0.0 ==> offset <= r.index < RowEnd(m, limit) && r.max == NormSq(m[r.index][col])
    ensures forall i :: offset <= i < RowEnd(m, limit) ==> NormSq(m[i][col]) <= r.max
    ensures forall i :: offset <= i < r.index ==> NormSq(m[i][col]) < r.max
    ensures r == MaxRowOf(m, col, offset, RowEnd(m, limit))
  {
    var index: nat, best := 0, 0.0;
    var row := offset;
    var end := RowEnd(m, limit);
    assert end <= |m|;
    while row < end
      invariant offset <= row && (row <= end || row == offset)
      invariant best >= 0.0
      invariant best == 0.0 ==> index == 0 && forall i :: offset <= i < row ==> m[i][col] == ZERO
      invariant best != 0.0 ==> offset <= index < row && best == NormSq(m[index][col]) && m[index][col] != ZERO
      invariant forall i :: offset <= i < row ==> NormSq(m[i][col]) <= best
      invariant forall i :: offset <= i < index ==> NormSq(m[i][col]) < best
      invariant RowMax(index, best) == MaxRowOf(m, col, offset, if row < end then row else end)
    {
      var norm := NormSq(m[row][col]);
      if norm > best {
        best, index := norm, row;
      } else if best == 0.0 {
        NotAboveZero(m[row][col], best);
      }
      row := row + 1;
    }
    r := RowMax(index, best);
  }

  /** The scan of rows offset .. row - 1 as the loop of getMaxRowNumber leaves it. */
  function MaxRowOf(m: Grid, col: nat, offset: nat, row: nat): (r: RowMax)
    requires IsRect(m) && col < Cols(m) && row <= |m|
    ensures r.max == 0.0 ==> r.index == 0
    ensures r.max != 0.0 ==> offset <= r.index < row
  {
    if row <= offset then RowMax(0, 0.0)
    else
      var r := MaxRowOf(m, col, offset, row - 1);
      if NormSq(m[row - 1][col]) > r.max then RowMax(row - 1, NormSq(m[row - 1][col])) else r
  }

  /** A cell whose squared modulus is not above zero is zero. */
  lemma NotAboveZero(x: Complex, best: real)
    requires best == 0.0 && NormSq(x) <= best
    ensures x == ZERO
  {
    NormSqPositive(x);
  }

  // ---------------------------------------------------------------------
  // The row update of both eliminations
  // ---------------------------------------------------------------------

  /** m[row][col] -= m[pivot][col] · factor for every column from `from` on. */
  method EliminateRow(m: Grid, row: nat, pivot: nat, from: nat, factor: Complex) returns (t: Grid)
    requires IsRect(m) && row < |m| && pivot < |m| && row != pivot
    ensures Shape(t, |m|, Cols(m)) && IsRect(t) && Cols(t) == Cols(m)
    ensures forall i :: 0 <= i < |m| && i != row ==> t[i] == m[i]
    ensures forall j :: 0 <= j < Cols(m) ==>
      t[row][j] == if j < from then m[row][j] else Sub(m[row][j], Mul(m[pivot][j], factor))
  {
    t := m;
    var col := from;
    while col < Cols(m)
      invariant from <= col
      invariant Shape(t, |m|, Cols(m))
      invariant forall i :: 0 <= i < |m| && i != row ==> t[i] == m[i]
      invariant forall j :: 0 <= j < Cols(m) ==>
        t[row][j] == if j < from || col <= j then m[row][j] else Sub(m[row][j], Mul(m[pivot][j], factor))
    {
      t := t[row := t[row][col := Sub(t[row][col], Mul(t[pivot][col], factor))]];
      col := col + 1;
    }
  }

  /** m with row `row` multiplied by c from column `from` on. */
  function ScaledRowOf(m: Grid, row: nat, from: nat, c: Complex): (t: Grid)
    requires IsRect(m) && row < |m|
    ensures Shape(t, |m|, Cols(m)) && IsRect(t) && Cols(t) == Cols(m)
  {
    m[row := seq(Cols(m), j requires 0 <= j < Cols(m) => if j < from then m[row][j] else Mul(m[row][j], c))]
  }

  /** m[row][col] *= c for every column from `from` on: the pivot normalisation of linsolve and inv. */
  method ScaleRow(m: Grid, row: nat, from: nat, c: Complex) returns (t: Grid)
    requires IsRect(m) && row < |m|
    ensures Shape(t, |m|, Cols(m)) && IsRect(t) && Cols(t) == Cols(m)
    ensures forall i :: 0 <= i < |m| && i != row ==> t[i] == m[i]
    ensures forall j :: 0 <= j < Cols(m) ==> t[row][j] == if j < from then m[row][j] else Mul(m[row][j], c)
    ensures t == ScaledRowOf(m, row, from, c)
  {
    t := m;
    var col := from;
    while col < Cols(m)
      invariant from <= col
      invariant Shape(t, |m|, Cols(m))
      invariant forall i :: 0 <= i < |m| && i != row ==> t[i] == m[i]
      invariant forall j :: 0 <= j < Cols(m) ==>
        t[row][j] == if j < from || col <= j then m[row][j] else Mul(m[row][j], c)
    {
      t := t[row := t[row][col := Mul(t[row][col], c)]];
      col := col + 1;
    }
    var f := ScaledRowOf(m, row, from, c);
    assert t[row] == f[row];
    assert forall i :: 0 <= i < |m| ==> t[i] == f[i];
  }

  // ---------------------------------------------------------------------
  // getLinearDependenceVector and rank
  // ---------------------------------------------------------------------

  /** Row numbers, each below n. */
  predicate RowsBelow(s: seq<nat>, n: nat) {
    forall i :: 0 <= i < |s| ==> s[i] < n
  }

  /** Strictly ascending row numbers, each below n. */
  predicate AscendingBelow(s: seq<nat>, n: nat) {
    (forall i, j :: 0 <= i < j < |s| ==> s[i] < s[j]) && RowsBelow(s, n)
  }

  /** 0, 1, ..., n - 1: row_index_array before any row is taken out. */
  function Range(n: nat): (s: seq<nat>)
    ensures |s| == n && forall i :: 0 <= i < n ==> s[i] == i
  {
    seq(n, i requires 0 <= i < n => i)
  }

  /** Every cell's modulus is at most tol (compared squared, tol being positive). */
  predicate WithinTolerance(m: Grid, tol: real)
    requires IsRect(m)
  {
    forall i, j :: 0 <= i < |m| && 0 <= j < Cols(m) ==> NormSq(m[i][j]) <= tol * tol
  }

  /** The squared tolerance, which the pivot search compares squared moduli against. */
  function Squared(tol: real): (b: real)
    ensures b >= 0.0 && b == tol * tol
  {
    SquareSign(tol, tol * tol);
    tol * tol
  }

  /** The winner of a pivot search over remaining rows: its squared modulus and its position in the list. */
  datatype Pick = Pick(best: real, key: nat)

  /**
   * The pivot search over the first q remaining rows: the first of them
   * whose cell in column col is largest. Nothing above zero found leaves
   * both at zero.
   */
  function MaxRemainingOf(m: Grid, rest: seq<nat>, col: nat, q: nat): (p: Pick)
    requires IsRect(m) && col < Cols(m) && RowsBelow(rest, |m|) && q <= |rest|
    ensures p.best >= 0.0
    ensures p.best == 0.0 ==> p.key == 0
    ensures p.best != 0.0 ==> p.key < q && p.best == NormSq(m[rest[p.key]][col]) && m[rest[p.key]][col] != ZERO
  {
    if q == 0 then Pick(0.0, 0)
    else
      var p := MaxRemainingOf(m, rest, col, q - 1);
      if NormSq(m[rest[q - 1]][col]) > p.best then Pick(NormSq(m[rest[q - 1]][col]), q - 1) else p
  }

  /**
   * The winner is a largest cell among the first q listed, and the first
   * of them: every listed cell before it is strictly smaller.
   */
  lemma {:induction false} MaxRemainingIsMax(m: Grid, rest: seq<nat>, col: nat, q: nat)
    requires IsRect(m) && col < Cols(m) && RowsBelow(rest, |m|) && q <= |rest|
    ensures var p := MaxRemainingOf(m, rest, col, q);
      (forall s :: 0 <= s < q ==> NormSq(m[rest[s]][col]) <= p.best) &&
      forall s :: 0 <= s < p.key ==> NormSq(m[rest[s]][col]) < p.best
  {
    if q > 0 {
      MaxRemainingIsMax(m, rest, col, q - 1);
    }
  }

  /**
   * The pivot search over the remaining rows: the first remaining row
   * whose cell in column col is largest, as its position `key` in rest
   * and its row number. Nothing found leaves all three at zero.
   */
  method MaxRemaining(m: Grid, rest: seq<nat>, col: nat) returns (best: real, key: nat, pivot: nat)
    requires IsRect(m) && col < Cols(m) && RowsBelow(rest, |m|)
    ensures Pick(best, key) == MaxRemainingOf(m, rest, col, |rest|)
    ensures pivot == if best != 0.0 then rest[key] else 0
  {
    best, key, pivot := 0.0, 0, 0;
    var q := 0;
    while q < |rest|
      invariant 0 <= q <= |rest|
      invariant best == 0.0 ==> pivot == 0
      invariant best != 0.0 ==> key < q && pivot == rest[key]
      invariant Pick(best, key) == MaxRemainingOf(m, rest, col, q)
    {
      var norm := NormSq(m[rest[q]][col]);
      if norm > best {
        best, key, pivot := norm, q, rest[q];
      }
      q := q + 1;
    }
  }

  /**
   * Row i after the pivot row has been subtracted from it, scaled so that
   * column col cancels; the columns before col are not touched.
   */
  function EliminatedRowOf(m: Grid, i: nat, pivot: nat, col: nat): (r: seq<Complex>)
    requires IsRect(m) && col < Cols(m) && i < |m| && pivot < |m| && m[pivot][col] != ZERO
    ensures |r| == Cols(m)
  {
    var factor := Div(m[i][col], m[pivot][col]).value;
    seq(Cols(m), j requires 0 <= j < Cols(m) => if j < col then m[i][j] else Sub(m[i][j], Mul(m[pivot][j], factor)))
  }

  /**
   * m after the pivot row has been eliminated from every row listed in
   * rest, one listed row after another.
   */
  function EliminatedRest(m: Grid, rest: seq<nat>, pivot: nat, col: nat): (t: Grid)
    requires IsRect(m) && col < Cols(m) && pivot < |m| && m[pivot][col] != ZERO
    ensures Shape(t, |m|, Cols(m)) && IsRect(t) && Cols(t) == Cols(m)
    decreases |rest|
  {
    if |rest| == 0 then m
    else
      var t := EliminatedRest(m, rest[..|rest| - 1], pivot, col);
      var row := rest[|rest| - 1];
      if row < |m| then t[row := EliminatedRowOf(m, row, pivot, col)] else t
  }

  /** Each listed row is eliminated once, and every other row is left as it was. */
  lemma {:induction false} EliminatedRestRows(m: Grid, rest: seq<nat>, pivot: nat, col: nat)
    requires IsRect(m) && col < Cols(m) && pivot < |m| && m[pivot][col] != ZERO
    ensures var t := EliminatedRest(m, rest, pivot, col);
      forall i :: 0 <= i < |m| ==> t[i] == if i in rest then EliminatedRowOf(m, i, pivot, col) else m[i]
    decreases |rest|
  {
    if |rest| > 0 {
      var row := rest[|rest| - 1];
      EliminatedRestRows(m, rest[..|rest| - 1], pivot, col);
      assert forall i :: i in rest <==> i in rest[..|rest| - 1] || i == row by {
        assert rest == rest[..|rest| - 1] + [row];
      }
    }
  }

  /**
   * The elimination leaves the pivot row and the rows not listed alone,
   * and clears column col in every listed row other than the pivot.
   */
  lemma EliminatedRestClears(m: Grid, rest: seq<nat>, pivot: nat, col: nat)
    requires IsRect(m) && col < Cols(m) && pivot < |m| && m[pivot][col] != ZERO
    requires forall s :: 0 <= s < |rest| ==> rest[s] != pivot
    ensures var t := EliminatedRest(m, rest, pivot, col);
      t[pivot] == m[pivot] &&
      (forall i :: 0 <= i < |m| && i !in rest ==> t[i] == m[i]) &&
      forall s :: 0 <= s < |rest| && rest[s] < |m| ==> t[rest[s]][col] == ZERO
  {
    var t := EliminatedRest(m, rest, pivot, col);
    EliminatedRestRows(m, rest, pivot, col);
    forall s | 0 <= s < |rest| && rest[s] < |m|
      ensures t[rest[s]][col] == ZERO
    {
      var a, b := m[rest[s]][col], m[pivot][col];
      DivRoundTrip(a, b);
      assert t[rest[s]][col] == Sub(a, Mul(b, Div(a, b).value));
    }
  }

  /** Eliminating from one more listed row updates that row alone. */
  lemma EliminatedRestSnoc(m: Grid, rest: seq<nat>, s: nat, pivot: nat, col: nat)
    requires IsRect(m) && col < Cols(m) && pivot < |m| && m[pivot][col] != ZERO
    requires s < |rest| && rest[s] < |m|
    ensures EliminatedRest(m, rest[..s + 1], pivot, col) ==
      EliminatedRest(m, rest[..s], pivot, col)[rest[s] := EliminatedRowOf(m, rest[s], pivot, col)]
  {
    assert rest[..s + 1][..s] == rest[..s];
  }

  /** One pass of EliminateRow on a row still as in m leaves that row as EliminatedRowOf says. */
  lemma EliminatedRowMatches(m: Grid, t: Grid, u: Grid, row: nat, pivot: nat, col: nat)
    requires IsRect(m) && col < Cols(m) && pivot < |m| && m[pivot][col] != ZERO && row < |m| && row != pivot
    requires Shape(t, |m|, Cols(m)) && t[row] == m[row] && t[pivot] == m[pivot]
    requires Shape(u, |m|, Cols(m)) && forall i :: 0 <= i < |m| && i != row ==> u[i] == t[i]
    requires forall j :: 0 <= j < Cols(m) ==>
      u[row][j] == if j < col then t[row][j] else Sub(t[row][j], Mul(t[pivot][j], Div(t[row][col], t[pivot][col]).value))
    ensures u == t[row := EliminatedRowOf(m, row, pivot, col)]
  {
    assert u[row] == EliminatedRowOf(m, row, pivot, col);
  }

  /** Subtracting the pivot row from every remaining row, each scaled so that column col cancels. */
  method EliminateRemaining(m: Grid, rest: seq<nat>, pivot: nat, col: nat) returns (t: Grid)
    requires IsRect(m) && col < Cols(m) && pivot < |m| && m[pivot][col] != ZERO
    requires AscendingBelow(rest, |m|) && forall s :: 0 <= s < |rest| ==> rest[s] != pivot
    ensures Shape(t, |m|, Cols(m)) && IsRect(t) && Cols(t) == Cols(m)
    ensures t[pivot] == m[pivot]
    ensures forall s :: 0 <= s < |rest| ==> t[rest[s]][col] == ZERO
    ensures t == EliminatedRest(m, rest, pivot, col)
  {
    t := m;
    var s := 0;
    while s < |rest|
      invariant 0 <= s <= |rest|
      invariant t == EliminatedRest(m, rest[..s], pivot, col)
    {
      var row := rest[s];
      assert row !in rest[..s];
      EliminatedRestRows(m, rest[..s], pivot, col);
      assert t[row] == m[row] && t[pivot] == m[pivot];
      var inv := Div(t[row][col], t[pivot][col]).value;
      var u := EliminateRow(t, row, pivot, col, inv);
      EliminatedRowMatches(m, t, u, row, pivot, col);
      EliminatedRestSnoc(m, rest, s, pivot, col);
      t := u;
      s := s + 1;
    }
    assert rest[..s] == rest;
    EliminatedRestClears(m, rest, pivot, col);
  }

  /** Taking out position key of a strictly ascending list leaves a strictly ascending list without that row. */
  lemma SpliceAscending(rest: seq<nat>, key: nat, n: nat)
    requires AscendingBelow(rest, n) && key < |rest|
    ensures AscendingBelow(rest[..key] + rest[key + 1..], n)
    ensures var t := rest[..key] + rest[key + 1..];
      |t| == |rest| - 1 && forall s :: 0 <= s < |t| ==> t[s] != rest[key]
  {
    var t := rest[..key] + rest[key + 1..];
    assert forall s :: 0 <= s < |t| ==> t[s] == if s < key then rest[s] else rest[s + 1];
  }

  /** The working grid and the list of rows not yet taken as pivots. */
  datatype Stage = Stage(grid: Grid, rows: seq<nat>)

  /**
   * Column ct of the extraction, bound being the squared tolerance: the
   * largest listed cell, when its squared modulus exceeds the bound, takes
   * its row out of the list and, unless the column is the last, is
   * eliminated from the rows still listed; otherwise nothing changes.
   */
  function ColumnOf(m: Grid, rest: seq<nat>, ct: nat, bound: real): (g: Stage)
    requires IsRect(m) && ct < Cols(m) && RowsBelow(rest, |m|) && bound >= 0.0
    ensures Shape(g.grid, |m|, Cols(m)) && IsRect(g.grid) && Cols(g.grid) == Cols(m)
    ensures RowsBelow(g.rows, |m|) && |rest| - 1 <= |g.rows| <= |rest|
  {
    var p := MaxRemainingOf(m, rest, ct, |rest|);
    if p.best > bound then
      var left := rest[..p.key] + rest[p.key + 1..];
      assert forall s :: 0 <= s < |left| ==> left[s] == if s < p.key then rest[s] else rest[s + 1];
      Stage(if ct != Cols(m) - 1 then EliminatedRest(m, left, rest[p.key], ct) else m, left)
    else
      Stage(m, rest)
  }

  /** The rows left in `rest` once columns ct .. cols - 1 have been processed. */
  function DependentRowsOf(m: Grid, rest: seq<nat>, ct: nat, bound: real): (r: seq<nat>)
    requires IsRect(m) && ct <= Cols(m) && RowsBelow(rest, |m|) && bound >= 0.0
    ensures RowsBelow(r, |m|) && |rest| - (Cols(m) - ct) <= |r| <= |rest|
    decreases Cols(m) - ct
  {
    if ct == Cols(m) then rest
    else
      var g := ColumnOf(m, rest, ct, bound);
      DependentRowsOf(g.grid, g.rows, ct + 1, bound)
  }

  /** Every listed row is within the bound in columns ct .. cols - 1. */
  predicate ListedWithin(m: Grid, rest: seq<nat>, ct: nat, bound: real)
    requires IsRect(m) && RowsBelow(rest, |m|)
  {
    forall s, j :: 0 <= s < |rest| && ct <= j < Cols(m) ==> NormSq(m[rest[s]][j]) <= bound
  }

  /** The extraction from column ct on is the extraction from ct + 1 on of column ct's outcome. */
  lemma DependentRowsNext(m: Grid, rest: seq<nat>, ct: nat, bound: real)
    requires IsRect(m) && ct < Cols(m) && RowsBelow(rest, |m|) && bound >= 0.0
    ensures var g := ColumnOf(m, rest, ct, bound);
      DependentRowsOf(m, rest, ct, bound) == DependentRowsOf(g.grid, g.rows, ct + 1, bound)
  {
  }

  /** A column whose winner exceeds the bound: the winner leaves the list and is eliminated. */
  lemma ColumnTakes(m: Grid, rest: seq<nat>, ct: nat, bound: real)
    requires IsRect(m) && ct < Cols(m) && RowsBelow(rest, |m|) && bound >= 0.0
    requires MaxRemainingOf(m, rest, ct, |rest|).best > bound
    ensures var key := MaxRemainingOf(m, rest, ct, |rest|).key;
      key < |rest| && m[rest[key]][ct] != ZERO &&
      var left := rest[..key] + rest[key + 1..];
      ColumnOf(m, rest, ct, bound) ==
        Stage(if ct != Cols(m) - 1 then EliminatedRest(m, left, rest[key], ct) else m, left)
  {
  }

  /**
   * A column whose winner is within the bound changes nothing, and every
   * listed cell of it is within the bound.
   */
  lemma ColumnSkips(m: Grid, rest: seq<nat>, ct: nat, bound: real)
    requires IsRect(m) && ct < Cols(m) && RowsBelow(rest, |m|) && bound >= 0.0
    requires MaxRemainingOf(m, rest, ct, |rest|).best <= bound
    ensures ColumnOf(m, rest, ct, bound) == Stage(m, rest)
    ensures DependentRowsOf(m, rest, ct, bound) == DependentRowsOf(m, rest, ct + 1, bound)
    ensures ListedWithin(m, rest, ct, bound) <==> ListedWithin(m, rest, ct + 1, bound)
  {
    MaxRemainingIsMax(m, rest, ct, |rest|);
  }

  /** Past the last column the list is what it was, and every listed row is within the bound vacuously. */
  lemma AllColumnsDone(m: Grid, rest: seq<nat>, bound: real)
    requires IsRect(m) && RowsBelow(rest, |m|) && bound >= 0.0
    ensures DependentRowsOf(m, rest, Cols(m), bound) == rest && ListedWithin(m, rest, Cols(m), bound)
  {
  }

  /**
   * No listed row leaves over columns ct .. cols - 1 exactly when every
   * listed row is within the bound in each of those columns.
   */
  lemma {:induction false} DependentRowsKeepAll(m: Grid, rest: seq<nat>, ct: nat, bound: real)
    requires IsRect(m) && ct <= Cols(m) && RowsBelow(rest, |m|) && bound >= 0.0
    ensures |DependentRowsOf(m, rest, ct, bound)| == |rest| <==> ListedWithin(m, rest, ct, bound)
    decreases Cols(m) - ct
  {
    if ct == Cols(m) {
      AllColumnsDone(m, rest, bound);
    } else if MaxRemainingOf(m, rest, ct, |rest|).best > bound {
      PivotLeaves(m, rest, ct, bound);
    } else {
      ColumnSkips(m, rest, ct, bound);
      DependentRowsKeepAll(m, rest, ct + 1, bound);
    }
  }

  /** A column whose largest listed cell exceeds the bound takes a row out of the list. */
  lemma PivotLeaves(m: Grid, rest: seq<nat>, ct: nat, bound: real)
    requires IsRect(m) && ct < Cols(m) && RowsBelow(rest, |m|) && bound >= 0.0
    requires MaxRemainingOf(m, rest, ct, |rest|).best > bound
    ensures |DependentRowsOf(m, rest, ct, bound)| < |rest|
    ensures var key := MaxRemainingOf(m, rest, ct, |rest|).key;
      key < |rest| && NormSq(m[rest[key]][ct]) > bound
    ensures !ListedWithin(m, rest, ct, bound)
  {
    ColumnTakes(m, rest, ct, bound);
  }

  /**
   * The extraction of the whole grid: at most one row leaves per column,
   * and none leaves exactly when every cell is within tol.
   */
  lemma DependentRowsBounds(mat: Grid, tol: real)
    requires IsRect(mat)
    ensures var r := DependentRowsOf(mat, Range(|mat|), 0, Squared(tol));
      |mat| - Cols(mat) <= |r| <= |mat| &&
      (|r| == |mat| <==> WithinTolerance(mat, tol))
  {
    var rest := Range(|mat|);
    DependentRowsKeepAll(mat, rest, 0, Squared(tol));
    if WithinTolerance(mat, tol) {
      assert ListedWithin(mat, rest, 0, Squared(tol));
    } else {
      var i, j :| 0 <= i < |mat| && 0 <= j < Cols(mat) && NormSq(mat[i][j]) > tol * tol;
      assert rest[i] == i;
    }
  }

  /**
   * The winner at position key of the list leaves it, and unless column ct
   * is the last it is eliminated from the rows still listed.
   */
  method TakePivot(m: Grid, rest: seq<nat>, key: nat, ct: nat) returns (t: Grid, left: seq<nat>)
    requires IsRect(m) && ct < Cols(m) && AscendingBelow(rest, |m|) && key < |rest| && m[rest[key]][ct] != ZERO
    ensures Shape(t, |m|, Cols(m)) && IsRect(t) && Cols(t) == Cols(m)
    ensures AscendingBelow(left, |m|) && |left| == |rest| - 1
    ensures left == rest[..key] + rest[key + 1..]
    ensures t == if ct != Cols(m) - 1 then EliminatedRest(m, left, rest[key], ct) else m
  {
    SpliceAscending(rest, key, |m|);
    left := rest[..key] + rest[key + 1..];
    t := m;
    if ct != Cols(m) - 1 {
      t := EliminateRemaining(m, left, rest[key], ct);
    }
  }

  /**
   * One column of getLinearDependenceVector: the pivot search, and when
   * the winner exceeds the bound its removal from the list and its
   * elimination from the rows still listed.
   */
  method ColumnStep(m: Grid, rest: seq<nat>, ct: nat, bound: real) returns (t: Grid, left: seq<nat>, took: bool)
    requires IsRect(m) && ct < Cols(m) && AscendingBelow(rest, |m|) && bound >= 0.0
    ensures took <==> MaxRemainingOf(m, rest, ct, |rest|).best > bound
    ensures AscendingBelow(left, |m|)
    ensures Stage(t, left) == ColumnOf(m, rest, ct, bound)
  {
    var best, key, pivot := MaxRemaining(m, rest, ct);
    if best > bound {
      assert m[rest[key]][ct] != ZERO;
      t, left := TakePivot(m, rest, key, ct);
      took := true;
      assert Stage(t, left) == ColumnOf(m, rest, ct, bound) by {
        ColumnTakes(m, rest, ct, bound);
      }
    } else {
      t, left, took := m, rest, false;
      assert Stage(t, left) == ColumnOf(m, rest, ct, bound) by {
        ColumnSkips(m, rest, ct, bound);
      }
    }
  }

  /**
   * getLinearDependenceVector: Gaussian elimination column by column on a
   * copy of the grid. In each column the largest remaining cell, when its
   * modulus exceeds the tolerance (1e-10 when none is given), takes its
   * row out of the list and is eliminated from the rows still in it; the
   * rows left at the end, in ascending order, are the dependent ones:
   * the list DependentRowsOf describes, whose bounds DependentRowsBounds
   * states.
   */
  method LinearDependenceVector(mat: Grid, tolerance: real) returns (rest: seq<nat>)
    requires IsRect(mat) && tolerance >= 0.0
    ensures AscendingBelow(rest, |mat|)
    ensures rest == DependentRowsOf(mat, Range(|mat|), 0, Squared(GridTests.MatTol(tolerance)))
  {
    var tol := GridTests.MatTol(tolerance);
    var bound := Squared(tol);
    var m := mat;
    var rows, cols := |mat|, Cols(mat);
    rest := Range(rows);
    ghost var dependent := DependentRowsOf(m, rest, 0, bound);
    var ct := 0;
    while ct < cols
      invariant 0 <= ct <= cols
      invariant Shape(m, rows, cols) && IsRect(m) && Cols(m) == cols
      invariant AscendingBelow(rest, rows)
      invariant DependentRowsOf(m, rest, ct, bound) == dependent
    {
      var t, left, took := ColumnStep(m, rest, ct, bound);
      DependentRowsNext(m, rest, ct, bound);
      m, rest, ct := t, left, ct + 1;
    }
    AllColumnsDone(m, rest, bound);
  }

  /**
   * The extraction with a negative tolerance: the largest modulus, which
   * starts at 0, always exceeds it, so no column is skipped and every column
   * takes one row out of the list while any is left. Which row goes depends
   * on the NaN cells that dividing by a zero pivot leaves; how many do does not.
   */
  method RowsLeftUnbounded(rows: nat, cols: nat) returns (left: nat)
    ensures left == rows - Min(rows, cols)
  {
    left := rows;
    var ct := 0;
    while ct < cols
      invariant 0 <= ct <= cols
      invariant left == rows - Min(rows, ct)
    {
      if left > 0 {
        left := left - 1;
      }
      ct := ct + 1;
    }
  }

  /**
   * rank: the number of rows the extraction takes out. Both branches of
   * the source subtract the dependent rows from the row count (for a wide
   * grid min(rows, cols) is the row count). The rank is at most
   * min(rows, cols), and with a tolerance of zero or more it is zero
   * exactly when every cell is within the tolerance. A negative tolerance
   * lets every column take a row out: the rank is then min(rows, cols),
   * whatever the cells.
   */
  method Rank(mat: Grid, tolerance: real) returns (rank: nat)
    requires IsRect(mat)
    ensures rank <= Min(|mat|, Cols(mat))
    ensures tolerance < 0.0 ==> rank == Min(|mat|, Cols(mat))
    ensures tolerance >= 0.0 ==> (rank == 0 <==> WithinTolerance(mat, GridTests.MatTol(tolerance)))
    ensures tolerance >= 0.0 ==>
      rank == |mat| - |DependentRowsOf(mat, Range(|mat|), 0, Squared(GridTests.MatTol(tolerance)))|
  {
    var dependent: nat;
    if tolerance < 0.0 {
      dependent := RowsLeftUnbounded(|mat|, Cols(mat));
    } else {
      var rest := LinearDependenceVector(mat, tolerance);
      DependentRowsBounds(mat, GridTests.MatTol(tolerance));
      dependent := |rest|;
    }
    if |mat| <= Cols(mat) {
      rank := Min(|mat|, Cols(mat)) - dependent;
    } else {
      rank := |mat| - dependent;
    }
  }
}
