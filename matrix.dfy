/**
 * The Matrix object: `matrix_array` (rows of complex numbers), `row_length`
 * and `column_length`. The private `_`-operations change the object in
 * place; every public operation works on a clone, or builds a new Matrix.
 *
 * Integer arguments are taken after `Matrix._toInteger` (truncation of a
 * real scalar), so they are `int` here.
 */
module Matrices {
  import opened Wrappers
  import opened ComplexNum
  import opened Grid
  import G = Grid
  import Splice
  import ComplexOrder
  import MatrixTool
  import MatrixInput
  import GridTests
  import Selection
  import Vectors
  import Text
  import Arithmetic
  import Products
  import Sorting
  import Reordering

  /** The outcome of an in-place operation: done, or the exception it throws (before changing anything). */
  datatype Status = Done | Failed(msg: string)

  /** pow's messages; the source appends the matrix or the exponent as text. */
  const NOT_SQUARE: string := "not square "
  const NEGATIVE_EXPONENT: string := "error negative number "

  class Matrix {
    var matrix_array: Grid
    var row_length: nat
    var column_length: nat

    /** Every Matrix is non-empty and rectangular, and its lengths describe its array. */
    ghost predicate Valid()
      reads this
    {
      IsRect(matrix_array) && row_length == |matrix_array| && column_length == Cols(matrix_array)
    }

    /** The constructor's last step, after the argument has been read into a correct array. */
    constructor (m: Grid)
      requires IsRect(m)
      ensures Valid() && matrix_array == m
    {
      matrix_array := m;
      row_length := |m|;
      column_length := |m[0]|;
    }

    /** clone(): a new Matrix holding the same cells. */
    method Clone() returns (c: Matrix)
      requires Valid()
      ensures fresh(c) && c.Valid() && c.matrix_array == matrix_array
    {
      c := new Matrix(matrix_array);
    }

    // -------------------------------------------------------------------
    // Shape
    // -------------------------------------------------------------------

    function Scalar(): Complex
      requires Valid()
      reads this
    {
      matrix_array[0][0]
    }

    predicate IsScalar() reads this { row_length == 1 && column_length == 1 }
    predicate IsRow() reads this { row_length == 1 }
    predicate IsColumn() reads this { column_length == 1 }
    predicate IsVector() reads this { row_length == 1 || column_length == 1 }
    predicate IsMatrix() reads this { row_length != 1 && column_length != 1 }
    predicate IsSquare() reads this { row_length == column_length }

    /** length(): the larger of the two dimensions. */
    function Length(): (n: nat)
      reads this
      ensures n >= row_length && n >= column_length && (n == row_length || n == column_length)
    {
      if row_length > column_length then row_length else column_length
    }

    // -------------------------------------------------------------------
    // In-place primitives
    // -------------------------------------------------------------------

    /**
     * _resize(r, c): r×c, every overlapping cell kept and the new cells
     * ZERO. The same shape is a no-op; otherwise r ≤ 0 or c ≤ 0 throws.
     */
    method ResizeInPlace(r: int, c: int) returns (s: Status)
      requires Valid()
      modifies this
      ensures Valid()
      ensures s.Failed? <==> !(r == old(row_length) && c == old(column_length)) && (r <= 0 || c <= 0)
      ensures s.Failed? ==> matrix_array == old(matrix_array)
      ensures s.Done? ==> r > 0 && c > 0 && matrix_array == Resized(old(matrix_array), r, c)
    {
      if r == row_length && c == column_length {
        ResizeSame(matrix_array);
        return Done;
      }
      if r <= 0 || c <= 0 {
        return Failed("_resize");
      }
      var m := matrix_array;
      var row_max := Max(row_length, r);
      var col_max := Max(column_length, c);
      // Fill the grown rows and columns with zeros.
      var y := m;
      var row := 0;
      while row < row_max
        invariant 0 <= row <= row_max
        invariant |y| == Max(|m|, row)
        invariant forall i :: 0 <= i < row ==> Filled(m, y[i], i, col_max)
        invariant forall i :: row <= i < |y| ==> y[i] == m[i]
      {
        var line := GrowRow(m, row, col_max);
        if row >= |m| {
          y := y + [line];
        } else {
          y := y[row := line];
        }
        row := row + 1;
      }
      // Cut the rows and columns that shrank.
      if |m| > r {
        y := y[..r];
      }
      var k := 0;
      while k < |y|
        invariant 0 <= k <= |y| == r
        invariant forall i :: 0 <= i < k ==> Filled(m, y[i], i, c)
        invariant forall i :: k <= i < |y| ==> Filled(m, y[i], i, col_max)
      {
        y := y[k := y[k][..c]];
        k := k + 1;
      }
      GridEq(y, Resized(m, r, c), r, c);
      matrix_array := y;
      row_length := r;
      column_length := c;
      s := Done;
    }

    /** Row `row` of a resize to `c` columns: the old cells, then ZERO. */
    static ghost predicate Filled(m: Grid, line: seq<Complex>, row: nat, c: nat)
      requires IsRect(m)
    {
      |line| == c && forall j :: 0 <= j < c ==> line[j] == if row < |m| && j < Cols(m) then m[row][j] else ZERO
    }

    /** One row of _resize's fill loop: the old cells, then ZERO up to col_max. */
    static method GrowRow(m: Grid, row: nat, col_max: nat) returns (line: seq<Complex>)
      requires IsRect(m) && Cols(m) <= col_max
      ensures Filled(m, line, row, col_max)
    {
      line := if row >= |m| then [] else m[row];
      var col := 0;
      while col < col_max
        invariant 0 <= col <= col_max
        invariant |line| == if row < |m| then Max(Cols(m), col) else col
        invariant forall j :: 0 <= j < col ==> line[j] == if row < |m| && j < Cols(m) then m[row][j] else ZERO
        invariant row < |m| ==> forall j :: col <= j < |line| ==> line[j] == m[row][j]
      {
        if row >= |m| || col >= Cols(m) {
          line := line + [ZERO];
        }
        col := col + 1;
      }
    }

    /** rot_90_count reduced to 0..3 as `((count % 4) + 4) % 4`; no argument means one turn. */
    static function RotType(count: int, given: bool): (t: int)
      ensures 0 <= t < 4
      ensures given ==> t == count % 4
    {
      if given then JsRemNormalised(count, 4); (JsRem(count, 4) + 4) % 4 else 1
    }

    /**
     * _rot90(count): `count` clockwise quarter turns, through the backup
     * copy `x`; a count that is 0 mod 4 leaves the matrix as it is.
     */
    method Rot90InPlace(count: int, given: bool) returns (s: Status)
      requires Valid()
      modifies this
      ensures Valid() && s == Done
      ensures matrix_array == Rotated(old(matrix_array), RotType(count, given))
    {
      var rot_type := RotType(count, given);
      s := Done;
      if rot_type == 0 {
        return;
      }
      var x := matrix_array;
      var y := RotateCopy(x, rot_type);
      matrix_array := y;
      row_length := |y|;
      column_length := |y[0]|;
    }

    /** Cell (i, j) of x after rot_type quarter turns, as the three loops of _rot90 read it. */
    static function RotCell(x: Grid, rot_type: int, i: int, j: int): Complex
      requires IsRect(x) && 1 <= rot_type < 4
      requires rot_type == 2 ==> 0 <= i < |x| && 0 <= j < Cols(x)
      requires rot_type != 2 ==> 0 <= i < Cols(x) && 0 <= j < |x|
    {
      if rot_type == 1 then x[|x| - j - 1][i]
      else if rot_type == 2 then x[|x| - i - 1][Cols(x) - j - 1]
      else x[j][Cols(x) - i - 1]
    }

    /** The loops of _rot90: each result row filled from the backup. */
    static method RotateCopy(x: Grid, rot_type: int) returns (y: Grid)
      requires IsRect(x) && 1 <= rot_type < 4
      ensures y == Rotated(x, rot_type)
    {
      var out_rows := if rot_type == 2 then |x| else Cols(x);
      var out_cols := if rot_type == 2 then Cols(x) else |x|;
      y := [];
      var i := 0;
      while i < out_rows
        invariant 0 <= i <= out_rows
        invariant |y| == i
        invariant forall a, b :: 0 <= a < i && 0 <= b < out_cols ==> |y[a]| == out_cols && y[a][b] == RotCell(x, rot_type, a, b)
        invariant forall a :: 0 <= a < i ==> |y[a]| == out_cols
      {
        var line := [];
        var j := 0;
        while j < out_cols
          invariant 0 <= j <= out_cols
          invariant |line| == j
          invariant forall b :: 0 <= b < j ==> line[b] == RotCell(x, rot_type, i, b)
        {
          line := line + [RotCell(x, rot_type, i, j)];
          j := j + 1;
        }
        y := y + [line];
        i := i + 1;
      }
      GridEq(y, Rotated(x, rot_type), out_rows, out_cols);
    }

    /**
     * _deleteRow(i): row i removed, the others kept in order. A single row,
     * or i ≥ rows, throws; a negative i counts from the end, as splice does.
     */
    method DeleteRowInPlace(i: int) returns (s: Status)
      requires Valid()
      modifies this
      ensures Valid()
      ensures s.Failed? <==> old(row_length) == 1 || old(row_length) <= i
      ensures s.Failed? ==> matrix_array == old(matrix_array)
      ensures s.Done? ==> matrix_array == DeleteRowAt(old(matrix_array), Splice.ActualStart(i, old(row_length)))
    {
      if row_length == 1 || row_length <= i {
        return Failed("_deleteRow");
      }
      var k := Splice.ActualStart(i, row_length);
      matrix_array := matrix_array[..k] + matrix_array[k + 1..];
      row_length := row_length - 1;
      s := Done;
    }

    /** _deleteColumn(i): column i removed from every row, under the same conditions. */
    method DeleteColumnInPlace(i: int) returns (s: Status)
      requires Valid()
      modifies this
      ensures Valid()
      ensures s.Failed? <==> old(column_length) == 1 || old(column_length) <= i
      ensures s.Failed? ==> matrix_array == old(matrix_array)
      ensures s.Done? ==> matrix_array == DeleteColumnAt(old(matrix_array), Splice.ActualStart(i, old(column_length)))
    {
      if column_length == 1 || column_length <= i {
        return Failed("_deleteColumn");
      }
      var k := Splice.ActualStart(i, column_length);
      var m := matrix_array;
      var y := m;
      var row := 0;
      while row < row_length
        invariant 0 <= row <= row_length == |m| == |y|
        invariant forall a :: 0 <= a < row ==> y[a] == m[a][..k] + m[a][k + 1..]
        invariant forall a :: row <= a < |y| ==> y[a] == m[a]
      {
        y := y[row := y[row][..k] + y[row][k + 1..]];
        row := row + 1;
      }
      assert y == DeleteColumnAt(m, k);
      matrix_array := y;
      column_length := column_length - 1;
      s := Done;
    }

    /**
     * _exchangeRow(a, b): rows a and b swapped. A single row throws, even
     * for (0, 0); an index past the last row throws; a == b is a no-op.
     */
    method ExchangeRowInPlace(a: nat, b: nat) returns (s: Status)
      requires Valid()
      modifies this
      ensures Valid()
      ensures s.Failed? <==> old(row_length) == 1 || old(row_length) <= a || old(row_length) <= b
      ensures s.Failed? ==> matrix_array == old(matrix_array)
      ensures s.Done? ==> matrix_array == SwapRows(old(matrix_array), a, b)
    {
      if row_length == 1 || row_length <= a || row_length <= b {
        return Failed("_exchangeRow");
      }
      s := Done;
      if a == b {
        SwapRowsInvolution(matrix_array, a, b);
        return;
      }
      var swap := matrix_array[a];
      matrix_array := matrix_array[a := matrix_array[b]];
      matrix_array := matrix_array[b := swap];
    }

    /** _exchangeColumn(a, b): columns a and b swapped in every row, under the same conditions. */
    method ExchangeColumnInPlace(a: nat, b: nat) returns (s: Status)
      requires Valid()
      modifies this
      ensures Valid()
      ensures s.Failed? <==> old(column_length) == 1 || old(column_length) <= a || old(column_length) <= b
      ensures s.Failed? ==> matrix_array == old(matrix_array)
      ensures s.Done? ==> matrix_array == SwapColumns(old(matrix_array), a, b)
    {
      if column_length == 1 || column_length <= a || column_length <= b {
        return Failed("_exchangeColumn");
      }
      s := Done;
      var m := matrix_array;
      if a == b {
        assert forall i :: 0 <= i < |m| ==> m[i][a := m[i][b]][b := m[i][a]] == m[i];
        assert m == SwapColumns(m, a, b);
        return;
      }
      var y := m;
      var row := 0;
      while row < row_length
        invariant 0 <= row <= row_length == |m| == |y|
        invariant forall i :: 0 <= i < row ==> y[i] == m[i][a := m[i][b]][b := m[i][a]]
        invariant forall i :: row <= i < |y| ==> y[i] == m[i]
      {
        var swap := y[row][a];
        y := y[row := y[row][a := y[row][b]]];
        y := y[row := y[row][b := swap]];
        row := row + 1;
      }
      assert y == SwapColumns(m, a, b);
      matrix_array := y;
    }

    /** _concatRight(M): M's cells pushed onto the end of each row; the row counts must agree. */
    method ConcatRightInPlace(M: Matrix) returns (s: Status)
      requires Valid() && M.Valid()
      modifies this
      ensures Valid()
      ensures s.Failed? <==> old(row_length) != old(M.row_length)
      ensures s.Failed? ==> matrix_array == old(matrix_array)
      ensures s.Done? ==> matrix_array == G.ConcatRight(old(matrix_array), old(M.matrix_array))
    {
      if row_length != M.row_length {
        return Failed("_concatRight");
      }
      var m := matrix_array;
      var n := M.matrix_array;
      var y := m;
      var row := 0;
      while row < row_length
        invariant 0 <= row <= row_length == |m| == |y| == |n|
        invariant forall i :: 0 <= i < row ==> y[i] == m[i] + n[i]
        invariant forall i :: row <= i < |y| ==> y[i] == m[i]
      {
        var line := y[row];
        var col := 0;
        while col < |n[row]|
          invariant 0 <= col <= |n[row]|
          invariant line == m[row] + n[row][..col]
        {
          line := line + [n[row][col]];
          col := col + 1;
        }
        assert n[row][..|n[row]|] == n[row];
        y := y[row := line];
        row := row + 1;
      }
      assert y == G.ConcatRight(m, n);
      matrix_array := y;
      column_length := column_length + Cols(n);
      s := Done;
    }

    /** _concatBottom(M): M's rows pushed after the last row; the column counts must agree. */
    method ConcatBottomInPlace(M: Matrix) returns (s: Status)
      requires Valid() && M.Valid()
      modifies this
      ensures Valid()
      ensures s.Failed? <==> old(column_length) != old(M.column_length)
      ensures s.Failed? ==> matrix_array == old(matrix_array)
      ensures s.Done? ==> matrix_array == G.ConcatBottom(old(matrix_array), old(M.matrix_array))
    {
      if column_length != M.column_length {
        return Failed("_concatBottom");
      }
      var m := matrix_array;
      var n := M.matrix_array;
      var y := m;
      var row := 0;
      while row < |n|
        invariant 0 <= row <= |n|
        invariant y == m + n[..row]
      {
        y := y + [n[row]];
        row := row + 1;
      }
      assert n[..|n|] == n;
      matrix_array := y;
      row_length := row_length + |n|;
      s := Done;
    }

    /**
     * _each(f): f is called on every cell in row-major order with its row and
     * column; a result replaces the cell, no result (undefined) keeps it.
     */
    method EachInPlace(f: (Complex, int, int) -> Option<Complex>)
      requires Valid()
      modifies this
      ensures Valid()
      ensures matrix_array == EachCell(old(matrix_array), f)
    {
      var m := matrix_array;
      var y := m;
      var row := 0;
      while row < row_length
        invariant 0 <= row <= row_length == |m| == |y|
        invariant forall i :: 0 <= i < row ==> y[i] == EachCell(m, f)[i]
        invariant forall i :: row <= i < |y| ==> y[i] == m[i]
      {
        var line := y[row];
        var col := 0;
        while col < column_length
          invariant 0 <= col <= column_length == |line|
          invariant forall j :: 0 <= j < col ==> line[j] == EachCell(m, f)[row][j]
          invariant forall j :: col <= j < |line| ==> line[j] == m[row][j]
        {
          var ret := f(line[col], row, col);
          if ret.Some? {
            line := line[col := ret.value];
          }
          col := col + 1;
        }
        y := y[row := line];
        row := row + 1;
      }
      GridEq(y, EachCell(m, f), |m|, Cols(m));
      matrix_array := y;
    }

    // -------------------------------------------------------------------
    // Public wrappers: clone()._op(), the receiver left as it is
    // -------------------------------------------------------------------

    /** resize(r, c) */
    method Resize(r: int, c: int) returns (res: Result<Matrix>)
      requires Valid()
      ensures res.Err? <==> !(r == row_length && c == column_length) && (r <= 0 || c <= 0)
      ensures res.Ok? ==> fresh(res.value) && res.value.Valid() && res.value.matrix_array == Resized(matrix_array, r, c)
      ensures res.Ok? && r == row_length && c == column_length ==> res.value.matrix_array == matrix_array
    {
      if r == row_length && c == column_length {
        ResizeSame(matrix_array);
      }
      var y := Clone();
      var s := y.ResizeInPlace(r, c);
      if s.Failed? {
        return Err(s.msg);
      }
      return Ok(y);
    }

    /** rot90(count) */
    method Rot90(count: int, given: bool) returns (y: Matrix)
      requires Valid()
      ensures fresh(y) && y.Valid() && y.matrix_array == Rotated(matrix_array, RotType(count, given))
    {
      y := Clone();
      var s := y.Rot90InPlace(count, given);
    }

    /** deleteRow(i) */
    method DeleteRow(i: int) returns (res: Result<Matrix>)
      requires Valid()
      ensures res.Err? <==> row_length == 1 || row_length <= i
      ensures res.Ok? ==> fresh(res.value) && res.value.Valid()
      ensures res.Ok? ==> res.value.matrix_array == DeleteRowAt(matrix_array, Splice.ActualStart(i, row_length))
    {
      var y := Clone();
      var s := y.DeleteRowInPlace(i);
      if s.Failed? {
        return Err(s.msg);
      }
      return Ok(y);
    }

    /** deleteColumn(i) */
    method DeleteColumn(i: int) returns (res: Result<Matrix>)
      requires Valid()
      ensures res.Err? <==> column_length == 1 || column_length <= i
      ensures res.Ok? ==> fresh(res.value) && res.value.Valid()
      ensures res.Ok? ==> res.value.matrix_array == DeleteColumnAt(matrix_array, Splice.ActualStart(i, column_length))
    {
      var y := Clone();
      var s := y.DeleteColumnInPlace(i);
      if s.Failed? {
        return Err(s.msg);
      }
      return Ok(y);
    }

    /** exchangeRow(a, b) */
    method ExchangeRow(a: nat, b: nat) returns (res: Result<Matrix>)
      requires Valid()
      ensures res.Err? <==> row_length == 1 || row_length <= a || row_length <= b
      ensures res.Ok? ==> fresh(res.value) && res.value.Valid() && res.value.matrix_array == SwapRows(matrix_array, a, b)
    {
      var y := Clone();
      var s := y.ExchangeRowInPlace(a, b);
      if s.Failed? {
        return Err(s.msg);
      }
      return Ok(y);
    }

    /** exchangeColumn(a, b) */
    method ExchangeColumn(a: nat, b: nat) returns (res: Result<Matrix>)
      requires Valid()
      ensures res.Err? <==> column_length == 1 || column_length <= a || column_length <= b
      ensures res.Ok? ==> fresh(res.value) && res.value.Valid() && res.value.matrix_array == SwapColumns(matrix_array, a, b)
    {
      var y := Clone();
      var s := y.ExchangeColumnInPlace(a, b);
      if s.Failed? {
        return Err(s.msg);
      }
      return Ok(y);
    }

    /** concatRight(M) */
    method ConcatRight(M: Matrix) returns (res: Result<Matrix>)
      requires Valid() && M.Valid()
      ensures res.Err? <==> row_length != M.row_length
      ensures res.Ok? ==> fresh(res.value) && res.value.Valid()
      ensures res.Ok? ==> res.value.matrix_array == G.ConcatRight(matrix_array, M.matrix_array)
      ensures res.Ok? ==> res.value.column_length == column_length + M.column_length
    {
      var y := Clone();
      var s := y.ConcatRightInPlace(M);
      if s.Failed? {
        return Err(s.msg);
      }
      return Ok(y);
    }

    /** concatBottom(M) */
    method ConcatBottom(M: Matrix) returns (res: Result<Matrix>)
      requires Valid() && M.Valid()
      ensures res.Err? <==> column_length != M.column_length
      ensures res.Ok? ==> fresh(res.value) && res.value.Valid()
      ensures res.Ok? ==> res.value.matrix_array == G.ConcatBottom(matrix_array, M.matrix_array)
      ensures res.Ok? ==> res.value.row_length == row_length + M.row_length
    {
      var y := Clone();
      var s := y.ConcatBottomInPlace(M);
      if s.Failed? {
        return Err(s.msg);
      }
      return Ok(y);
    }

    /** cloneMatrixDoEachCalculation(f) */
    method CloneEach(f: (Complex, int, int) -> Option<Complex>) returns (y: Matrix)
      requires Valid()
      ensures fresh(y) && y.Valid() && y.matrix_array == EachCell(matrix_array, f)
    {
      y := Clone();
      y.EachInPlace(f);
    }

    // -------------------------------------------------------------------
    // new Matrix(x)
    // -------------------------------------------------------------------

    /**
     * new Matrix(x): the argument read into an array, the `:` rows of a
     * literal removed, and the array checked by isCorrectMatrixArray.
     */
    static method Create(x: MatrixInput.Input, lx: MatrixTool.Lexer) returns (res: Result<Matrix>)
      requires MatrixInput.WellFormed(x)
      ensures res.Err? <==> MatrixInput.FromInput(x, lx).Err?
      ensures res.Err? ==> res.msg == MatrixInput.FromInput(x, lx).msg
      ensures res.Ok? ==> fresh(res.value) && res.value.Valid()
      ensures res.Ok? ==> res.value.matrix_array == MatrixInput.FromInput(x, lx).value
    {
      var m: Grid;
      match x {
        case OfMatrix(a) =>
          m := a;
        case OfComplex(c) =>
          m := [[c]];
        case OfRows(rows) =>
          var r := MatrixInput.ReadRows(rows);
          if r.Err? {
            return Err(r.msg);
          }
          m := r.value;
        case OfList(items) =>
          var r := MatrixInput.ReadRow(items);
          if r.Err? {
            return Err(r.msg);
          }
          m := if |items| > 0 then [r.value] else [];
        case OfText(text) =>
          var a := MatrixTool.MatrixArrayFromString(text, lx);
          if a.Err? {
            return Err(a.msg);
          }
          var rows := MatrixInput.RemoveColonRows(a.value);
          m := MatrixTool.Cells(rows);
        case OfNumber(n) =>
          m := [[Complex(n, 0.0)]];
        case OfBoolean(b) =>
          m := [[if b then ONE else ZERO]];
      }
      var ok := MatrixTool.IsCorrectMatrixArray(m);
      if !ok {
        return Err(MatrixInput.ILLEGAL);
      }
      var M := new Matrix(m);
      return Ok(M);
    }

    // -------------------------------------------------------------------
    // Building a Matrix cell by cell
    // -------------------------------------------------------------------

    /**
     * createMatrixDoEachCalculation(f, dimension, column_length): a
     * dimension × column_length matrix whose cell (row, col) is f(row, col),
     * ZERO when f returns nothing. An omitted (or zero) column count means
     * square; a non-positive size throws, and so does f.
     */
    static method CreateMatrixDoEachCalculation(f: (int, int) -> Ret, dimension: int, column_length: Option<int>)
      returns (res: Result<Matrix>)
      ensures res.Err? <==> dimension <= 0 || ColumnsOf(dimension, column_length) <= 0 || AnyRaises(f, dimension, ColumnsOf(dimension, column_length))
      ensures res.Err? && dimension > 0 && ColumnsOf(dimension, column_length) > 0 ==>
        RaisedWith(f, dimension, ColumnsOf(dimension, column_length), res.msg)
      ensures res.Ok? ==> fresh(res.value) && res.value.Valid()
      ensures res.Ok? ==> Shape(res.value.matrix_array, dimension, ColumnsOf(dimension, column_length))
      ensures res.Ok? ==> forall i, j :: 0 <= i < dimension && 0 <= j < ColumnsOf(dimension, column_length) ==> res.value.matrix_array[i][j] == RetValue(f(i, j))
    {
      var r := dimension;
      var c := ColumnsOf(dimension, column_length);
      if r <= 0 || c <= 0 {
        return Err("new Matrix IllegalArgumentException");
      }
      var y: Grid := [];
      var row := 0;
      while row < r
        invariant 0 <= row <= r
        invariant |y| == row
        invariant forall i :: 0 <= i < row ==> |y[i]| == c
        invariant forall i, j :: 0 <= i < row && 0 <= j < c ==> y[i][j] == RetValue(f(i, j))
        invariant forall i, j :: 0 <= i < row && 0 <= j < c ==> !f(i, j).Raises?
      {
        var line: seq<Complex> := [];
        var col := 0;
        while col < c
          invariant 0 <= col <= c
          invariant |line| == col
          invariant forall j :: 0 <= j < col ==> line[j] == RetValue(f(row, j)) && !f(row, j).Raises?
        {
          var ret := f(row, col);
          if ret.Raises? {
            return Err(ret.msg);
          }
          line := line + [RetValue(ret)];
          col := col + 1;
        }
        y := y + [line];
        row := row + 1;
      }
      var M := new Matrix(y);
      return Ok(M);
    }

    /** memset(x, dimension, column_length): x repeated cyclically, or a scalar x in every cell. */
    static method Memset(x: Matrix, dimension: int, column_length: Option<int>) returns (res: Result<Matrix>)
      requires x.Valid()
      ensures res.Err? <==> dimension <= 0 || ColumnsOf(dimension, column_length) <= 0
      ensures res.Ok? ==> fresh(res.value) && res.value.Valid()
      ensures res.Ok? ==> Shape(res.value.matrix_array, dimension, ColumnsOf(dimension, column_length))
      ensures res.Ok? ==> forall i, j :: 0 <= i < dimension && 0 <= j < ColumnsOf(dimension, column_length) ==> res.value.matrix_array[i][j] == Tiled(x.matrix_array, i, j)
    {
      var m := x.matrix_array;
      var f;
      if !x.IsScalar() {
        f := (row: int, col: int) => Returns(Tiled(m, row, col));
      } else {
        var s := x.Scalar();
        f := (row: int, col: int) => Returns(s);
        assert forall i, j :: Tiled(m, i, j) == s;
      }
      res := CreateMatrixDoEachCalculation(f, dimension, column_length);
    }

    /** eye(dimension, column_length): ONE where row == col, ZERO elsewhere. */
    static method EyeMatrix(dimension: int, column_length: Option<int>) returns (res: Result<Matrix>)
      ensures res.Err? <==> dimension <= 0 || ColumnsOf(dimension, column_length) <= 0
      ensures res.Ok? ==> fresh(res.value) && res.value.Valid()
      ensures res.Ok? ==> res.value.matrix_array == Eye(dimension, ColumnsOf(dimension, column_length))
    {
      var f := (row: int, col: int) => Returns(if row == col then ONE else ZERO);
      res := CreateMatrixDoEachCalculation(f, dimension, column_length);
      if res.Ok? {
        GridEq(res.value.matrix_array, Eye(dimension, ColumnsOf(dimension, column_length)), dimension, ColumnsOf(dimension, column_length));
      }
    }

    /** zeros(dimension, column_length): memset(ZERO, ...). */
    static method Zeros(dimension: int, column_length: Option<int>) returns (res: Result<Matrix>)
      ensures res.Err? <==> dimension <= 0 || ColumnsOf(dimension, column_length) <= 0
      ensures res.Ok? ==> fresh(res.value) && res.value.Valid()
      ensures res.Ok? ==> Shape(res.value.matrix_array, dimension, ColumnsOf(dimension, column_length))
      ensures res.Ok? ==> forall i, j :: 0 <= i < dimension && 0 <= j < ColumnsOf(dimension, column_length) ==> res.value.matrix_array[i][j] == ZERO
    {
      var z := new Matrix([[ZERO]]);
      res := Memset(z, dimension, column_length);
    }

    // -------------------------------------------------------------------
    // equals
    // -------------------------------------------------------------------

    /** equals(M, tolerance): the same shape and every pair of cells equal within the tolerance. */
    method Equals(M: Matrix, tolerance: real) returns (b: bool)
      requires Valid() && M.Valid()
      ensures b == GridEquals(matrix_array, M.matrix_array, tolerance)
    {
      if row_length != M.row_length || column_length != M.column_length {
        return false;
      }
      if row_length == 1 && column_length == 1 {
        return ComplexOrder.Equals(Scalar(), M.Scalar(), tolerance);
      }
      var x1 := matrix_array;
      var x2 := M.matrix_array;
      var row := 0;
      while row < row_length
        invariant 0 <= row <= row_length
        invariant forall i, j :: 0 <= i < row && 0 <= j < column_length ==> ComplexOrder.Equals(x1[i][j], x2[i][j], tolerance)
      {
        var col := 0;
        while col < column_length
          invariant 0 <= col <= column_length
          invariant forall j :: 0 <= j < col ==> ComplexOrder.Equals(x1[row][j], x2[row][j], tolerance)
        {
          if !ComplexOrder.Equals(x1[row][col], x2[row][col], tolerance) {
            return false;
          }
          col := col + 1;
        }
        row := row + 1;
      }
      return true;
    }

    // -------------------------------------------------------------------
    // Tolerance predicates
    // -------------------------------------------------------------------

    /** The `_each` scan behind the cell tests: a flag that drops to false at the first failing cell. */
    method EachTest(p: (Complex, int, int) -> bool) returns (b: bool)
      requires Valid()
      ensures b == GridTests.AllCells(matrix_array, p)
    {
      b := true;
      var row := 0;
      while row < row_length
        invariant 0 <= row <= row_length
        invariant b == forall i, j :: 0 <= i < row && 0 <= j < column_length ==> p(matrix_array[i][j], i, j)
      {
        var col := 0;
        ghost var before := b;
        while col < column_length
          invariant 0 <= col <= column_length
          invariant b == (before && forall j :: 0 <= j < col ==> p(matrix_array[row][j], row, j))
        {
          if b && !p(matrix_array[row][col], row, col) {
            b := false;
          }
          col := col + 1;
        }
        row := row + 1;
      }
    }

    /** isReal(tolerance): every cell real, under Complex's own default tolerance. */
    method IsReal(tolerance: real) returns (b: bool)
      requires Valid()
      ensures b == GridTests.RealGrid(matrix_array, tolerance)
    {
      b := EachTest((x: Complex, i: int, j: int) => ComplexNum.IsReal(x, tolerance));
    }

    /** isComplex(tolerance) is the negation of isReal. */
    method IsComplex(tolerance: real) returns (b: bool)
      requires Valid()
      ensures b == !GridTests.RealGrid(matrix_array, tolerance)
    {
      var r := IsReal(tolerance);
      b := !r;
    }

    method IsZeros(tolerance: real) returns (b: bool)
      requires Valid()
      ensures b == GridTests.ZerosGrid(matrix_array, GridTests.MatTol(tolerance))
    {
      var t := GridTests.MatTol(tolerance);
      b := EachTest((x: Complex, i: int, j: int) => ComplexNum.IsZero(x, t));
    }

    method IsIdentity(tolerance: real) returns (b: bool)
      requires Valid()
      ensures b == GridTests.IdentityGrid(matrix_array, GridTests.MatTol(tolerance))
    {
      var t := GridTests.MatTol(tolerance);
      b := EachTest((x: Complex, i: int, j: int) => if i == j then ComplexNum.IsOne(x, t) else ComplexNum.IsZero(x, t));
    }

    method IsDiagonal(tolerance: real) returns (b: bool)
      requires Valid()
      ensures b == GridTests.DiagonalGrid(matrix_array, GridTests.MatTol(tolerance))
    {
      var t := GridTests.MatTol(tolerance);
      b := EachTest((x: Complex, i: int, j: int) => i == j || ComplexNum.IsZero(x, t));
    }

    method IsTridiagonal(tolerance: real) returns (b: bool)
      requires Valid()
      ensures b == GridTests.TridiagonalGrid(matrix_array, GridTests.MatTol(tolerance))
    {
      var t := GridTests.MatTol(tolerance);
      b := EachTest((x: Complex, i: int, j: int) => !(i - j > 1 || j - i > 1) || ComplexNum.IsZero(x, t));
    }

    method IsTriangleUpper(tolerance: real) returns (b: bool)
      requires Valid()
      ensures b == GridTests.UpperGrid(matrix_array, GridTests.MatTol(tolerance))
    {
      var t := GridTests.MatTol(tolerance);
      b := EachTest((x: Complex, i: int, j: int) => !(i > j) || ComplexNum.IsZero(x, t));
    }

    method IsTriangleLower(tolerance: real) returns (b: bool)
      requires Valid()
      ensures b == GridTests.LowerGrid(matrix_array, GridTests.MatTol(tolerance))
    {
      var t := GridTests.MatTol(tolerance);
      b := EachTest((x: Complex, i: int, j: int) => !(i < j) || ComplexNum.IsZero(x, t));
    }

    /** isSymmetric(tolerance): square, and the cells above the diagonal checked against their mirror images. */
    method IsSymmetric(tolerance: real) returns (b: bool)
      requires Valid()
      ensures b == GridTests.SymmetricGrid(matrix_array, GridTests.MatTol(tolerance))
    {
      if !IsSquare() {
        return false;
      }
      var t := GridTests.MatTol(tolerance);
      var m := matrix_array;
      var row := 0;
      while row < row_length
        invariant 0 <= row <= row_length
        invariant forall i, j :: 0 <= i < row && i < j < row_length ==> ComplexOrder.Equals(m[i][j], m[j][i], t)
      {
        var col := row + 1;
        while col < column_length
          invariant row + 1 <= col <= column_length || col == row + 1
          invariant forall j :: row < j < col && j < row_length ==> ComplexOrder.Equals(m[row][j], m[j][row], t)
        {
          if !ComplexOrder.Equals(m[row][col], m[col][row], t) {
            return false;
          }
          col := col + 1;
        }
        row := row + 1;
      }
      return true;
    }

    /** isHermitian(tolerance): square, a real diagonal, and each cell above it the conjugate of its mirror image. */
    method IsHermitian(tolerance: real) returns (b: bool)
      requires Valid()
      ensures b == GridTests.HermitianGrid(matrix_array, GridTests.MatTol(tolerance))
    {
      if !IsSquare() {
        return false;
      }
      var t := GridTests.MatTol(tolerance);
      var m := matrix_array;
      var row := 0;
      while row < row_length
        invariant 0 <= row <= row_length
        invariant forall i :: 0 <= i < row ==> ComplexNum.IsReal(m[i][i], t)
        invariant forall i, j :: 0 <= i < row && i < j < row_length ==> ComplexOrder.Equals(m[i][j], ComplexNum.Conj(m[j][i]), t)
      {
        var col := row;
        while col < column_length
          invariant row <= col <= column_length
          invariant col > row ==> ComplexNum.IsReal(m[row][row], t)
          invariant forall j :: row < j < col ==> ComplexOrder.Equals(m[row][j], ComplexNum.Conj(m[j][row]), t)
        {
          if row == col {
            if !ComplexNum.IsReal(m[row][col], t) {
              return false;
            }
          } else if !ComplexOrder.Equals(m[row][col], ComplexNum.Conj(m[col][row]), t) {
            return false;
          }
          col := col + 1;
        }
        row := row + 1;
      }
      return true;
    }

    /**
     * isPermutation(tolerance): one scan that marks the row and column of
     * each one (failing on a second one in either, or on a cell that is
     * neither one nor zero), then a check that every row and column was
     * marked. `rw` and `cw` remember where each mark came from.
     */
    method IsPermutation(tolerance: real) returns (b: bool)
      requires Valid()
      ensures b == GridTests.PermutationGrid(matrix_array, GridTests.MatTol(tolerance))
    {
      if !IsSquare() {
        return false;
      }
      var m := matrix_array;
      var t := GridTests.MatTol(tolerance);
      var n := row_length;
      var is_row := seq(n, _ => false);
      var is_col := seq(n, _ => false);
      ghost var rw := seq(n, _ => 0);
      ghost var cw := seq(n, _ => 0);
      GridTests.PermScanStart(m, t);
      var row := 0;
      while row < n
        invariant 0 <= row <= n
        invariant GridTests.PermScan(m, t, is_row, is_col, rw, cw, row, 0)
      {
        var col := 0;
        while col < n
          invariant 0 <= col <= n
          invariant GridTests.PermScan(m, t, is_row, is_col, rw, cw, row, col)
        {
          var target := m[row][col];
          if ComplexNum.IsOne(target, t) {
            if !is_row[row] && !is_col[col] {
              GridTests.PermScanOne(m, t, is_row, is_col, rw, cw, row, col);
              is_row := is_row[row := true];
              is_col := is_col[col := true];
              rw := rw[row := col];
              cw := cw[col := row];
            } else {
              GridTests.PermScanSecondOne(m, t, is_row, is_col, rw, cw, row, col);
              return false;
            }
          } else if !ComplexNum.IsZero(target, t) {
            GridTests.PermScanStray(m, t, row, col);
            return false;
          } else {
            GridTests.PermScanZero(m, t, is_row, is_col, rw, cw, row, col);
          }
          col := col + 1;
        }
        assert col == n;
        GridTests.PermScanNextRow(m, t, is_row, is_col, rw, cw, row);
        row := row + 1;
      }
      assert row == n;
      var i := FirstUnmarked(is_row, is_col);
      if i < n {
        GridTests.PermScanUnmarked(m, t, is_row, is_col, rw, cw, i);
        return false;
      }
      GridTests.PermScanAllMarked(m, t, is_row, is_col, rw, cw);
      return true;
    }

    /** The closing loop of isPermutation: the first index whose row or column was not marked, or the length. */
    static method FirstUnmarked(is_row: seq<bool>, is_col: seq<bool>) returns (i: nat)
      requires |is_row| == |is_col|
      ensures i <= |is_row|
      ensures forall k :: 0 <= k < i ==> is_row[k] && is_col[k]
      ensures i < |is_row| ==> !(is_row[i] && is_col[i])
    {
      i := 0;
      while i < |is_row|
        invariant i <= |is_row|
        invariant forall k :: 0 <= k < i ==> is_row[k] && is_col[k]
      {
        if !is_row[i] || !is_col[i] {
          return;
        }
        i := i + 1;
      }
    }

    // -------------------------------------------------------------------
    // getMatrix / setMatrix
    // -------------------------------------------------------------------

    /** getMatrix(row, col, isUpOffset): the cells at every pair of selected positions. */
    method GetMatrix(row: MatrixTool.Position, col: MatrixTool.Position, isUpOffset: bool, lx: MatrixTool.Lexer) returns (res: Result<Matrix>)
      requires Valid()
      requires row.PositionMatrix? ==> IsRect(row.m)
      requires col.PositionMatrix? ==> IsRect(col.m)
      ensures res.Err? <==> GetMatrixSpec(matrix_array, row, col, isUpOffset, lx).Err?
      ensures res.Err? ==> res.msg == GetMatrixSpec(matrix_array, row, col, isUpOffset, lx).msg
      ensures res.Ok? ==> fresh(res.value) && res.value.Valid()
      ensures res.Ok? ==> res.value.matrix_array == GetMatrixSpec(matrix_array, row, col, isUpOffset, lx).value
    {
      var geta := if isUpOffset then 1 else 0;
      var row_array := MatrixTool.ToPositionArrayFromObject(row, row_length, geta, lx);
      if row_array.Err? {
        return Err(row_array.msg);
      }
      var col_array := MatrixTool.ToPositionArrayFromObject(col, column_length, geta, lx);
      if col_array.Err? {
        return Err(col_array.msg);
      }
      var y := Selection.GetCells(matrix_array, row_array.value, col_array.value, geta);
      if y.Err? {
        return Err(y.msg);
      }
      var M := new Matrix(y.value);
      return Ok(M);
    }

    /**
     * setMatrix(row, col, replace, isUpOffset): a copy of the array, then
     * replace's tile written at every pair of selected positions in turn.
     */
    method SetMatrix(row: MatrixTool.Position, col: MatrixTool.Position, replace: Matrix, isUpOffset: bool, lx: MatrixTool.Lexer) returns (res: Result<Matrix>)
      requires Valid() && replace.Valid()
      requires row.PositionMatrix? ==> IsRect(row.m)
      requires col.PositionMatrix? ==> IsRect(col.m)
      ensures res.Err? <==> SetMatrixSpec(matrix_array, row, col, replace.matrix_array, isUpOffset, lx).Err?
      ensures res.Err? ==> res.msg == SetMatrixSpec(matrix_array, row, col, replace.matrix_array, isUpOffset, lx).msg
      ensures res.Ok? ==> fresh(res.value) && res.value.Valid()
      ensures res.Ok? ==> res.value.matrix_array == SetMatrixSpec(matrix_array, row, col, replace.matrix_array, isUpOffset, lx).value
    {
      var geta := if isUpOffset then 1 else 0;
      var row_array := MatrixTool.ToPositionArrayFromObject(row, row_length, geta, lx);
      if row_array.Err? {
        return Err(row_array.msg);
      }
      var col_array := MatrixTool.ToPositionArrayFromObject(col, column_length, geta, lx);
      if col_array.Err? {
        return Err(col_array.msg);
      }
      var y := Selection.SetCells(matrix_array, replace.matrix_array, row_array.value, col_array.value, geta);
      if y.Err? {
        return Err(y.msg);
      }
      Selection.AssignRect(matrix_array, replace.matrix_array, row_array.value, col_array.value, geta);
      var M := new Matrix(y.value);
      return Ok(M);
    }

    // -------------------------------------------------------------------
    // eachVector, flip and circshift
    // -------------------------------------------------------------------

    /**
     * eachVectorRow(f): a 1×1 ZERO resized to row_length×1; for each row,
     * widened to the longer of its width and f's output, then the output
     * copied into that row.
     */
    method EachVectorRow(f: Vectors.VectorFunction) returns (y: Matrix)
      requires Valid()
      ensures fresh(y) && y.Valid() && y.matrix_array == Vectors.EachRow(matrix_array, f)
    {
      var m := matrix_array;
      y := new Matrix([[ZERO]]);
      Vectors.RowsStart(m, f);
      var s := y.ResizeInPlace(row_length, 1);
      var row := 0;
      while row < row_length
        invariant 0 <= row <= row_length == |m| && m == matrix_array
        invariant fresh(y) && y.Valid() && y.matrix_array == Vectors.RowsUpTo(m, f, row)
      {
        var out := f(m[row]);
        Vectors.RowsNext(m, f, row);
        y.StoreRow(row, out);
        row := row + 1;
      }
    }

    /**
     * One pass of eachVectorRow's loop on the result y: widened to the longer
     * of its width and out, then `y.matrix_array[row][col] = out[col]` for
     * every col of out.
     */
    method StoreRow(row: nat, out: seq<Complex>)
      requires Valid() && row < row_length
      modifies this
      ensures Valid() && matrix_array == Vectors.PutRow(Resized(old(matrix_array), old(row_length), Max(old(column_length), |out|)), row, out)
    {
      var s := ResizeInPlace(row_length, Max(column_length, |out|));
      ghost var m := matrix_array;
      Vectors.PutRowNone(m, row, out);
      var col := 0;
      while col < |out|
        invariant 0 <= col <= |out|
        invariant Valid() && matrix_array == Vectors.PutRow(m, row, out[..col])
      {
        Vectors.PutRowStep(m, row, out, col);
        matrix_array := matrix_array[row := matrix_array[row][col := out[col]]];
        col := col + 1;
      }
      assert out[..|out|] == out;
    }

    /** eachVectorColumn(f): the same, column by column, the result growing downwards. */
    method EachVectorColumn(f: Vectors.VectorFunction) returns (y: Matrix)
      requires Valid()
      ensures fresh(y) && y.Valid() && y.matrix_array == Vectors.EachColumn(matrix_array, f)
    {
      var m := matrix_array;
      y := new Matrix([[ZERO]]);
      Vectors.ColumnsStart(m, f);
      var s := y.ResizeInPlace(1, column_length);
      y.FillColumns(m, f);
    }

    /** The loop of eachVectorColumn, on the result: every column of m through f, stored in turn. */
    method FillColumns(m: Grid, f: Vectors.VectorFunction)
      requires IsRect(m) && Valid() && matrix_array == Vectors.ColumnsUpTo(m, f, 0)
      modifies this
      ensures Valid() && matrix_array == Vectors.ColumnsUpTo(m, f, Cols(m))
    {
      var col := 0;
      while col < Cols(m)
        invariant col <= Cols(m) && Valid()
        invariant matrix_array == Vectors.ColumnsUpTo(m, f, col)
      {
        NextColumnOf(m, f, col);
        col := col + 1;
      }
      assert col == Cols(m);
    }

    /** One pass of that loop: column col of m through f, stored. */
    method NextColumnOf(m: Grid, f: Vectors.VectorFunction, col: nat)
      requires IsRect(m) && col < Cols(m)
      requires Valid() && matrix_array == Vectors.ColumnsUpTo(m, f, col)
      modifies this
      ensures Valid() && matrix_array == Vectors.ColumnsUpTo(m, f, col + 1)
    {
      var out := f(Column(m, col));
      Vectors.ColumnsNext(m, f, col);
      StoreColumn(col, out);
    }

    /**
     * One pass of eachVectorColumn's loop on the result y: lengthened to the
     * longer of its height and out, then `y.matrix_array[row][col] = out[row]`
     * for every row of out.
     */
    method StoreColumn(col: nat, out: seq<Complex>)
      requires Valid() && col < column_length
      modifies this
      ensures Valid() && matrix_array == Vectors.PutColumn(Resized(old(matrix_array), Max(old(row_length), |out|), old(column_length)), col, out)
    {
      var s := ResizeInPlace(Max(row_length, |out|), column_length);
      ghost var m := matrix_array;
      Vectors.PutColumnNone(m, col, out);
      var row := 0;
      while row < |out|
        invariant 0 <= row <= |out|
        invariant Valid() && matrix_array == Vectors.PutColumn(m, col, out[..row])
      {
        Vectors.PutColumnStep(m, col, out, row);
        matrix_array := matrix_array[row := matrix_array[row][col := out[row]]];
        row := row + 1;
      }
      assert out[..|out|] == out;
    }

    /** eachVectorAuto(f): a row vector goes to f whole; anything else column by column. */
    method EachVectorAuto(f: Vectors.VectorFunction) returns (res: Result<Matrix>)
      requires Valid()
      ensures res.Err? <==> Vectors.EachAuto(matrix_array, f, MatrixInput.ILLEGAL).Err?
      ensures res.Err? ==> res.msg == MatrixInput.ILLEGAL
      ensures res.Ok? ==> fresh(res.value) && res.value.Valid()
      ensures res.Ok? ==> res.value.matrix_array == Vectors.EachAuto(matrix_array, f, MatrixInput.ILLEGAL).value
    {
      if IsRow() {
        var out := f(matrix_array[0]);
        if |out| == 0 {
          return Err(MatrixInput.ILLEGAL);
        }
        var y := new Matrix([out]);
        return Ok(y);
      }
      var y := EachVectorColumn(f);
      return Ok(y);
    }

    /** eachVectorBoth(f): the rows first, then the columns of that result. */
    method EachVectorBoth(f: Vectors.VectorFunction) returns (y: Matrix)
      requires Valid()
      ensures fresh(y) && y.Valid() && y.matrix_array == Vectors.EachBoth(matrix_array, f)
    {
      var y1 := EachVectorRow(f);
      y := y1.EachVectorColumn(f);
    }

    /** eachVector(f, dimension): 0/"auto", 1/"row", 2/"column" or 3/"both"; anything else throws. */
    method EachVector(f: Vectors.VectorFunction, dimension: Vectors.Dimension) returns (res: Result<Matrix>)
      requires Valid()
      ensures res.Err? <==> Vectors.EachVector(matrix_array, f, dimension, MatrixInput.ILLEGAL).Err?
      ensures res.Err? ==> res.msg == Vectors.EachVector(matrix_array, f, dimension, MatrixInput.ILLEGAL).msg
      ensures res.Ok? ==> fresh(res.value) && res.value.Valid()
      ensures res.Ok? ==> res.value.matrix_array == Vectors.EachVector(matrix_array, f, dimension, MatrixInput.ILLEGAL).value
    {
      var target := Vectors.DirectionOf(dimension);
      if target.Err? {
        return Err(target.msg);
      }
      match target.value
      case Auto =>
        res := EachVectorAuto(f);
      case RowWise =>
        var y := EachVectorRow(f);
        res := Ok(y);
      case ColumnWise =>
        var y := EachVectorColumn(f);
        res := Ok(y);
      case Both =>
        var y := EachVectorBoth(f);
        res := Ok(y);
    }

    /** flip(type): every vector reversed, along type.dimension ("auto" when it is missing). */
    method Flip(dimension: Option<Vectors.Dimension>) returns (res: Result<Matrix>)
      requires Valid()
      ensures res.Err? <==> Vectors.EachVector(matrix_array, Reversed, Vectors.SettingsDimension(dimension), MatrixInput.ILLEGAL).Err?
      ensures res.Err? ==> res.msg == Vectors.EachVector(matrix_array, Reversed, Vectors.SettingsDimension(dimension), MatrixInput.ILLEGAL).msg
      ensures res.Ok? ==> fresh(res.value) && res.value.Valid()
      ensures res.Ok? ==> res.value.matrix_array == Vectors.EachVector(matrix_array, Reversed, Vectors.SettingsDimension(dimension), MatrixInput.ILLEGAL).value
    {
      res := EachVector(Reversed, Vectors.SettingsDimension(dimension));
    }

    /** fliplr(): every row reversed. */
    method FlipLR() returns (y: Matrix)
      requires Valid()
      ensures fresh(y) && y.Valid() && y.matrix_array == Vectors.EachRow(matrix_array, Reversed)
    {
      var res := Flip(Some(Vectors.DimText("row")));
      assert Text.LowerAscii("row") == "row";
      y := res.value;
    }

    /** flipud(): every column reversed. */
    method FlipUD() returns (y: Matrix)
      requires Valid()
      ensures fresh(y) && y.Valid() && y.matrix_array == Vectors.EachColumn(matrix_array, Reversed)
    {
      var res := Flip(Some(Vectors.DimText("column")));
      assert Text.LowerAscii("column") == "column";
      y := res.value;
    }

    /** circshift(shift, type), and roll: every vector rotated by shift places, along type.dimension. */
    method Circshift(shift: int, dimension: Option<Vectors.Dimension>) returns (res: Result<Matrix>)
      requires Valid()
      ensures res.Err? <==> Vectors.EachVector(matrix_array, Vectors.Shift(shift), Vectors.SettingsDimension(dimension), MatrixInput.ILLEGAL).Err?
      ensures res.Err? ==> res.msg == Vectors.EachVector(matrix_array, Vectors.Shift(shift), Vectors.SettingsDimension(dimension), MatrixInput.ILLEGAL).msg
      ensures res.Ok? ==> fresh(res.value) && res.value.Valid()
      ensures res.Ok? ==> res.value.matrix_array == Vectors.EachVector(matrix_array, Vectors.Shift(shift), Vectors.SettingsDimension(dimension), MatrixInput.ILLEGAL).value
    {
      res := EachVector(Vectors.Shift(shift), Vectors.SettingsDimension(dimension));
    }
    // -------------------------------------------------------------------
    // Reordering
    // -------------------------------------------------------------------

    /**
     * reshape(row_length, column_length): the cells laid out again as r×c in
     * the same row-major order; the counters m_row, m_col walk the old array.
     */
    method Reshape(r: int, c: int) returns (res: Result<Matrix>)
      requires Valid()
      ensures res.Err? <==> Reordering.Reshaped(matrix_array, r, c).Err?
      ensures res.Err? ==> res.msg == Reordering.Reshaped(matrix_array, r, c).msg
      ensures res.Ok? ==> fresh(res.value) && res.value.Valid()
      ensures res.Ok? ==> res.value.matrix_array == Reordering.Reshaped(matrix_array, r, c).value
    {
      var this_size := row_length * column_length;
      var new_size := r * c;
      if this_size != new_size {
        return Err(Reordering.ReshapeError(this_size, new_size));
      }
      if r < 0 {
        return Err(Reordering.INVALID_ARRAY_LENGTH);
      }
      ghost var goal := Reordering.Reshaped(matrix_array, r, c).value;
      var m := matrix_array;
      var m_col, m_row := 0, 0;
      ghost var pos := 0;
      var y: Grid := [];
      var row := 0;
      while row < r
        invariant 0 <= row <= r && |y| == row && pos == row * c
        invariant 0 <= m_row && 0 <= m_col < column_length && m_row * column_length + m_col == pos
        invariant forall i :: 0 <= i < row ==> y[i] == goal[i]
      {
        var line: seq<Complex> := [];
        var col := 0;
        while col < c
          invariant 0 <= col <= c && |line| == col && pos == row * c + col
          invariant 0 <= m_row && 0 <= m_col < column_length && m_row * column_length + m_col == pos
          invariant forall j :: 0 <= j < col ==> line[j] == goal[row][j]
        {
          Reordering.ReshapeCounters(m, r, c, row, col, m_row, m_col);
          line := line + [m[m_row][m_col]];
          m_col := m_col + 1;
          if m_col == column_length {
            assert (m_row + 1) * column_length == m_row * column_length + column_length;
            m_col := 0;
            m_row := m_row + 1;
          }
          col := col + 1;
          pos := pos + 1;
        }
        assert line == goal[row];
        assert (row + 1) * c == row * c + c;
        y := y + [line];
        row := row + 1;
      }
      assert y == goal;
      Reordering.ReshapeKeepsOrder(m, r, c);
      var M := new Matrix(y);
      return Ok(M);
    }

    /** transpose(): A^T, built column by column. */
    method Transpose() returns (y: Matrix)
      requires Valid()
      ensures fresh(y) && y.Valid() && y.matrix_array == G.Transpose(matrix_array)
    {
      var m := matrix_array;
      var t: Grid := [];
      var col := 0;
      while col < column_length
        invariant 0 <= col <= column_length && |t| == col
        invariant forall i :: 0 <= i < col ==> |t[i]| == row_length
        invariant forall i, j :: 0 <= i < col && 0 <= j < row_length ==> t[i][j] == m[j][i]
      {
        var line: seq<Complex> := [];
        var row := 0;
        while row < row_length
          invariant 0 <= row <= row_length && |line| == row
          invariant forall j :: 0 <= j < row ==> line[j] == m[j][col]
        {
          line := line + [m[row][col]];
          row := row + 1;
        }
        t := t + [line];
        col := col + 1;
      }
      GridEq(t, G.Transpose(m), column_length, row_length);
      y := new Matrix(t);
    }

    /** conj(): every cell conjugated. */
    method Conj() returns (y: Matrix)
      requires Valid()
      ensures fresh(y) && y.Valid() && y.matrix_array == ConjGrid(matrix_array)
    {
      y := CloneEach((num: Complex, row: int, col: int) => Some(ComplexNum.Conj(num)));
      GridEq(y.matrix_array, ConjGrid(matrix_array), row_length, column_length);
    }

    /** ctranspose(): transpose().conj(). */
    method CTranspose() returns (y: Matrix)
      requires Valid()
      ensures fresh(y) && y.Valid() && y.matrix_array == G.CTranspose(matrix_array)
    {
      var t := Transpose();
      y := t.Conj();
    }

    /** T(): the conjugate transpose, not the plain one. */
    method T() returns (y: Matrix)
      requires Valid()
      ensures fresh(y) && y.Valid() && y.matrix_array == G.CTranspose(matrix_array)
    {
      y := CTranspose();
    }

    /**
     * indexsort(V): the (index, row) pairs of sort_data sorted by the stable
     * merge sort, then the rows read back out; a row index works on the
     * transpose and transposes the result.
     */
    method IndexSort(V: Matrix) returns (res: Result<Matrix>)
      requires Valid() && V.Valid()
      ensures res.Err? <==> Reordering.IndexSorted(matrix_array, V.matrix_array).Err?
      ensures res.Err? ==> res.msg == Reordering.IndexSorted(matrix_array, V.matrix_array).msg
      ensures res.Ok? ==> fresh(res.value) && res.value.Valid()
      ensures res.Ok? ==> res.value.matrix_array == Reordering.IndexSorted(matrix_array, V.matrix_array).value
    {
      if V.IsMatrix() {
        return Err(Reordering.NOT_A_VECTOR);
      }
      var is_transpose := false;
      var target_array: Grid := matrix_array;
      var index_array: seq<Complex> := [];
      if V.IsRow() {
        if column_length != V.column_length {
          return Err(Reordering.SortSizeError(column_length, V.column_length));
        }
        is_transpose := true;
        var t := Transpose();
        target_array := t.matrix_array;
        index_array := V.matrix_array[0];
      }
      if V.IsColumn() {
        if row_length != V.row_length {
          return Err(Reordering.SortSizeError(row_length, V.row_length));
        }
        target_array := matrix_array;
        var vt := V.Transpose();
        index_array := vt.matrix_array[0];
        assert index_array == Column(V.matrix_array, 0);
      }
      var sort_data: seq<Sorting.Entry> := [];
      var i := 0;
      while i < |index_array|
        invariant 0 <= i <= |index_array| && |sort_data| == i
        invariant forall k :: 0 <= k < i ==> sort_data[k] == Sorting.Entry(index_array[k], target_array[k])
      {
        sort_data := sort_data + [Sorting.Entry(index_array[i], target_array[i])];
        i := i + 1;
      }
      assert sort_data == Reordering.Entries(index_array, target_array);
      sort_data := Sorting.MergeSort(sort_data, Sorting.IndexCompare);
      var y: Grid := [];
      i := 0;
      while i < |index_array|
        invariant 0 <= i <= |index_array| && |y| == i
        invariant forall k :: 0 <= k < i ==> y[k] == sort_data[k].data
      {
        y := y + [sort_data[i].data];
        i := i + 1;
      }
      assert y == Reordering.SortRows(index_array, target_array);
      var Y := new Matrix(y);
      if !is_transpose {
        return Ok(Y);
      }
      var Z := Y.Transpose();
      return Ok(Z);
    }

    // -------------------------------------------------------------------
    // Arithmetic
    // -------------------------------------------------------------------

    /**
     * The common tail of the cellwise operators: createMatrixDoEachCalculation
     * over the larger of the two shapes, each operand read cyclically.
     */
    static method Combine(x1: Grid, x2: Grid, op: (Complex, Complex) -> Result<Complex>) returns (res: Result<Matrix>)
      requires IsRect(x1) && IsRect(x2)
      ensures res.Err? <==> Arithmetic.Cellwise(x1, x2, op).None?
      ensures res.Err? ==> Arithmetic.FailsWith(x1, x2, op, res.msg)
      ensures res.Ok? ==> fresh(res.value) && res.value.Valid()
      ensures res.Ok? ==> res.value.matrix_array == Arithmetic.Cellwise(x1, x2, op).value
    {
      var f := (row: int, col: int) =>
        var v := op(Tiled(x1, row, col), Tiled(x2, row, col)); if v.Ok? then Returns(v.value) else Raises(v.msg);
      var r := Max(|x1|, |x2|);
      var c := Max(Cols(x1), Cols(x2));
      res := CreateMatrixDoEachCalculation(f, r, Some(c));
      if res.Ok? {
        forall i, j | 0 <= i < r && 0 <= j < c
          ensures op(Tiled(x1, i, j), Tiled(x2, i, j)).Ok?
        {
          assert !f(i, j).Raises?;
        }
        GridEq(res.value.matrix_array, Arithmetic.Cellwise(x1, x2, op).value, r, c);
      } else {
        var i, j :| 0 <= i < r && 0 <= j < c && f(i, j) == Raises(res.msg);
        assert op(Tiled(x1, i, j), Tiled(x2, i, j)) == Err(res.msg);
      }
    }

    /** add(M2): A + B, refused only when both dimensions differ. */
    method Add(M2: Matrix) returns (res: Result<Matrix>)
      requires Valid() && M2.Valid()
      ensures res.Err? <==> Arithmetic.Mismatch(matrix_array, M2.matrix_array)
      ensures res.Err? ==> res.msg == Arithmetic.SIZE_ERROR
      ensures res.Ok? ==> fresh(res.value) && res.value.Valid()
      ensures res.Ok? ==> res.value.matrix_array == Broadcast(matrix_array, M2.matrix_array, ComplexNum.Add)
    {
      if row_length != M2.row_length && column_length != M2.column_length {
        return Err(Arithmetic.SIZE_ERROR);
      }
      Arithmetic.CellwiseLift(matrix_array, M2.matrix_array, ComplexNum.Add);
      res := Combine(matrix_array, M2.matrix_array, Arithmetic.Lift(ComplexNum.Add));
    }

    /** sub(M2): A - B, with the size rule of add. */
    method Sub(M2: Matrix) returns (res: Result<Matrix>)
      requires Valid() && M2.Valid()
      ensures res.Err? <==> Arithmetic.Mismatch(matrix_array, M2.matrix_array)
      ensures res.Err? ==> res.msg == Arithmetic.SIZE_ERROR
      ensures res.Ok? ==> fresh(res.value) && res.value.Valid()
      ensures res.Ok? ==> res.value.matrix_array == Broadcast(matrix_array, M2.matrix_array, ComplexNum.Sub)
    {
      if row_length != M2.row_length && column_length != M2.column_length {
        return Err(Arithmetic.SIZE_ERROR);
      }
      Arithmetic.CellwiseLift(matrix_array, M2.matrix_array, ComplexNum.Sub);
      res := Combine(matrix_array, M2.matrix_array, Arithmetic.Lift(ComplexNum.Sub));
    }

    /** dotmul(M2): the product cell by cell; a 1×1 operand is never refused. */
    method DotMul(M2: Matrix) returns (res: Result<Matrix>)
      requires Valid() && M2.Valid()
      ensures res.Err? <==> Arithmetic.CellMismatch(matrix_array, M2.matrix_array)
      ensures res.Err? ==> res.msg == Arithmetic.SIZE_ERROR
      ensures res.Ok? ==> fresh(res.value) && res.value.Valid()
      ensures res.Ok? ==> res.value.matrix_array == Broadcast(matrix_array, M2.matrix_array, ComplexNum.Mul)
    {
      if !IsScalar() && !M2.IsScalar() && row_length != M2.row_length && column_length != M2.column_length {
        return Err(Arithmetic.SIZE_ERROR);
      }
      Arithmetic.CellwiseLift(matrix_array, M2.matrix_array, ComplexNum.Mul);
      res := Combine(matrix_array, M2.matrix_array, Arithmetic.Lift(ComplexNum.Mul));
    }

    /** dotdiv(M2): the quotient cell by cell. */
    method DotDiv(M2: Matrix) returns (res: Result<Matrix>)
      requires Valid() && M2.Valid()
      ensures res.Err? <==> (Arithmetic.CellMismatch(matrix_array, M2.matrix_array)
        || Arithmetic.Cellwise(matrix_array, M2.matrix_array, Arithmetic.DivCell).None?)
      ensures res.Err? ==> res.msg == Arithmetic.SIZE_ERROR || res.msg == ComplexOrder.NOT_A_NUMBER
      ensures res.Err? && !Arithmetic.CellMismatch(matrix_array, M2.matrix_array) ==> res.msg == ComplexOrder.NOT_A_NUMBER
      ensures res.Ok? ==> fresh(res.value) && res.value.Valid()
      ensures res.Ok? ==> res.value.matrix_array == Arithmetic.Cellwise(matrix_array, M2.matrix_array, Arithmetic.DivCell).value
    {
      if !IsScalar() && !M2.IsScalar() && row_length != M2.row_length && column_length != M2.column_length {
        return Err(Arithmetic.SIZE_ERROR);
      }
      res := Combine(matrix_array, M2.matrix_array, Arithmetic.DivCell);
    }

    /** rem(M2): the remainder cell by cell, with the sign of the dividend. */
    method Rem(M2: Matrix) returns (res: Result<Matrix>)
      requires Valid() && M2.Valid()
      ensures res.Err? <==> (Arithmetic.CellMismatch(matrix_array, M2.matrix_array)
        || Arithmetic.Cellwise(matrix_array, M2.matrix_array, ComplexOrder.Rem).None?)
      ensures res.Err? && Arithmetic.CellMismatch(matrix_array, M2.matrix_array) ==> res.msg == Arithmetic.SIZE_ERROR
      ensures res.Err? && !Arithmetic.CellMismatch(matrix_array, M2.matrix_array) ==>
        Arithmetic.FailsWith(matrix_array, M2.matrix_array, ComplexOrder.Rem, res.msg)
      ensures res.Ok? ==> fresh(res.value) && res.value.Valid()
      ensures res.Ok? ==> res.value.matrix_array == Arithmetic.Cellwise(matrix_array, M2.matrix_array, ComplexOrder.Rem).value
    {
      if !IsScalar() && !M2.IsScalar() && row_length != M2.row_length && column_length != M2.column_length {
        return Err(Arithmetic.SIZE_ERROR);
      }
      res := Combine(matrix_array, M2.matrix_array, ComplexOrder.Rem);
    }

    /** mod(M2): the remainder cell by cell, with the sign of the divisor. */
    method Mod(M2: Matrix) returns (res: Result<Matrix>)
      requires Valid() && M2.Valid()
      ensures res.Err? <==> (Arithmetic.CellMismatch(matrix_array, M2.matrix_array)
        || Arithmetic.Cellwise(matrix_array, M2.matrix_array, ComplexOrder.Mod).None?)
      ensures res.Err? ==> res.msg == Arithmetic.SIZE_ERROR || res.msg == ComplexOrder.UNDEFINED
      ensures res.Err? && !Arithmetic.CellMismatch(matrix_array, M2.matrix_array) ==> res.msg == ComplexOrder.UNDEFINED
      ensures res.Ok? ==> fresh(res.value) && res.value.Valid()
      ensures res.Ok? ==> res.value.matrix_array == Arithmetic.Cellwise(matrix_array, M2.matrix_array, ComplexOrder.Mod).value
    {
      if !IsScalar() && !M2.IsScalar() && row_length != M2.row_length && column_length != M2.column_length {
        return Err(Arithmetic.SIZE_ERROR);
      }
      res := Combine(matrix_array, M2.matrix_array, ComplexOrder.Mod);
      if res.Err? {
        Arithmetic.ModFailsUndefined(matrix_array, M2.matrix_array, res.msg);
      }
    }

    /** mul's loops for a 1×1 operand: every cell of x mapped by f, row by row. */
    static method MapCells(x: Grid, f: Complex -> Complex) returns (y: Grid)
      requires IsRect(x)
      ensures y == MapGrid(x, f)
    {
      y := [];
      var row := 0;
      while row < |x|
        invariant 0 <= row <= |x| && |y| == row
        invariant forall i :: 0 <= i < row ==> |y[i]| == Cols(x)
        invariant forall i, j :: 0 <= i < row && 0 <= j < Cols(x) ==> y[i][j] == f(x[i][j])
      {
        var line: seq<Complex> := [];
        var col := 0;
        while col < Cols(x)
          invariant 0 <= col <= Cols(x) && |line| == col
          invariant forall j :: 0 <= j < col ==> line[j] == f(x[row][j])
        {
          line := line + [f(x[row][col])];
          col := col + 1;
        }
        y := y + [line];
        row := row + 1;
      }
      GridEq(y, MapGrid(x, f), |x|, Cols(x));
    }

    /** mul's triple loop: each cell sums x1[row][i] x2[i][col] from ZERO upwards. */
    static method Product(x1: Grid, x2: Grid) returns (y: Grid)
      requires IsRect(x1) && IsRect(x2) && Cols(x1) == |x2|
      ensures y == MatMul(x1, x2)
    {
      y := [];
      var row := 0;
      while row < |x1|
        invariant 0 <= row <= |x1| && |y| == row
        invariant forall r :: 0 <= r < row ==> |y[r]| == Cols(x2)
        invariant forall r, c :: 0 <= r < row && 0 <= c < Cols(x2) ==> y[r][c] == RowColumn(x1, x2, r, c, Cols(x1))
      {
        var line: seq<Complex> := [];
        var col := 0;
        while col < Cols(x2)
          invariant 0 <= col <= Cols(x2) && |line| == col
          invariant forall c :: 0 <= c < col ==> line[c] == RowColumn(x1, x2, row, c, Cols(x1))
        {
          var sum := ZERO;
          var i := 0;
          while i < Cols(x1)
            invariant 0 <= i <= Cols(x1)
            invariant sum == RowColumn(x1, x2, row, col, i)
          {
            sum := ComplexNum.Add(sum, ComplexNum.Mul(x1[row][i], x2[i][col]));
            i := i + 1;
          }
          line := line + [sum];
          col := col + 1;
        }
        y := y + [line];
        row := row + 1;
      }
      GridEq(y, MatMul(x1, x2), |x1|, Cols(x2));
    }

    /** mul(M2): A * B, with a 1×1 operand on either side scaling the other. */
    method Mul(M2: Matrix) returns (res: Result<Matrix>)
      requires Valid() && M2.Valid()
      ensures res.Err? <==> Arithmetic.Times(matrix_array, M2.matrix_array).Err?
      ensures res.Err? ==> res.msg == Arithmetic.SIZE_ERROR
      ensures res.Ok? ==> fresh(res.value) && res.value.Valid()
      ensures res.Ok? ==> res.value.matrix_array == Arithmetic.Times(matrix_array, M2.matrix_array).value
    {
      var x1 := matrix_array;
      var x2 := M2.matrix_array;
      if IsScalar() && M2.IsScalar() {
        var y := new Matrix([[ComplexNum.Mul(Scalar(), M2.Scalar())]]);
        return Ok(y);
      }
      var y: Grid;
      if IsScalar() {
        var s := Scalar();
        y := MapCells(x2, v => ComplexNum.Mul(s, v));
        GridEq(y, Arithmetic.Times(x1, x2).value, |x2|, Cols(x2));
      } else if M2.IsScalar() {
        var s := M2.Scalar();
        y := MapCells(x1, v => ComplexNum.Mul(v, s));
        GridEq(y, Arithmetic.Times(x1, x2).value, |x1|, Cols(x1));
      } else {
        if column_length != M2.row_length {
          return Err(Arithmetic.SIZE_ERROR);
        }
        y := Product(x1, x2);
      }
      var M := new Matrix(y);
      return Ok(M);
    }

    /**
     * pow(number): a 1×1 matrix raises its value with Complex.pow (here the
     * parameter scalar_pow); any other matrix must be square, the exponent is
     * number truncated and must not be negative, and the result is A^n by
     * repeated squaring.
     */
    method Pow(number: real, scalar_pow: (Complex, real) -> Complex) returns (res: Result<Matrix>)
      requires Valid()
      ensures IsScalar() ==> res.Ok? && res.value.matrix_array == [[scalar_pow(Scalar(), number)]]
      ensures !IsScalar() && !IsSquare() ==> res == Err(NOT_SQUARE)
      ensures !IsScalar() && IsSquare() && MatrixTool.TruncInt(number) < 0 ==> res == Err(NEGATIVE_EXPONENT)
      ensures res.Ok? ==> fresh(res.value) && res.value.Valid()
      ensures !IsScalar() && IsSquare() && MatrixTool.TruncInt(number) >= 0 ==>
        res.Ok? && res.value.matrix_array == Products.MatPow(matrix_array, MatrixTool.TruncInt(number))
    {
      if IsScalar() {
        var y := new Matrix([[scalar_pow(Scalar(), number)]]);
        return Ok(y);
      }
      if !IsSquare() {
        return Err(NOT_SQUARE);
      }
      var n := MatrixTool.TruncInt(number);
      if n < 0 {
        return Err(NEGATIVE_EXPONENT);
      }
      var p := Products.PowBySquaring(matrix_array, n);
      var y := new Matrix(p);
      return Ok(y);
    }
  }

  /** The array after _each(f). */
  function EachCell(m: Grid, f: (Complex, int, int) -> Option<Complex>): (t: Grid)
    requires IsRect(m)
    ensures IsRect(t) && Shape(t, |m|, Cols(m))
    ensures forall i, j :: 0 <= i < |m| && 0 <= j < Cols(m) ==>
      (f(m[i][j], i, j).Some? ==> t[i][j] == f(m[i][j], i, j).value)
      && (f(m[i][j], i, j).None? ==> t[i][j] == m[i][j])
  {
    seq(|m|, i requires 0 <= i < |m| => seq(Cols(m), j requires 0 <= j < Cols(m) =>
      var ret := f(m[i][j], i, j); if ret.Some? then ret.value else m[i][j]))
  }

  /** What the function given to createMatrixDoEachCalculation returns: nothing, a value, or an exception. */
  datatype Ret = Undefined | Returns(c: Complex) | Raises(msg: string)

  function RetValue(r: Ret): Complex {
    if r.Returns? then r.c else ZERO
  }

  /** `column_length ? column_length : dimension`: an omitted or zero column count means square. */
  function ColumnsOf(dimension: int, column_length: Option<int>): (c: int)
    ensures column_length.None? || column_length == Some(0) ==> c == dimension
    ensures column_length.Some? && column_length.value != 0 ==> c == column_length.value
  {
    if column_length.None? || column_length.value == 0 then dimension else column_length.value
  }

  /** f throws for some cell of an r×c matrix. */
  predicate AnyRaises(f: (int, int) -> Ret, r: int, c: int) {
    exists i, j :: 0 <= i < r && 0 <= j < c && f(i, j).Raises?
  }

  /** f throws msg for some cell of an r×c matrix. */
  predicate RaisedWith(f: (int, int) -> Ret, r: int, c: int, msg: string) {
    exists i, j :: 0 <= i < r && 0 <= j < c && f(i, j) == Raises(msg)
  }

  /** equals over the arrays: one shape, and every cell pair equal within the tolerance. */
  predicate GridEquals(a: Grid, b: Grid, tolerance: real)
    requires IsRect(a) && IsRect(b)
  {
    |a| == |b| && Cols(a) == Cols(b)
    && forall i, j :: 0 <= i < |a| && 0 <= j < Cols(a) ==> ComplexOrder.Equals(a[i][j], b[i][j], tolerance)
  }

  /** equals is reflexive for every tolerance, and symmetric. */
  lemma GridEqualsReflexiveSymmetric(a: Grid, b: Grid, tolerance: real)
    requires IsRect(a) && IsRect(b)
    ensures GridEquals(a, a, tolerance)
    ensures GridEquals(a, b, tolerance) == GridEquals(b, a, tolerance)
  {
    if GridEquals(a, b, tolerance) {
      forall i, j | 0 <= i < |b| && 0 <= j < Cols(b)
        ensures ComplexOrder.Equals(b[i][j], a[i][j], tolerance)
      {
        ComplexOrder.EqualsSymmetric(a[i][j], b[i][j], tolerance);
      }
    }
    if GridEquals(b, a, tolerance) {
      forall i, j | 0 <= i < |a| && 0 <= j < Cols(a)
        ensures ComplexOrder.Equals(a[i][j], b[i][j], tolerance)
      {
        ComplexOrder.EqualsSymmetric(b[i][j], a[i][j], tolerance);
      }
    }
  }

  /** getMatrix on the array m: the position vectors, then the selection. */
  function GetMatrixSpec(m: Grid, row: MatrixTool.Position, col: MatrixTool.Position, isUpOffset: bool, lx: MatrixTool.Lexer): Result<Grid>
    requires IsRect(m)
    requires row.PositionMatrix? ==> IsRect(row.m)
    requires col.PositionMatrix? ==> IsRect(col.m)
  {
    var geta := if isUpOffset then 1 else 0;
    var rs := MatrixTool.Positions(row, |m|, geta, lx);
    if rs.Err? then Err(rs.msg)
    else
      var cs := MatrixTool.Positions(col, Cols(m), geta, lx);
      if cs.Err? then Err(cs.msg)
      else Selection.Select(m, rs.value, cs.value, geta)
  }

  /** setMatrix on the array m with replacement array x: the position vectors, then the writes. */
  function SetMatrixSpec(m: Grid, row: MatrixTool.Position, col: MatrixTool.Position, x: Grid, isUpOffset: bool, lx: MatrixTool.Lexer): Result<Grid>
    requires IsRect(m) && IsRect(x)
    requires row.PositionMatrix? ==> IsRect(row.m)
    requires col.PositionMatrix? ==> IsRect(col.m)
  {
    var geta := if isUpOffset then 1 else 0;
    var rs := MatrixTool.Positions(row, |m|, geta, lx);
    if rs.Err? then Err(rs.msg)
    else
      var cs := MatrixTool.Positions(col, Cols(m), geta, lx);
      if cs.Err? then Err(cs.msg)
      else Selection.Assign(m, x, rs.value, cs.value, geta)
  }
}
