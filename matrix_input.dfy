/**
 * What `new Matrix(x)` reads from its argument: a Matrix (copied), a
 * Complex (a 1×1 matrix), an array of arrays (one row each), an array of
 * single values (one row), a string (the matrix literal), or a plain number
 * or boolean. The result must pass isCorrectMatrixArray.
 */
module MatrixInput {
  import opened Wrappers
  import opened ComplexNum
  import opened Grid
  import MatrixTool

  /** An element of an array argument: a value that `new Complex` reads, or a Matrix, which must be 1×1. */
  datatype Element = Number(arg: Arg) | Nested(m: Grid)

  datatype Input =
    | OfMatrix(m: Grid)
    | OfComplex(c: Complex)
    | OfRows(rows: seq<seq<Element>>)
    | OfList(items: seq<Element>)
    | OfText(text: string)
    | OfNumber(n: real)
    | OfBoolean(b: bool)

  const ILLEGAL: string := "new Matrix IllegalArgumentException"
  const MATRIX_IN_MATRIX: string := "Matrix in matrix"

  predicate ElementsRect(es: seq<Element>) {
    forall k :: 0 <= k < |es| && es[k].Nested? ==> IsRect(es[k].m)
  }

  /** A Matrix given as an argument is itself a correct, rectangular matrix. */
  predicate WellFormed(x: Input) {
    match x
    case OfMatrix(m) => IsRect(m)
    case OfRows(rows) => forall i :: 0 <= i < |rows| ==> ElementsRect(rows[i])
    case OfList(items) => ElementsRect(items)
    case _ => true
  }

  /** One element: a 1×1 Matrix gives its scalar, a larger one throws; anything else goes through `new Complex`. */
  function ElementValue(e: Element): (r: Result<Complex>)
    requires e.Nested? ==> IsRect(e.m)
    ensures e.Nested? ==> (r.Ok? <==> |e.m| == 1 && Cols(e.m) == 1)
    ensures e.Nested? && r.Ok? ==> r.value == e.m[0][0]
    ensures e.Nested? && r.Err? ==> r.msg == MATRIX_IN_MATRIX
    ensures e.Number? ==> r == FromArg(e.arg)
  {
    match e
    case Number(arg) => FromArg(arg)
    case Nested(m) => if |m| == 1 && |m[0]| == 1 then Ok(m[0][0]) else Err(MATRIX_IN_MATRIX)
  }

  /** The elements of one row read left to right; the first element that throws stops the reading. */
  function RowValues(es: seq<Element>): (r: Result<seq<Complex>>)
    requires ElementsRect(es)
    ensures r.Ok? <==> forall k :: 0 <= k < |es| ==> ElementValue(es[k]).Ok?
    ensures r.Ok? ==> |r.value| == |es| && forall k :: 0 <= k < |es| ==> r.value[k] == ElementValue(es[k]).value
    decreases |es|
  {
    if |es| == 0 then Ok([])
    else
      var init := RowValues(es[..|es| - 1]);
      var last := ElementValue(es[|es| - 1]);
      if init.Err? then init
      else if last.Err? then Err(last.msg)
      else Ok(init.value + [last.value])
  }

  /** The rows read top to bottom; the first row that throws stops the reading. */
  function AllRows(rows: seq<seq<Element>>): (r: Result<Grid>)
    requires forall i :: 0 <= i < |rows| ==> ElementsRect(rows[i])
    ensures r.Ok? <==> forall i :: 0 <= i < |rows| ==> RowValues(rows[i]).Ok?
    ensures r.Ok? ==> |r.value| == |rows| && forall i :: 0 <= i < |rows| ==> r.value[i] == RowValues(rows[i]).value
    decreases |rows|
  {
    if |rows| == 0 then Ok([])
    else
      var init := AllRows(rows[..|rows| - 1]);
      var last := RowValues(rows[|rows| - 1]);
      if init.Err? then init
      else if last.Err? then Err(last.msg)
      else Ok(init.value + [last.value])
  }

  /** The rows of a parsed literal with every bare `:` row removed, the others kept in order. */
  function DropColons(rows: seq<MatrixTool.RowValue>): (t: seq<MatrixTool.RowValue>)
    ensures |t| <= |rows|
    ensures forall k :: 0 <= k < |t| ==> t[k].Values?
    decreases |rows|
  {
    if |rows| == 0 then []
    else (if rows[0].Colon? then [] else [rows[0]]) + DropColons(rows[1..])
  }

  /** A parsed literal is accepted exactly when its rows, once the bare `:` rows are dropped, are a non-empty rectangle. */
  function AcceptRows(rows: seq<MatrixTool.RowValue>): (r: Result<Grid>)
    ensures r.Ok? <==> MatrixTool.RectangularValues(DropColons(rows))
    ensures r.Ok? ==> r.value == MatrixTool.Cells(DropColons(rows))
    ensures r.Err? ==> r.msg == ILLEGAL
  {
    var m := MatrixTool.Cells(DropColons(rows));
    if IsRect(m) then Ok(m) else Err(ILLEGAL)
  }

  /** The array the constructor validates, or the exception it throws. */
  function FromInput(x: Input, lx: MatrixTool.Lexer): (r: Result<Grid>)
    requires WellFormed(x)
    ensures r.Ok? ==> IsRect(r.value)
    ensures x.OfMatrix? ==> r == Ok(x.m)
    ensures x.OfComplex? ==> r == Ok([[x.c]])
    ensures x.OfNumber? ==> r == Ok([[Complex(x.n, 0.0)]])
    ensures x.OfBoolean? ==> r == Ok([[if x.b then ONE else ZERO]])
  {
    match x
    case OfMatrix(m) => Ok(m)
    case OfComplex(c) => Ok([[c]])
    case OfRows(rows) =>
      var m := AllRows(rows);
      if m.Err? then m else if IsRect(m.value) then m else Err(ILLEGAL)
    case OfList(items) =>
      var row := RowValues(items);
      if row.Err? then Err(row.msg) else if |items| > 0 then Ok([row.value]) else Err(ILLEGAL)
    case OfText(text) =>
      var a := MatrixTool.MatrixArrayFromString(text, lx);
      if a.Err? then Err(a.msg) else AcceptRows(a.value)
    case OfNumber(n) => Ok([[Complex(n, 0.0)]])
    case OfBoolean(b) => Ok([[if b then ONE else ZERO]])
  }

  /** An empty array, an array holding an empty row, and a ragged array of arrays all throw. */
  lemma EmptyOrRaggedRejected(rows: seq<seq<Element>>, lx: MatrixTool.Lexer)
    requires WellFormed(OfRows(rows))
    requires |rows| == 0 || |rows[0]| == 0 || exists i :: 0 <= i < |rows| && |rows[i]| != |rows[0]|
    ensures FromInput(OfRows(rows), lx).Err?
    ensures FromInput(OfList([]), lx).Err?
  {
  }

  /** An array of arrays of numbers and 1×1 matrices, all rows of one non-zero length, is read cell by cell. */
  lemma RowsRead(rows: seq<seq<Element>>, lx: MatrixTool.Lexer)
    requires WellFormed(OfRows(rows))
    requires |rows| > 0 && |rows[0]| > 0 && forall i :: 0 <= i < |rows| ==> |rows[i]| == |rows[0]|
    requires forall i, j :: 0 <= i < |rows| && 0 <= j < |rows[i]| ==> ElementValue(rows[i][j]).Ok?
    ensures FromInput(OfRows(rows), lx).Ok?
    ensures var m := FromInput(OfRows(rows), lx).value;
      Shape(m, |rows|, |rows[0]|)
      && forall i, j :: 0 <= i < |rows| && 0 <= j < |rows[0]| ==> m[i][j] == ElementValue(rows[i][j]).value
  {
  }

  /** A Matrix element larger than 1×1 makes the constructor throw "Matrix in matrix" (unless an earlier element threw). */
  lemma MatrixInMatrix(rows: seq<seq<Element>>, lx: MatrixTool.Lexer, i: nat, j: nat)
    requires WellFormed(OfRows(rows))
    requires i < |rows| && j < |rows[i]| && rows[i][j].Nested? && !(|rows[i][j].m| == 1 && Cols(rows[i][j].m) == 1)
    ensures FromInput(OfRows(rows), lx).Err?
  {
    assert !ElementValue(rows[i][j]).Ok?;
  }

  /** Rows that are all values are kept as they are; rows that are all `:` leave nothing. */
  lemma {:induction false} DropColonsExtremes(rows: seq<MatrixTool.RowValue>)
    ensures (forall k :: 0 <= k < |rows| ==> rows[k].Values?) ==> DropColons(rows) == rows
    ensures (forall k :: 0 <= k < |rows| ==> rows[k].Colon?) ==> DropColons(rows) == []
    decreases |rows|
  {
    if |rows| > 0 {
      DropColonsExtremes(rows[1..]);
      assert rows == [rows[0]] + rows[1..];
    }
  }

  /** Dropping the `:` rows of a prefix and of the rest is dropping them from the whole. */
  lemma {:induction false} DropColonsAppend(a: seq<MatrixTool.RowValue>, b: seq<MatrixTool.RowValue>)
    ensures DropColons(a + b) == DropColons(a) + DropColons(b)
    decreases |a|
  {
    if |a| == 0 {
      assert a + b == b;
    } else {
      assert (a + b)[1..] == a[1..] + b;
      DropColonsAppend(a[1..], b);
    }
  }

  /**
   * The constructor's clean-up loop, `if(matrix_array[row] === ":")
   * matrix_array.splice(row--, 1)`: every bare `:` row removed in place.
   */
  method RemoveColonRows(rows: seq<MatrixTool.RowValue>) returns (a: seq<MatrixTool.RowValue>)
    ensures a == DropColons(rows)
  {
    a := rows;
    var row := 0;
    while row < |a|
      invariant 0 <= row <= |a|
      invariant a[..row] == DropColons(a[..row])
      invariant a[..row] + DropColons(a[row..]) == DropColons(rows)
      decreases |a| - row
    {
      if a[row].Colon? {
        ColonRowRemoved(a, row);
        a := a[..row] + a[row + 1..];
      } else {
        ValueRowKept(a, row);
        row := row + 1;
      }
    }
    assert a[row..] == [];
    assert a[..row] == a;
  }

  /** Removing a `:` row at `row` leaves the prefix and what the rest contributes unchanged. */
  lemma ColonRowRemoved(a: seq<MatrixTool.RowValue>, row: nat)
    requires row < |a| && a[row].Colon?
    ensures var b := a[..row] + a[row + 1..];
      b[..row] == a[..row] && DropColons(b[row..]) == DropColons(a[row..])
  {
    var b := a[..row] + a[row + 1..];
    assert b[row..] == a[row + 1..];
    assert a[row..][1..] == a[row + 1..];
  }

  /** Stepping over a row of values moves it from what the rest contributes into the prefix. */
  lemma ValueRowKept(a: seq<MatrixTool.RowValue>, row: nat)
    requires row < |a| && a[row].Values? && a[..row] == DropColons(a[..row])
    ensures a[..row + 1] == DropColons(a[..row + 1])
    ensures a[..row] + DropColons(a[row..]) == a[..row + 1] + DropColons(a[row + 1..])
  {
    assert a[row..][1..] == a[row + 1..];
    assert DropColons(a[row..]) == [a[row]] + DropColons(a[row + 1..]);
    assert a[..row + 1] == a[..row] + [a[row]];
    DropColonsAppend(a[..row], [a[row]]);
    assert DropColons([a[row]]) == [a[row]] by {
      assert [a[row]][1..] == [];
    }
  }

  /** The inner loop of the constructor: one array read element by element into a row. */
  method ReadRow(es: seq<Element>) returns (r: Result<seq<Complex>>)
    requires ElementsRect(es)
    ensures r == RowValues(es)
  {
    var row: seq<Complex> := [];
    var k := 0;
    while k < |es|
      invariant 0 <= k <= |es|
      invariant RowValues(es[..k]) == Ok(row)
    {
      assert es[..k + 1][..k] == es[..k];
      var v := ElementValue(es[k]);
      if v.Err? {
        RowValuesPrefixErr(es, k + 1);
        return Err(v.msg);
      }
      row := row + [v.value];
      k := k + 1;
    }
    assert es[..k] == es;
    return Ok(row);
  }

  /** The outer loop of the constructor over an array of arrays. */
  method ReadRows(rows: seq<seq<Element>>) returns (r: Result<Grid>)
    requires forall i :: 0 <= i < |rows| ==> ElementsRect(rows[i])
    ensures r == AllRows(rows)
  {
    var m: Grid := [];
    var k := 0;
    while k < |rows|
      invariant 0 <= k <= |rows|
      invariant AllRows(rows[..k]) == Ok(m)
    {
      assert rows[..k + 1][..k] == rows[..k];
      var v := ReadRow(rows[k]);
      if v.Err? {
        AllRowsPrefixErr(rows, k + 1);
        return Err(v.msg);
      }
      m := m + [v.value];
      k := k + 1;
    }
    assert rows[..k] == rows;
    return Ok(m);
  }

  /** Once a prefix of the row throws, the whole row throws the same exception. */
  lemma {:induction false} RowValuesPrefixErr(es: seq<Element>, k: nat)
    requires ElementsRect(es) && k <= |es| && RowValues(es[..k]).Err?
    ensures RowValues(es) == RowValues(es[..k])
    decreases |es| - k
  {
    if k < |es| {
      assert es[..k + 1][..k] == es[..k];
      RowValuesPrefixErr(es, k + 1);
    } else {
      assert es[..k] == es;
    }
  }

  /** Once a prefix of the rows throws, reading all of them throws the same exception. */
  lemma {:induction false} AllRowsPrefixErr(rows: seq<seq<Element>>, k: nat)
    requires (forall i :: 0 <= i < |rows| ==> ElementsRect(rows[i])) && k <= |rows| && AllRows(rows[..k]).Err?
    ensures AllRows(rows) == AllRows(rows[..k])
    decreases |rows| - k
  {
    if k < |rows| {
      assert rows[..k + 1][..k] == rows[..k];
      AllRowsPrefixErr(rows, k + 1);
    } else {
      assert rows[..k] == rows;
    }
  }
}
