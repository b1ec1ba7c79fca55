/**
 * eachVector: a function from arrays to arrays applied to every row or
 * every column of a matrix. The outputs may have any length; the result
 * is as wide (or as tall) as the longest output, at least 1, and every
 * shorter output is followed by ZERO. flip and circshift are eachVector
 * with a reversal and a rotation.
 */
module Vectors {
  import opened Wrappers
  import opened ComplexNum
  import opened Grid
  import Text

  type VectorFunction = seq<Complex> -> seq<Complex>

  /** The ZERO vector of length n. */
  function Zeros(n: nat): (v: seq<Complex>)
    ensures |v| == n && forall j :: 0 <= j < n ==> v[j] == ZERO
  {
    seq(n, _ => ZERO)
  }

  /** The longest of f's outputs on vs[..k], and at least 1 (the result starts as a 1-wide ZERO). */
  function Longest(vs: seq<seq<Complex>>, f: VectorFunction, k: nat): (w: nat)
    requires k <= |vs|
    ensures w >= 1
    ensures forall i :: 0 <= i < k ==> |f(vs[i])| <= w
    decreases k
  {
    if k == 0 then 1 else Max(Longest(vs, f, k - 1), |f(vs[k - 1])|)
  }

  /** The length is attained: it is 1, or the length of one of the outputs. */
  lemma {:induction false} LongestAttained(vs: seq<seq<Complex>>, f: VectorFunction, k: nat)
    requires k <= |vs|
    ensures Longest(vs, f, k) == 1 || exists i :: 0 <= i < k && |f(vs[i])| == Longest(vs, f, k)
    decreases k
  {
    if k > 0 {
      LongestAttained(vs, f, k - 1);
    }
  }

  /** The columns of m, left to right. */
  function Columns(m: Grid): (cs: seq<seq<Complex>>)
    requires IsRect(m)
    ensures |cs| == Cols(m) && forall j :: 0 <= j < Cols(m) ==> cs[j] == Column(m, j)
  {
    seq(Cols(m), j requires 0 <= j < Cols(m) => Column(m, j))
  }

  // ---------------------------------------------------------------------
  // eachVectorRow
  // ---------------------------------------------------------------------

  /** eachVectorRow after rows m[..k]: row i < k starts with f(m[i]); every other cell is ZERO. */
  function RowsUpTo(m: Grid, f: VectorFunction, k: nat): (t: Grid)
    requires k <= |m|
    ensures Shape(t, |m|, Longest(m, f, k))
  {
    Build(|m|, Longest(m, f, k), (i, j) => if 0 <= i < k && 0 <= j < |f(m[i])| then f(m[i])[j] else ZERO)
  }

  /** eachVectorRow(f): row i of the result is f(m[i]) followed by ZERO up to the longest output. */
  function EachRow(m: Grid, f: VectorFunction): (t: Grid)
    requires |m| > 0
    ensures IsRect(t) && Shape(t, |m|, Longest(m, f, |m|))
  {
    RowsUpTo(m, f, |m|)
  }

  /** Before the first row: the |m|×1 ZERO matrix that `_resize(row_length, 1)` makes of 1×1 ZERO. */
  lemma RowsStart(m: Grid, f: VectorFunction)
    requires |m| > 0
    ensures Resized([[ZERO]], |m|, 1) == RowsUpTo(m, f, 0)
  {
    GridEq(Resized([[ZERO]], |m|, 1), RowsUpTo(m, f, 0), |m|, 1);
  }

  /** Row k of m replaced by out followed by the rest of the old row. */
  function PutRow(m: Grid, k: nat, out: seq<Complex>): (t: Grid)
    requires k < |m| && |out| <= |m[k]|
    ensures |t| == |m| && t[k] == out + m[k][|out|..]
    ensures forall i :: 0 <= i < |m| && i != k ==> t[i] == m[i]
  {
    m[k := out + m[k][|out|..]]
  }

  /** Storing nothing leaves the row as it is; storing cell c extends the stored prefix by one. */
  lemma PutRowNone(m: Grid, k: nat, out: seq<Complex>)
    requires k < |m| && |out| <= |m[k]|
    ensures PutRow(m, k, out[..0]) == m
  {
    assert out[..0] + m[k][0..] == m[k];
  }

  lemma PutRowStep(m: Grid, k: nat, out: seq<Complex>, c: nat)
    requires k < |m| && c < |out| <= |m[k]|
    ensures var t := PutRow(m, k, out[..c]);
      t[k := t[k][c := out[c]]] == PutRow(m, k, out[..c + 1])
  {
    var t := PutRow(m, k, out[..c]);
    assert t[k][c := out[c]] == out[..c + 1] + m[k][c + 1..];
  }

  /**
   * One row step: widening to the longer of the current width and the new
   * output keeps the earlier rows, and copying the output into row k
   * gives the state after k + 1 rows.
   */
  lemma RowsNext(m: Grid, f: VectorFunction, k: nat)
    requires k < |m|
    ensures IsRect(RowsUpTo(m, f, k))
    ensures Longest(m, f, k + 1) == Max(Longest(m, f, k), |f(m[k])|)
    ensures PutRow(Resized(RowsUpTo(m, f, k), |m|, Longest(m, f, k + 1)), k, f(m[k])) == RowsUpTo(m, f, k + 1)
  {
    var t := RowsUpTo(m, f, k);
    ShapeRect(t, |m|, Longest(m, f, k));
    var w := Longest(m, f, k + 1);
    var u := PutRow(Resized(t, |m|, w), k, f(m[k]));
    var v := RowsUpTo(m, f, k + 1);
    assert Shape(u, |m|, w);
    forall i, j | 0 <= i < |m| && 0 <= j < w
      ensures u[i][j] == v[i][j]
    {
      RowsNextCell(m, f, k, i, j);
    }
    GridEq(u, v, |m|, w);
  }

  lemma RowsNextCell(m: Grid, f: VectorFunction, k: nat, i: nat, j: nat)
    requires k < |m| && i < |m| && j < Longest(m, f, k + 1)
    requires IsRect(RowsUpTo(m, f, k))
    ensures PutRow(Resized(RowsUpTo(m, f, k), |m|, Longest(m, f, k + 1)), k, f(m[k]))[i][j] == RowsUpTo(m, f, k + 1)[i][j]
  {
    if i < k {
      assert |f(m[i])| <= Longest(m, f, k);
    }
  }

  /** Every row of eachVectorRow's result is f's output on that row, padded with ZERO to the common width. */
  lemma EachRowRows(m: Grid, f: VectorFunction, i: nat)
    requires i < |m|
    ensures var w := Longest(m, f, |m|);
      |f(m[i])| <= w && EachRow(m, f)[i] == f(m[i]) + Zeros(w - |f(m[i])|)
  {
    var w := Longest(m, f, |m|);
    var v := f(m[i]) + Zeros(w - |f(m[i])|);
    assert |EachRow(m, f)[i]| == w == |v|;
    forall j | 0 <= j < w
      ensures EachRow(m, f)[i][j] == v[j]
    {
    }
  }

  /** The width is the longest output, and it is 1 when every output is empty. */
  lemma EachRowWidth(m: Grid, f: VectorFunction)
    requires |m| > 0
    ensures forall i :: 0 <= i < |m| ==> |f(m[i])| <= Cols(EachRow(m, f))
    ensures Cols(EachRow(m, f)) == 1 || exists i :: 0 <= i < |m| && |f(m[i])| == Cols(EachRow(m, f))
  {
    LongestAttained(m, f, |m|);
  }

  /** When f keeps the length of every row, eachVectorRow gives exactly f's outputs, row by row. */
  lemma EachRowKeepsShape(m: Grid, f: VectorFunction)
    requires IsRect(m)
    requires forall i :: 0 <= i < |m| ==> |f(m[i])| == Cols(m)
    ensures EachRow(m, f) == seq(|m|, i requires 0 <= i < |m| => f(m[i]))
  {
    var w := Longest(m, f, |m|);
    LongestAttained(m, f, |m|);
    assert |f(m[0])| == Cols(m);
    assert w == Cols(m);
    forall i | 0 <= i < |m|
      ensures EachRow(m, f)[i] == f(m[i])
    {
      EachRowRows(m, f, i);
      assert Zeros(w - |f(m[i])|) == [];
    }
  }

  // ---------------------------------------------------------------------
  // eachVectorColumn
  // ---------------------------------------------------------------------

  /** eachVectorColumn after columns ..k: column j < k starts with f(column j); every other cell is ZERO. */
  function ColumnsUpTo(m: Grid, f: VectorFunction, k: nat): (t: Grid)
    requires IsRect(m) && k <= Cols(m)
    ensures Shape(t, Longest(Columns(m), f, k), Cols(m))
  {
    var cs := Columns(m);
    Build(Longest(cs, f, k), Cols(m), (i, j) => if 0 <= j < k && 0 <= i < |f(cs[j])| then f(cs[j])[i] else ZERO)
  }

  /** eachVectorColumn(f): column j of the result is f(column j) followed by ZERO down to the longest output. */
  function EachColumn(m: Grid, f: VectorFunction): (t: Grid)
    requires IsRect(m)
    ensures IsRect(t) && Shape(t, Longest(Columns(m), f, Cols(m)), Cols(m))
  {
    ColumnsUpTo(m, f, Cols(m))
  }

  /** Before the first column: the 1×column_length ZERO matrix. */
  lemma ColumnsStart(m: Grid, f: VectorFunction)
    requires IsRect(m)
    ensures Resized([[ZERO]], 1, Cols(m)) == ColumnsUpTo(m, f, 0)
  {
    GridEq(Resized([[ZERO]], 1, Cols(m)), ColumnsUpTo(m, f, 0), 1, Cols(m));
  }

  /** Column k of m, from the top, replaced by out; the cells below it kept. */
  function PutColumn(m: Grid, k: nat, out: seq<Complex>): (t: Grid)
    requires IsRect(m) && k < Cols(m) && |out| <= |m|
    ensures Shape(t, |m|, Cols(m))
  {
    seq(|m|, i requires 0 <= i < |m| => if i < |out| then m[i][k := out[i]] else m[i])
  }

  /** Cell (i, j) after PutColumn: out's cell in column k, the old cell elsewhere. */
  lemma PutColumnCell(m: Grid, k: nat, out: seq<Complex>, i: nat, j: nat)
    requires IsRect(m) && k < Cols(m) && |out| <= |m| && i < |m| && j < Cols(m)
    ensures PutColumn(m, k, out)[i][j] == if j == k && i < |out| then out[i] else m[i][j]
  {
  }

  lemma PutColumnNone(m: Grid, k: nat, out: seq<Complex>)
    requires IsRect(m) && k < Cols(m) && |out| <= |m|
    ensures PutColumn(m, k, out[..0]) == m
  {
    forall i, j | 0 <= i < |m| && 0 <= j < Cols(m)
      ensures PutColumn(m, k, out[..0])[i][j] == m[i][j]
    {
      PutColumnCell(m, k, out[..0], i, j);
    }
    GridEq(PutColumn(m, k, out[..0]), m, |m|, Cols(m));
  }

  /** Storing cell i of the output extends the stored prefix by one. */
  lemma PutColumnStep(m: Grid, k: nat, out: seq<Complex>, i: nat)
    requires IsRect(m) && k < Cols(m) && i < |out| <= |m|
    ensures var t := PutColumn(m, k, out[..i]);
      t[i := t[i][k := out[i]]] == PutColumn(m, k, out[..i + 1])
  {
    var t := PutColumn(m, k, out[..i]);
    var u := t[i := t[i][k := out[i]]];
    assert Shape(u, |m|, Cols(m));
    forall r, c | 0 <= r < |m| && 0 <= c < Cols(m)
      ensures u[r][c] == PutColumn(m, k, out[..i + 1])[r][c]
    {
      PutColumnCell(m, k, out[..i], r, c);
      PutColumnCell(m, k, out[..i + 1], r, c);
    }
    GridEq(u, PutColumn(m, k, out[..i + 1]), |m|, Cols(m));
  }

  /** One column step: lengthening to the longer output, then copying the output into column k. */
  lemma ColumnsNext(m: Grid, f: VectorFunction, k: nat)
    requires IsRect(m) && k < Cols(m)
    ensures IsRect(ColumnsUpTo(m, f, k))
    ensures Longest(Columns(m), f, k + 1) == Max(Longest(Columns(m), f, k), |f(Column(m, k))|)
    ensures var h := Longest(Columns(m), f, k + 1);
      IsRect(Resized(ColumnsUpTo(m, f, k), h, Cols(m))) && |f(Column(m, k))| <= h &&
      PutColumn(Resized(ColumnsUpTo(m, f, k), h, Cols(m)), k, f(Column(m, k))) == ColumnsUpTo(m, f, k + 1)
  {
    var cs := Columns(m);
    var t := ColumnsUpTo(m, f, k);
    ShapeRect(t, Longest(cs, f, k), Cols(m));
    var h := Longest(cs, f, k + 1);
    var r := Resized(t, h, Cols(m));
    ShapeRect(r, h, Cols(m));
    var u := PutColumn(r, k, f(Column(m, k)));
    var v := ColumnsUpTo(m, f, k + 1);
    forall i, j | 0 <= i < h && 0 <= j < Cols(m)
      ensures u[i][j] == v[i][j]
    {
      ColumnsNextCell(m, f, k, i, j);
    }
    GridEq(u, v, h, Cols(m));
  }

  lemma ColumnsNextCell(m: Grid, f: VectorFunction, k: nat, i: nat, j: nat)
    requires IsRect(m) && k < Cols(m) && i < Longest(Columns(m), f, k + 1) && j < Cols(m)
    requires IsRect(ColumnsUpTo(m, f, k))
    requires IsRect(Resized(ColumnsUpTo(m, f, k), Longest(Columns(m), f, k + 1), Cols(m)))
    ensures var h := Longest(Columns(m), f, k + 1);
      PutColumn(Resized(ColumnsUpTo(m, f, k), h, Cols(m)), k, f(Column(m, k)))[i][j] == ColumnsUpTo(m, f, k + 1)[i][j]
  {
    var h := Longest(Columns(m), f, k + 1);
    PutColumnCell(Resized(ColumnsUpTo(m, f, k), h, Cols(m)), k, f(Column(m, k)), i, j);
    if j < k {
      assert |f(Columns(m)[j])| <= Longest(Columns(m), f, k);
    }
  }

  /** The columns of m are the rows of its transpose. */
  lemma ColumnsTranspose(m: Grid)
    requires IsRect(m)
    ensures Columns(m) == Transpose(m)
  {
    forall j | 0 <= j < Cols(m)
      ensures Columns(m)[j] == Transpose(m)[j]
    {
    }
  }

  /** eachVectorColumn is eachVectorRow on the transpose, transposed back. */
  lemma EachColumnTranspose(m: Grid, f: VectorFunction)
    requires IsRect(m)
    ensures EachColumn(m, f) == Transpose(EachRow(Transpose(m), f))
  {
    ColumnsTranspose(m);
    var r := EachRow(Transpose(m), f);
    var h := Longest(Transpose(m), f, Cols(m));
    GridEq(EachColumn(m, f), Transpose(r), h, Cols(m));
  }

  // ---------------------------------------------------------------------
  // eachVectorAuto, eachVectorBoth and the dimension argument
  // ---------------------------------------------------------------------

  /**
   * eachVectorAuto(f): a single row is handed to f whole and its output
   * becomes a row vector (new Matrix of an empty array throws); any other
   * matrix is processed column by column.
   */
  function EachAuto(m: Grid, f: VectorFunction, illegal: string): (r: Result<Grid>)
    requires IsRect(m)
    ensures r.Ok? ==> IsRect(r.value)
    ensures |m| == 1 ==> (r.Ok? <==> |f(m[0])| > 0)
    ensures |m| == 1 && r.Ok? ==> r.value == [f(m[0])]
    ensures |m| == 1 && r.Err? ==> r.msg == illegal
    ensures |m| != 1 ==> r == Ok(EachColumn(m, f))
  {
    if |m| == 1 then
      if |f(m[0])| > 0 then Ok([f(m[0])]) else Err(illegal)
    else Ok(EachColumn(m, f))
  }

  /** On a single row with a non-empty output, the special path of eachVectorAuto agrees with eachVectorRow. */
  lemma EachAutoRow(m: Grid, f: VectorFunction, illegal: string)
    requires IsRect(m) && |m| == 1 && |f(m[0])| > 0
    ensures EachAuto(m, f, illegal) == Ok(EachRow(m, f))
  {
    assert Longest(m, f, 1) == |f(m[0])|;
    EachRowRows(m, f, 0);
    assert Zeros(0) == [];
    assert EachRow(m, f)[0] == f(m[0]);
    assert EachRow(m, f) == [f(m[0])];
  }

  /** eachVectorBoth(f): the rows first, then the columns of that result. */
  function EachBoth(m: Grid, f: VectorFunction): (t: Grid)
    requires IsRect(m)
    ensures IsRect(t) && t == EachColumn(EachRow(m, f), f)
  {
    EachColumn(EachRow(m, f), f)
  }

  /** The four ways eachVector can go. */
  datatype Direction = Auto | RowWise | ColumnWise | Both

  /** The dimension argument: a string (matched after lower-casing) or a number (matched exactly). */
  datatype Dimension = DimText(text: string) | DimNumber(x: real)

  const VECTOR_ARGUMENT: string := "eachVector argument "

  /** An option object's dimension, "auto" when the object or its dimension is missing or falsy ("", 0). */
  function SettingsDimension(dimension: Option<Dimension>): (d: Dimension)
    ensures dimension.Some? && dimension.value != DimText("") && dimension.value != DimNumber(0.0) ==> d == dimension.value
    ensures dimension.None? || dimension.value == DimText("") || dimension.value == DimNumber(0.0) ==> d == DimText("auto")
  {
    match dimension
    case None => DimText("auto")
    case Some(d) => if d == DimText("") || d == DimNumber(0.0) then DimText("auto") else d
  }

  /**
   * `"eachVector argument " + dimension` for a number: String(x) is the
   * decimal numeral for a whole number below 10^21 in size; other numbers
   * are formatted in floating point, which this model leaves out.
   */
  function NumberMessage(x: real): (msg: string)
    ensures x == x.Floor as real && -1.0e21 < x < 1.0e21 ==> msg == VECTOR_ARGUMENT + Text.IntText(x.Floor)
    ensures |msg| > |VECTOR_ARGUMENT| ==> x == x.Floor as real
  {
    if x == x.Floor as real && -1.0e21 < x < 1.0e21 then VECTOR_ARGUMENT + Text.IntText(x.Floor) else VECTOR_ARGUMENT
  }

  /** The message carries the numeral: different whole numbers give different messages. */
  lemma NumberMessageInjective(x: real, y: real)
    requires x == x.Floor as real && -1.0e21 < x < 1.0e21
    requires y == y.Floor as real && -1.0e21 < y < 1.0e21
    requires NumberMessage(x) == NumberMessage(y)
    ensures x == y
  {
    var s := Text.IntText(x.Floor);
    var t := Text.IntText(y.Floor);
    assert VECTOR_ARGUMENT + s == VECTOR_ARGUMENT + t;
    assert s == (VECTOR_ARGUMENT + s)[|VECTOR_ARGUMENT|..];
    assert t == (VECTOR_ARGUMENT + t)[|VECTOR_ARGUMENT|..];
    if x.Floor >= 0 && y.Floor >= 0 {
      Text.NatTextInjective(x.Floor, y.Floor);
    } else if x.Floor < 0 && y.Floor < 0 {
      assert s[1..] == Text.NatText(-x.Floor) && t[1..] == Text.NatText(-y.Floor);
      Text.NatTextInjective(-x.Floor, -y.Floor);
    } else {
      // one numeral starts with '-', the other with a digit
      assert false;
    }
  }

  /** The direction a dimension selects, or the exception for any other value. */
  function DirectionOf(d: Dimension): (r: Result<Direction>)
    ensures d.DimNumber? ==> (r.Ok? <==> d.x == 0.0 || d.x == 1.0 || d.x == 2.0 || d.x == 3.0)
    ensures d.DimText? ==> (r.Ok? <==> Text.LowerAscii(d.text) in ["auto", "row", "column", "both"])
    ensures d.DimText? && r.Err? ==> r.msg == VECTOR_ARGUMENT + d.text
    ensures d.DimNumber? && r.Err? ==> r.msg == NumberMessage(d.x)
    ensures r == Ok(Auto) <==> d == DimNumber(0.0) || (d.DimText? && Text.LowerAscii(d.text) == "auto")
    ensures r == Ok(RowWise) <==> d == DimNumber(1.0) || (d.DimText? && Text.LowerAscii(d.text) == "row")
    ensures r == Ok(ColumnWise) <==> d == DimNumber(2.0) || (d.DimText? && Text.LowerAscii(d.text) == "column")
    ensures r == Ok(Both) <==> d == DimNumber(3.0) || (d.DimText? && Text.LowerAscii(d.text) == "both")
  {
    match d
    case DimNumber(x) =>
      if x == 0.0 then Ok(Auto)
      else if x == 1.0 then Ok(RowWise)
      else if x == 2.0 then Ok(ColumnWise)
      else if x == 3.0 then Ok(Both)
      else Err(NumberMessage(x))
    case DimText(s) =>
      var t := Text.LowerAscii(s);
      if t == "auto" then Ok(Auto)
      else if t == "row" then Ok(RowWise)
      else if t == "column" then Ok(ColumnWise)
      else if t == "both" then Ok(Both)
      else Err(VECTOR_ARGUMENT + s)
  }

  /** The names are matched without regard to the case of their letters. */
  lemma DirectionOfIgnoresCase(s: string)
    ensures DirectionOf(DimText(Text.LowerAscii(s))).Ok? == DirectionOf(DimText(s)).Ok?
    ensures DirectionOf(DimText(s)).Ok? ==> DirectionOf(DimText(Text.LowerAscii(s))) == DirectionOf(DimText(s))
  {
    Text.LowerAsciiIdempotent(s);
  }

  /** eachVector(f, dimension) on the value of the matrix. */
  function EachVector(m: Grid, f: VectorFunction, d: Dimension, illegal: string): (r: Result<Grid>)
    requires IsRect(m)
    ensures r.Ok? ==> IsRect(r.value)
    ensures DirectionOf(d).Err? ==> r == Err(DirectionOf(d).msg)
    ensures DirectionOf(d) == Ok(RowWise) ==> r == Ok(EachRow(m, f))
    ensures DirectionOf(d) == Ok(ColumnWise) ==> r == Ok(EachColumn(m, f))
    ensures DirectionOf(d) == Ok(Both) ==> r == Ok(EachBoth(m, f))
    ensures DirectionOf(d) == Ok(Auto) ==> r == EachAuto(m, f, illegal)
  {
    match DirectionOf(d)
    case Err(msg) => Err(msg)
    case Ok(Auto) => EachAuto(m, f, illegal)
    case Ok(RowWise) => Ok(EachRow(m, f))
    case Ok(ColumnWise) => Ok(EachColumn(m, f))
    case Ok(Both) => Ok(EachBoth(m, f))
  }

  // ---------------------------------------------------------------------
  // flip and circshift
  // ---------------------------------------------------------------------

  /** flip's main: y[i] = data[j] with j running down from the end. */
  method FlipVector(data: seq<Complex>) returns (y: seq<Complex>)
    ensures y == Reversed(data)
  {
    y := Zeros(|data|);
    var i := 0;
    var j := |data| - 1;
    while i < |data|
      invariant 0 <= i <= |data| && j == |data| - 1 - i && |y| == |data|
      invariant forall k :: 0 <= k < i ==> y[k] == data[|data| - 1 - k]
    {
      y := y[i := data[j]];
      i := i + 1;
      j := j - 1;
    }
  }

  /** circshift's main: reading starts at ((-shift % n) + n) % n and wraps to 0 at the end. */
  method ShiftVector(data: seq<Complex>, shift: int) returns (y: seq<Complex>)
    ensures y == Shifted(data, shift)
  {
    var n := |data|;
    if n == 0 {
      return [];
    }
    y := Zeros(n);
    var from := (JsRem(-shift, n) + n) % n;
    JsRemNormalised(-shift, n);
    var i := 0;
    while i < n
      invariant 0 <= i <= n && |y| == n && 0 <= from < n
      invariant from == (i - shift) % n
      invariant forall k :: 0 <= k < i ==> y[k] == data[(k - shift) % n]
    {
      y := y[i := data[from]];
      ModStep(i - shift, n);
      from := from + 1;
      if from == n {
        from := 0;
      }
      i := i + 1;
    }
  }

  /** Stepping the index by one: the residue moves up by one and wraps from n - 1 to 0. */
  lemma ModStep(a: int, n: int)
    requires n > 0
    ensures (a + 1) % n == if a % n + 1 == n then 0 else a % n + 1
  {
    var q := a / n;
    assert a == q * n + a % n;
    if a % n + 1 == n {
      ModUnique(a + 1, q + 1, n, 0);
    } else {
      ModUnique(a + 1, q, n, a % n + 1);
    }
  }

  /** circshift's vector function for a shift. */
  function Shift(shift: int): VectorFunction {
    v => Shifted(v, shift)
  }

  /** Flipping rows twice gives the matrix back. */
  lemma FlipRowsTwice(m: Grid)
    requires IsRect(m)
    ensures EachRow(EachRow(m, Reversed), Reversed) == m
  {
    EachRowKeepsShape(m, Reversed);
    var t := EachRow(m, Reversed);
    assert t == seq(|m|, i requires 0 <= i < |m| => Reversed(m[i]));
    ShapeRect(t, |m|, Cols(m));
    EachRowKeepsShape(t, Reversed);
    forall i | 0 <= i < |m|
      ensures EachRow(t, Reversed)[i] == m[i]
    {
      ReversedInvolution(m[i]);
    }
  }

  /** Shifting rows by k and then by l is shifting them by k + l. */
  lemma ShiftRowsCompose(m: Grid, k: int, l: int)
    requires IsRect(m)
    ensures EachRow(EachRow(m, Shift(k)), Shift(l)) == EachRow(m, Shift(k + l))
  {
    RowsShifted(m, k);
    RowsShifted(ShiftedRows(m, k), l);
    RowsShifted(m, k + l);
    ShiftedRowsCompose(m, k, l);
  }

  /** Every row shifted by k. */
  function ShiftedRows(m: Grid, k: int): (t: Grid)
    ensures |t| == |m| && forall i :: 0 <= i < |m| ==> t[i] == Shifted(m[i], k)
  {
    seq(|m|, i requires 0 <= i < |m| => Shifted(m[i], k))
  }

  /** Shifting the rows of a matrix shifts each row and keeps the shape. */
  lemma RowsShifted(m: Grid, k: int)
    requires IsRect(m)
    ensures EachRow(m, Shift(k)) == ShiftedRows(m, k)
    ensures IsRect(ShiftedRows(m, k)) && Cols(ShiftedRows(m, k)) == Cols(m)
  {
    forall i | 0 <= i < |m|
      ensures |Shift(k)(m[i])| == Cols(m)
    {
    }
    EachRowKeepsShape(m, Shift(k));
  }

  /** Rows shifted by k and then by l are the rows shifted by k + l. */
  lemma ShiftedRowsCompose(m: Grid, k: int, l: int)
    ensures ShiftedRows(ShiftedRows(m, k), l) == ShiftedRows(m, k + l)
  {
    var u, v := ShiftedRows(ShiftedRows(m, k), l), ShiftedRows(m, k + l);
    forall i | 0 <= i < |m|
      ensures u[i] == v[i]
    {
      ShiftedCompose(m[i], k, l);
    }
  }

  /** Flipping columns twice gives the matrix back. */
  lemma FlipColumnsTwice(m: Grid)
    requires IsRect(m)
    ensures EachColumn(EachColumn(m, Reversed), Reversed) == m
  {
    EachColumnTranspose(m, Reversed);
    var t := Transpose(m);
    FlipRowsTwice(t);
    var u := EachRow(t, Reversed);
    EachColumnTranspose(Transpose(u), Reversed);
    TransposeInvolution(u);
    TransposeInvolution(m);
  }
}
