/**
 * Signal: the matrix-facing conv, xcorr and fftshift. conv and xcorr read a
 * vector into the two arrays SignalTool works on and turn the result back
 * into a vector; fftshift rotates a signal so that its centre comes first.
 */
module Signals {
  import opened Wrappers
  import opened ComplexNum
  import opened Grid
  import Vectors
  import MatrixInput
  import ST = SignalTool
  import opened Matrices

  /** What conv and xcorr throw for an argument that is not a vector. */
  const MATRIX_NUMBERS: string := "conv don't support matrix numbers."

  /** Sample i of a vector: along row 0 of a row vector, otherwise down column 0. */
  function Sample(m: Grid, i: nat): Complex
    requires IsRect(m) && i < (if |m| == 1 then Cols(m) else |m|)
  {
    if |m| == 1 then m[0][i] else m[i][0]
  }

  /** The real and imaginary parts conv and xcorr read from a vector. */
  function Samples(m: Grid): (s: ST.Signal)
    requires IsRect(m)
    ensures ST.Paired(s) && |s.re| == (if |m| == 1 then Cols(m) else |m|)
  {
    var n := if |m| == 1 then Cols(m) else |m|;
    ST.Signal(seq(n, i requires 0 <= i < n => Sample(m, i).re), seq(n, i requires 0 <= i < n => Sample(m, i).im))
  }

  /** The loops that copy a vector's parts into M_real and M_imag. */
  method ReadSamples(M: Matrix) returns (s: ST.Signal)
    requires M.Valid()
    ensures s == Samples(M.matrix_array)
  {
    var n := if M.IsRow() then M.column_length else M.row_length;
    var re := ST.ZeroSeq(n);
    var im := ST.ZeroSeq(n);
    for i := 0 to n
      invariant |re| == |im| == n
      invariant forall j :: 0 <= j < i ==> re[j] == Sample(M.matrix_array, j).re && im[j] == Sample(M.matrix_array, j).im
    {
      var c := if M.IsRow() then M.matrix_array[0][i] else M.matrix_array[i][0];
      re := re[i := c.re];
      im := im[i := c.im];
    }
    s := ST.Signal(re, im);
  }

  /** The result as a one-row matrix of complex numbers, transposed into a column unless `row`. */
  function Oriented(y: ST.Signal, row: bool): (g: Grid)
    requires ST.Paired(y) && |y.re| >= 1
    ensures IsRect(g)
  {
    var line := [seq(|y.re|, i requires 0 <= i < |y.re| => Complex(y.re[i], y.im[i]))];
    if row then line else Transpose(line)
  }

  /** A row result is 1×n and a column result n×1, holding sample i at position i. */
  lemma OrientedCells(y: ST.Signal, row: bool)
    requires ST.Paired(y) && |y.re| >= 1
    ensures row ==> Shape(Oriented(y, row), 1, |y.re|)
    ensures !row ==> Shape(Oriented(y, row), |y.re|, 1)
    ensures row ==> forall i :: 0 <= i < |y.re| ==> Oriented(y, row)[0][i] == Complex(y.re[i], y.im[i])
    ensures !row ==> forall i :: 0 <= i < |y.re| ==> Oriented(y, row)[i][0] == Complex(y.re[i], y.im[i])
  {
  }

  /**
   * Signal.conv(x1, x2): both arguments must be vectors; the convolution
   * comes back as a row when x2 is a row and as a column otherwise.
   */
  method Conv(M1: Matrix, M2: Matrix) returns (r: Result<Matrix>)
    requires M1.Valid() && M2.Valid()
    ensures r.Err? <==> M1.IsMatrix() || M2.IsMatrix()
    ensures r.Err? ==> r.msg == MATRIX_NUMBERS
    ensures r.Ok? ==> fresh(r.value) && r.value.Valid()
    ensures r.Ok? ==>
      r.value.matrix_array == Oriented(ST.Convolution(Samples(M1.matrix_array), Samples(M2.matrix_array)), M2.IsRow())
  {
    if M1.IsMatrix() || M2.IsMatrix() {
      return Err(MATRIX_NUMBERS);
    }
    var x1 := ReadSamples(M1);
    var x2 := ReadSamples(M2);
    var y := ST.Conv(x1, x2);
    var M := new Matrix(Oriented(y.value, true));
    if M2.IsRow() {
      return Ok(M);
    }
    var t := M.Transpose();
    return Ok(t);
  }

  /**
   * Signal.xcorr(x1, x2): the cross-correlation of two vectors, or the
   * autocorrelation of x1 when x2 is missing; it comes back as a row when
   * x1 is a row and as a column otherwise.
   */
  method Xcorr(M1: Matrix, x2: Option<Matrix>) returns (r: Result<Matrix>)
    requires M1.Valid() && (x2.Some? ==> x2.value.Valid())
    ensures var M2 := if x2.Some? then x2.value else M1;
      (r.Err? <==> M1.IsMatrix() || M2.IsMatrix()) &&
      (r.Err? ==> r.msg == MATRIX_NUMBERS) &&
      (r.Ok? ==> fresh(r.value) && r.value.Valid()) &&
      (r.Ok? ==> r.value.matrix_array == Oriented(ST.Correlation(Samples(M1.matrix_array), Samples(M2.matrix_array)), M1.IsRow()))
  {
    var M2 := if x2.Some? then x2.value else M1;
    if M1.IsMatrix() || M2.IsMatrix() {
      return Err(MATRIX_NUMBERS);
    }
    var s1 := ReadSamples(M1);
    var s2 := ReadSamples(M2);
    var y := ST.Xcorr(s1, s2);
    var M := new Matrix(Oriented(y.value, true));
    if M1.IsRow() {
      return Ok(M);
    }
    var t := M.Transpose();
    return Ok(t);
  }

  // ---------------------------------------------------------------------
  // fftshift
  // ---------------------------------------------------------------------

  /** The settings object fftshift takes; only its dimension is read. */
  datatype Settings = Settings(dimension: Option<Vectors.Dimension>)

  function DimensionOf(settings: Option<Settings>): Option<Vectors.Dimension>
  {
    if settings.Some? then settings.value.dimension else None
  }

  /** circshift(k, settings) of a grid: each vector selected by the dimension rotated k places. */
  function Circshifted(m: Grid, k: int, dimension: Option<Vectors.Dimension>): (r: Result<Grid>)
    requires IsRect(m)
    ensures r.Ok? ==> IsRect(r.value)
  {
    Vectors.EachVector(m, Vectors.Shift(k), Vectors.SettingsDimension(dimension), MatrixInput.ILLEGAL)
  }

  /**
   * fftshift's result: a vector rotated by ⌊n/2⌋ along the settings'
   * dimension; a matrix rotated by half its width along each row when the
   * target is exactly "row" or 1, by half its height along each column when
   * it is exactly "column" or 2, and otherwise along both.
   */
  function FftshiftOf(m: Grid, settings: Option<Settings>): (r: Result<Grid>)
    requires IsRect(m)
  {
    var dim := DimensionOf(settings);
    var n := if |m| > Cols(m) then |m| else Cols(m);
    if |m| == 1 || Cols(m) == 1 then Circshifted(m, n / 2, dim)
    else if settings.Some? && (dim == Some(Vectors.DimText("row")) || dim == Some(Vectors.DimNumber(1.0))) then
      Circshifted(m, Cols(m) / 2, dim)
    else if settings.Some? && (dim == Some(Vectors.DimText("column")) || dim == Some(Vectors.DimNumber(2.0))) then
      Circshifted(m, |m| / 2, dim)
    else
      match Circshifted(m, Cols(m) / 2, Some(Vectors.DimText("row")))
      case Err(msg) => Err(msg)
      case Ok(y) => Circshifted(y, |m| / 2, Some(Vectors.DimText("column")))
  }

  /** Signal.fftshift(x, type). */
  method Fftshift(X: Matrix, settings: Option<Settings>) returns (r: Result<Matrix>)
    requires X.Valid()
    ensures r.Err? <==> FftshiftOf(X.matrix_array, settings).Err?
    ensures r.Err? ==> r.msg == FftshiftOf(X.matrix_array, settings).msg
    ensures r.Ok? ==> fresh(r.value) && r.value.Valid() && r.value.matrix_array == FftshiftOf(X.matrix_array, settings).value
  {
    var dim := DimensionOf(settings);
    if X.IsVector() {
      r := X.Circshift(X.Length() / 2, dim);
      return;
    }
    var shiftCol := X.column_length / 2;
    var shiftRow := X.row_length / 2;
    if settings.Some? {
      var target := dim;
      if target == Some(Vectors.DimText("row")) || target == Some(Vectors.DimNumber(1.0)) {
        r := X.Circshift(shiftCol, dim);
        return;
      } else if target == Some(Vectors.DimText("column")) || target == Some(Vectors.DimNumber(2.0)) {
        r := X.Circshift(shiftRow, dim);
        return;
      }
    }
    var y := X.Circshift(shiftCol, Some(Vectors.DimText("row")));
    if y.Err? {
      return y;
    }
    r := y.value.Circshift(shiftRow, Some(Vectors.DimText("column")));
  }

  /** fftshift of a row vector rotates it by ⌊n/2⌋: y[i] = x[(i - ⌊n/2⌋) mod n]. */
  lemma FftshiftRow(m: Grid)
    requires IsRect(m) && |m| == 1
    ensures FftshiftOf(m, None) == Ok([Shifted(m[0], Cols(m) / 2)])
  {
    assert Vectors.DirectionOf(Vectors.DimText("auto")) == Ok(Vectors.Auto);
  }

  /** fftshift of a column vector rotates it by ⌊n/2⌋ downwards. */
  lemma FftshiftColumn(m: Grid)
    requires IsRect(m) && |m| > 1 && Cols(m) == 1
    ensures FftshiftOf(m, None).Ok?
    ensures Shape(FftshiftOf(m, None).value, |m|, 1)
    ensures forall i :: 0 <= i < |m| ==> FftshiftOf(m, None).value[i][0] == m[(i - |m| / 2) % |m|][0]
  {
    assert Vectors.DirectionOf(Vectors.DimText("auto")) == Ok(Vectors.Auto);
    ShiftColumns(m, |m| / 2);
    assert FftshiftOf(m, None) == Ok(Vectors.EachColumn(m, Vectors.Shift(|m| / 2)));
  }

  /** Rotating every row by k: row i becomes Shifted(row i, k). */
  lemma ShiftRows(m: Grid, k: int)
    requires IsRect(m)
    ensures Shape(Vectors.EachRow(m, Vectors.Shift(k)), |m|, Cols(m))
    ensures forall i, j :: 0 <= i < |m| && 0 <= j < Cols(m) ==>
      Vectors.EachRow(m, Vectors.Shift(k))[i][j] == m[i][(j - k) % Cols(m)]
  {
    Vectors.EachRowKeepsShape(m, Vectors.Shift(k));
  }

  /** Rotating every column by k: cell (i, j) comes from row (i - k) mod r. */
  lemma ShiftColumns(m: Grid, k: int)
    requires IsRect(m)
    ensures Shape(Vectors.EachColumn(m, Vectors.Shift(k)), |m|, Cols(m))
    ensures forall i, j :: 0 <= i < |m| && 0 <= j < Cols(m) ==>
      Vectors.EachColumn(m, Vectors.Shift(k))[i][j] == m[(i - k) % |m|][j]
  {
    var t := Transpose(m);
    Vectors.EachColumnTranspose(m, Vectors.Shift(k));
    ShiftRows(t, k);
  }

  /**
   * Without settings, a matrix is rotated by half its width along its rows,
   * then by half its height along its columns (ShiftBoth gives the cells).
   */
  lemma FftshiftBoth(m: Grid)
    requires IsRect(m) && |m| > 1 && Cols(m) > 1
    ensures FftshiftOf(m, None) ==
      Ok(Vectors.EachColumn(Vectors.EachRow(m, Vectors.Shift(Cols(m) / 2)), Vectors.Shift(|m| / 2)))
  {
    assert Vectors.DirectionOf(Vectors.DimText("row")) == Ok(Vectors.RowWise);
    assert Vectors.DirectionOf(Vectors.DimText("column")) == Ok(Vectors.ColumnWise);
  }

  /** Rotating the rows by l and then the columns by k moves cell (i - k, j - l) to (i, j). */
  lemma ShiftBoth(m: Grid, k: int, l: int)
    requires IsRect(m)
    ensures Shape(Vectors.EachColumn(Vectors.EachRow(m, Vectors.Shift(l)), Vectors.Shift(k)), |m|, Cols(m))
    ensures forall i, j :: 0 <= i < |m| && 0 <= j < Cols(m) ==>
      Vectors.EachColumn(Vectors.EachRow(m, Vectors.Shift(l)), Vectors.Shift(k))[i][j] == m[(i - k) % |m|][(j - l) % Cols(m)]
  {
    var r, c := |m|, Cols(m);
    var y := Vectors.EachRow(m, Vectors.Shift(l));
    ShiftRows(m, l);
    ShiftColumns(y, k);
    var z := Vectors.EachColumn(y, Vectors.Shift(k));
    forall i, j | 0 <= i < r && 0 <= j < c
      ensures z[i][j] == m[(i - k) % r][(j - l) % c]
    {
      var p := (i - k) % r;
      assert z[i][j] == y[p][j];
    }
  }
}
