/**
 * getMatrix and setMatrix over index vectors. getMatrix reads
 * m[rows[i] - g][cols[j] - g] for every pair of positions; setMatrix copies
 * the array and writes x[i % XR][j % XC] to each selected cell in row-major
 * order of the positions, so the last write to a cell wins. Its writes go
 * to JavaScript arrays: a negative column index names a property that the
 * later copy never reads, an index past the end grows the row and leaves
 * holes, and a missing row cannot be written at all.
 */
module Selection {
  import opened Wrappers
  import opened ComplexNum
  import opened Grid
  import MatrixInput

  /** The exception raised by reading or writing through `undefined`. */
  const TYPE_ERROR: string := "TypeError"

  /** Every position, less the offset g, is an index below n. */
  predicate InRange(ps: seq<int>, g: int, n: int) {
    forall k :: 0 <= k < |ps| ==> 0 <= ps[k] - g < n
  }

  /** The positions ":" denotes in a dimension of length n. */
  function Everything(n: nat, g: int): (ps: seq<int>)
    ensures |ps| == n && InRange(ps, g, n)
  {
    seq(n, i => i + g)
  }

  // ---------------------------------------------------------------------
  // getMatrix
  // ---------------------------------------------------------------------

  /**
   * The result of getMatrix once both position vectors are known: an empty
   * selection makes an empty array, which the constructor refuses, and an
   * index out of range reaches through `undefined`.
   */
  function Select(m: Grid, rows: seq<int>, cols: seq<int>, g: int): (r: Result<Grid>)
    requires IsRect(m)
    ensures r.Ok? <==> |rows| > 0 && |cols| > 0 && InRange(rows, g, |m|) && InRange(cols, g, Cols(m))
    ensures r.Ok? ==> IsRect(r.value) && Shape(r.value, |rows|, |cols|)
  {
    if |rows| == 0 || |cols| == 0 then Err(MatrixInput.ILLEGAL)
    else if !InRange(rows, g, |m|) || !InRange(cols, g, Cols(m)) then Err(TYPE_ERROR)
    else Ok(seq(|rows|, i requires 0 <= i < |rows| => seq(|cols|, j requires 0 <= j < |cols| => m[rows[i] - g][cols[j] - g])))
  }

  /** Selecting with in-range positions reads each selected cell. */
  lemma SelectCells(m: Grid, rows: seq<int>, cols: seq<int>, g: int)
    requires IsRect(m) && Select(m, rows, cols, g).Ok?
    ensures forall i, j :: 0 <= i < |rows| && 0 <= j < |cols| ==>
      Select(m, rows, cols, g).value[i][j] == m[rows[i] - g][cols[j] - g]
  {
  }

  /** getMatrix(":", ":") is a copy of the matrix. */
  lemma SelectEverything(m: Grid, g: int)
    requires IsRect(m)
    ensures Select(m, Everything(|m|, g), Everything(Cols(m), g), g) == Ok(m)
  {
    var rows, cols := Everything(|m|, g), Everything(Cols(m), g);
    SelectCells(m, rows, cols, g);
    var s := Select(m, rows, cols, g).value;
    forall i, j | 0 <= i < |m| && 0 <= j < Cols(m)
      ensures s[i][j] == m[i][j]
    {
      assert rows[i] == i + g && cols[j] == j + g;
    }
    GridEq(s, m, |m|, Cols(m));
  }

  /** Selecting from a selection is one selection with the positions composed. */
  lemma SelectCompose(m: Grid, rows: seq<int>, cols: seq<int>, rows2: seq<int>, cols2: seq<int>, g: int)
    requires IsRect(m) && Select(m, rows, cols, g).Ok?
    requires InRange(rows2, g, |rows|) && InRange(cols2, g, |cols|) && |rows2| > 0 && |cols2| > 0
    ensures Select(Select(m, rows, cols, g).value, rows2, cols2, g)
         == Select(m, seq(|rows2|, i requires 0 <= i < |rows2| => rows[rows2[i] - g]),
                      seq(|cols2|, j requires 0 <= j < |cols2| => cols[cols2[j] - g]), g)
  {
    var s := Select(m, rows, cols, g).value;
    var r2 := seq(|rows2|, i requires 0 <= i < |rows2| => rows[rows2[i] - g]);
    var c2 := seq(|cols2|, j requires 0 <= j < |cols2| => cols[cols2[j] - g]);
    assert InRange(r2, g, |m|) && InRange(c2, g, Cols(m));
    var a := Select(s, rows2, cols2, g);
    var b := Select(m, r2, c2, g);
    assert a.Ok? && b.Ok?;
    forall i | 0 <= i < |rows2|
      ensures a.value[i] == b.value[i]
    {
      forall j | 0 <= j < |cols2|
        ensures a.value[i][j] == b.value[i][j]
      {
        assert a.value[i][j] == s[rows2[i] - g][cols2[j] - g];
      }
    }
    assert a.value == b.value;
  }

  // ---------------------------------------------------------------------
  // setMatrix
  // ---------------------------------------------------------------------

  /** A row of a JavaScript array while setMatrix writes into it: None is a hole. */
  type SparseRow = seq<Option<Complex>>

  /**
   * `row[c] = v` on a JavaScript array: a negative c is a property outside
   * the indices; a c past the end lengthens the row to c + 1 with holes.
   */
  function Put(row: SparseRow, c: int, v: Complex): (r: SparseRow)
    ensures c < 0 ==> r == row
    ensures 0 <= c ==> |r| == (if c < |row| then |row| else c + 1) && r[c] == Some(v)
    ensures 0 <= c ==> forall k :: 0 <= k < |r| && k != c ==> r[k] == if k < |row| then row[k] else None
  {
    if c < 0 then row
    else if c < |row| then row[c := Some(v)]
    else row + seq(c - |row|, _ => None) + [Some(v)]
  }

  /** The greatest k < n with ps[k] - g == target, or -1 when there is none. */
  function LastAt(ps: seq<int>, g: int, target: int, n: nat): (k: int)
    requires n <= |ps|
    ensures -1 <= k < n
    ensures k >= 0 ==> ps[k] - g == target
    ensures forall k' :: k < k' < n ==> ps[k'] - g != target
  {
    if n == 0 then -1
    else if ps[n - 1] - g == target then n - 1
    else LastAt(ps, g, target, n - 1)
  }

  /** One past the greatest column index that cols[..n] writes (0 when none is written). */
  function Reach(cols: seq<int>, g: int, n: nat): (w: nat)
    requires n <= |cols|
    ensures forall k :: 0 <= k < n && 0 <= cols[k] - g ==> cols[k] - g < w
    ensures w > 0 ==> LastAt(cols, g, w - 1, n) >= 0
  {
    if n == 0 then 0
    else
      var w := Reach(cols, g, n - 1);
      if cols[n - 1] - g + 1 > w then cols[n - 1] - g + 1 else w
  }

  /** The writes before pair (i, j) of positions: rows[..i] in full, then cols[..j] of row position i. */
  predicate Progress(rows: seq<int>, cols: seq<int>, i: nat, j: nat) {
    i <= |rows| && j <= |cols| && (i == |rows| ==> j == 0)
  }

  /** The pair of positions whose write last reached cell (r, k), among the writes before (i, j). */
  function LastWrite(rows: seq<int>, cols: seq<int>, g: int, i: nat, j: nat, r: int, k: int): (w: Option<(nat, nat)>)
    requires Progress(rows, cols, i, j)
    ensures w.Some? ==> w.value.0 < |rows| && w.value.1 < |cols|
  {
    var jj := if i < |rows| && rows[i] - g == r then LastAt(cols, g, k, j) else -1;
    if jj >= 0 then Some((i, jj))
    else
      var ii := LastAt(rows, g, r, i);
      var kk := LastAt(cols, g, k, |cols|);
      if ii >= 0 && kk >= 0 then Some((ii, kk)) else None
  }

  /** One past the greatest column index written to row r before (i, j). */
  function RowReach(rows: seq<int>, cols: seq<int>, g: int, i: nat, j: nat, r: int): nat
    requires Progress(rows, cols, i, j)
  {
    var full := if LastAt(rows, g, r, i) >= 0 then Reach(cols, g, |cols|) else 0;
    var part := if i < |rows| && rows[i] - g == r then Reach(cols, g, j) else 0;
    if full < part then part else full
  }

  /** The replacement's cell for pair (i, j): the replacement repeats in both directions. */
  function Tile(x: Grid, i: int, j: int): Complex
    requires IsRect(x) && i >= 0 && j >= 0
  {
    x[i % |x|][j % Cols(x)]
  }

  /** Row r of the copy after the writes before (i, j). */
  function WrittenRow(m: Grid, x: Grid, rows: seq<int>, cols: seq<int>, g: int, i: nat, j: nat, r: nat): (row: SparseRow)
    requires IsRect(m) && IsRect(x) && Progress(rows, cols, i, j) && r < |m|
  {
    var reach := RowReach(rows, cols, g, i, j, r);
    var len := if reach < Cols(m) then Cols(m) else reach;
    seq(len, k requires 0 <= k < len =>
      match LastWrite(rows, cols, g, i, j, r, k)
      case Some(w) => Some(Tile(x, w.0, w.1))
      case None => if k < Cols(m) then Some(m[r][k]) else None)
  }

  /** The copy after the writes before (i, j). */
  function Written(m: Grid, x: Grid, rows: seq<int>, cols: seq<int>, g: int, i: nat, j: nat): (y: seq<SparseRow>)
    requires IsRect(m) && IsRect(x) && Progress(rows, cols, i, j)
    ensures |y| == |m|
  {
    seq(|m|, r requires 0 <= r < |m| => WrittenRow(m, x, rows, cols, g, i, j, r))
  }

  /** The array with every cell a value. */
  function Lift(m: Grid): (y: seq<SparseRow>)
    ensures |y| == |m| && forall r :: 0 <= r < |m| ==> |y[r]| == |m[r]|
  {
    seq(|m|, r requires 0 <= r < |m| => seq(|m[r]|, k requires 0 <= k < |m[r]| => Some(m[r][k])))
  }

  predicate HasHole(y: seq<SparseRow>) {
    exists r, k :: 0 <= r < |y| && 0 <= k < |y[r]| && y[r][k].None?
  }

  /** The array with its holes filled by ZERO; only read where there are none. */
  function Strip(y: seq<SparseRow>): (m: Grid)
    ensures |m| == |y| && forall r :: 0 <= r < |y| ==> |m[r]| == |y[r]|
  {
    seq(|y|, r requires 0 <= r < |y| => seq(|y[r]|, k requires 0 <= k < |y[r]| => if y[r][k].Some? then y[r][k].value else ZERO))
  }

  /**
   * `new Matrix(y)` on the written copy: a hole is read as `undefined` and
   * fails first; then the array must be rectangular.
   */
  function Settle(y: seq<SparseRow>): (r: Result<Grid>)
    ensures r.Ok? <==> !HasHole(y) && IsRect(Strip(y))
    ensures r.Ok? ==> |r.value| == |y| && forall i :: 0 <= i < |y| ==> |r.value[i]| == |y[i]|
    ensures r.Ok? ==> forall i, k :: 0 <= i < |y| && 0 <= k < |y[i]| ==> y[i][k] == Some(r.value[i][k])
  {
    if HasHole(y) then Err(TYPE_ERROR)
    else if !IsRect(Strip(y)) then Err(MatrixInput.ILLEGAL)
    else Ok(Strip(y))
  }

  /** setMatrix once both position vectors are known and x is the replacement's array. */
  function Assign(m: Grid, x: Grid, rows: seq<int>, cols: seq<int>, g: int): (r: Result<Grid>)
    requires IsRect(m) && IsRect(x)
  {
    if |cols| > 0 && !InRange(rows, g, |m|) then Err(TYPE_ERROR)
    else Settle(Written(m, x, rows, cols, g, |rows|, 0))
  }

  /** What setMatrix builds is always a correct matrix array. */
  lemma AssignRect(m: Grid, x: Grid, rows: seq<int>, cols: seq<int>, g: int)
    requires IsRect(m) && IsRect(x)
    ensures Assign(m, x, rows, cols, g).Ok? ==> IsRect(Assign(m, x, rows, cols, g).value)
  {
  }

  // ---------------------------------------------------------------------
  // The steps of the setMatrix loop over Written
  // ---------------------------------------------------------------------

  lemma WrittenStart(m: Grid, x: Grid, rows: seq<int>, cols: seq<int>, g: int)
    requires IsRect(m) && IsRect(x)
    ensures Written(m, x, rows, cols, g, 0, 0) == Lift(m)
  {
    var y := Written(m, x, rows, cols, g, 0, 0);
    forall r | 0 <= r < |m|
      ensures y[r] == Lift(m)[r]
    {
    }
  }

  /** Finishing the columns of row position i is starting row position i + 1. */
  lemma WrittenNextRow(m: Grid, x: Grid, rows: seq<int>, cols: seq<int>, g: int, i: nat)
    requires IsRect(m) && IsRect(x) && i < |rows|
    ensures Written(m, x, rows, cols, g, i, |cols|) == Written(m, x, rows, cols, g, i + 1, 0)
  {
    var a := Written(m, x, rows, cols, g, i, |cols|);
    var b := Written(m, x, rows, cols, g, i + 1, 0);
    forall r | 0 <= r < |m|
      ensures a[r] == b[r]
    {
      assert RowReach(rows, cols, g, i, |cols|, r) == RowReach(rows, cols, g, i + 1, 0, r);
      forall k | 0 <= k < |a[r]|
        ensures LastWrite(rows, cols, g, i, |cols|, r, k) == LastWrite(rows, cols, g, i + 1, 0, r, k)
      {
      }
    }
  }

  /** Writing pair (i, j) leaves every row but rows[i] - g as it was. */
  lemma WrittenStepOther(m: Grid, x: Grid, rows: seq<int>, cols: seq<int>, g: int, i: nat, j: nat, r: nat)
    requires IsRect(m) && IsRect(x) && i < |rows| && j < |cols| && r < |m| && r != rows[i] - g
    ensures WrittenRow(m, x, rows, cols, g, i, j + 1, r) == WrittenRow(m, x, rows, cols, g, i, j, r)
  {
  }

  /** Writing pair (i, j) is one Put into row rows[i] - g. */
  lemma WrittenStepHere(m: Grid, x: Grid, rows: seq<int>, cols: seq<int>, g: int, i: nat, j: nat)
    requires IsRect(m) && IsRect(x) && i < |rows| && j < |cols| && 0 <= rows[i] - g < |m|
    ensures WrittenRow(m, x, rows, cols, g, i, j + 1, rows[i] - g)
         == Put(WrittenRow(m, x, rows, cols, g, i, j, rows[i] - g), cols[j] - g, Tile(x, i, j))
  {
    if cols[j] - g < 0 {
      WrittenStepIgnored(m, x, rows, cols, g, i, j);
    } else {
      WrittenStepStored(m, x, rows, cols, g, i, j);
    }
  }

  /** A negative column index writes nothing the copy reads. */
  lemma WrittenStepIgnored(m: Grid, x: Grid, rows: seq<int>, cols: seq<int>, g: int, i: nat, j: nat)
    requires IsRect(m) && IsRect(x) && i < |rows| && j < |cols| && 0 <= rows[i] - g < |m| && cols[j] - g < 0
    ensures WrittenRow(m, x, rows, cols, g, i, j + 1, rows[i] - g) == WrittenRow(m, x, rows, cols, g, i, j, rows[i] - g)
  {
    var r := rows[i] - g;
    RowReachStep(rows, cols, g, i, j);
    var after := WrittenRow(m, x, rows, cols, g, i, j + 1, r);
    forall k | 0 <= k < |after|
      ensures LastWrite(rows, cols, g, i, j + 1, r, k) == LastWrite(rows, cols, g, i, j, r, k)
    {
      LastWriteStep(rows, cols, g, i, j, k);
    }
  }

  lemma WrittenStepStored(m: Grid, x: Grid, rows: seq<int>, cols: seq<int>, g: int, i: nat, j: nat)
    requires IsRect(m) && IsRect(x) && i < |rows| && j < |cols| && 0 <= rows[i] - g < |m| && 0 <= cols[j] - g
    ensures WrittenRow(m, x, rows, cols, g, i, j + 1, rows[i] - g)
         == Put(WrittenRow(m, x, rows, cols, g, i, j, rows[i] - g), cols[j] - g, Tile(x, i, j))
  {
    var r := rows[i] - g;
    var c := cols[j] - g;
    var before := WrittenRow(m, x, rows, cols, g, i, j, r);
    var after := WrittenRow(m, x, rows, cols, g, i, j + 1, r);
    var put := Put(before, c, Tile(x, i, j));
    RowReachStep(rows, cols, g, i, j);
    assert |after| == |put|;
    forall k | 0 <= k < |after|
      ensures after[k] == put[k]
    {
      LastWriteStep(rows, cols, g, i, j, k);
      if k != c && k >= |before| {
        LastWriteReached(rows, cols, g, i, j, r, k);
      }
    }
  }

  /** Writing pair (i, j) makes it the last write to its own cell and to no other. */
  lemma LastWriteStep(rows: seq<int>, cols: seq<int>, g: int, i: nat, j: nat, k: int)
    requires i < |rows| && j < |cols| && 0 <= k
    ensures LastWrite(rows, cols, g, i, j + 1, rows[i] - g, k)
         == if k == cols[j] - g then Some((i, j)) else LastWrite(rows, cols, g, i, j, rows[i] - g, k)
  {
  }

  /** Writing pair (i, j) reaches at least one past its own column. */
  lemma RowReachStep(rows: seq<int>, cols: seq<int>, g: int, i: nat, j: nat)
    requires i < |rows| && j < |cols|
    ensures var before := RowReach(rows, cols, g, i, j, rows[i] - g);
      RowReach(rows, cols, g, i, j + 1, rows[i] - g) == if cols[j] - g + 1 > before then cols[j] - g + 1 else before
  {
  }

  /** A column that has been written lies below the row's reach. */
  lemma LastWriteReached(rows: seq<int>, cols: seq<int>, g: int, i: nat, j: nat, r: int, k: int)
    requires Progress(rows, cols, i, j) && 0 <= k
    ensures LastWrite(rows, cols, g, i, j, r, k).Some? ==> k < RowReach(rows, cols, g, i, j, r)
  {
  }

  /** The whole step of the setMatrix loop on the written copy. */
  lemma WrittenStep(m: Grid, x: Grid, rows: seq<int>, cols: seq<int>, g: int, i: nat, j: nat)
    requires IsRect(m) && IsRect(x) && i < |rows| && j < |cols| && 0 <= rows[i] - g < |m|
    ensures var y := Written(m, x, rows, cols, g, i, j);
      Written(m, x, rows, cols, g, i, j + 1)
        == y[rows[i] - g := Put(y[rows[i] - g], cols[j] - g, Tile(x, i, j))]
  {
    var y := Written(m, x, rows, cols, g, i, j);
    var z := Written(m, x, rows, cols, g, i, j + 1);
    var rr := rows[i] - g;
    WrittenStepHere(m, x, rows, cols, g, i, j);
    forall r | 0 <= r < |m| && r != rr
      ensures z[r] == y[r]
    {
      WrittenStepOther(m, x, rows, cols, g, i, j, r);
    }
  }

  // ---------------------------------------------------------------------
  // The loops of getMatrix and setMatrix
  // ---------------------------------------------------------------------

  /** getMatrix's nested loop and the constructor's check on what it built. */
  method GetCells(x: Grid, rs: seq<int>, cs: seq<int>, geta: int) returns (res: Result<Grid>)
    requires IsRect(x)
    ensures res == Select(x, rs, cs, geta)
  {
    var y: Grid := [];
    var i := 0;
    while i < |rs|
      invariant 0 <= i <= |rs| && |y| == i
      invariant |cs| > 0 ==> forall a :: 0 <= a < i ==> 0 <= rs[a] - geta < |x|
      invariant i > 0 ==> InRange(cs, geta, Cols(x))
      invariant forall a :: 0 <= a < i ==> |y[a]| == |cs|
      invariant forall a, b :: 0 <= a < i && 0 <= b < |cs| ==> y[a][b] == x[rs[a] - geta][cs[b] - geta]
    {
      var y_row: seq<Complex> := [];
      var j := 0;
      while j < |cs|
        invariant 0 <= j <= |cs| && |y_row| == j
        invariant j > 0 ==> 0 <= rs[i] - geta < |x|
        invariant forall b :: 0 <= b < j ==> 0 <= cs[b] - geta < Cols(x) && y_row[b] == x[rs[i] - geta][cs[b] - geta]
      {
        // a missing row or cell is read as `undefined`, which fails with a TypeError
        if !(0 <= rs[i] - geta < |x|) || !(0 <= cs[j] - geta < Cols(x)) {
          return Err(TYPE_ERROR);
        }
        y_row := y_row + [x[rs[i] - geta][cs[j] - geta]];
        j := j + 1;
      }
      y := y + [y_row];
      i := i + 1;
    }
    if |y| == 0 || |y[0]| == 0 {
      return Err(MatrixInput.ILLEGAL);
    }
    ghost var s := Select(x, rs, cs, geta);
    assert s.Ok?;
    SelectCells(x, rs, cs, geta);
    forall a | 0 <= a < |y|
      ensures y[a] == s.value[a]
    {
    }
    assert y == s.value;
    return Ok(y);
  }

  /** setMatrix's nested loop of writes into the copy, then the constructor on the result. */
  method SetCells(m: Grid, x: Grid, rs: seq<int>, cs: seq<int>, geta: int) returns (res: Result<Grid>)
    requires IsRect(m) && IsRect(x)
    ensures res == Assign(m, x, rs, cs, geta)
  {
    var y := Lift(m);
    WrittenStart(m, x, rs, cs, geta);
    var i := 0;
    while i < |rs|
      invariant 0 <= i <= |rs|
      invariant |cs| > 0 ==> forall a :: 0 <= a < i ==> 0 <= rs[a] - geta < |m|
      invariant y == Written(m, x, rs, cs, geta, i, 0)
    {
      var ok;
      y, ok := WriteRow(m, x, rs, cs, geta, i, y);
      if !ok {
        return Err(TYPE_ERROR);
      }
      i := i + 1;
    }
    return Settle(y);
  }

  /**
   * The inner loop of setMatrix for row position i: each column position
   * writes one tile cell into row rs[i] - geta; a missing row fails.
   */
  method WriteRow(m: Grid, x: Grid, rs: seq<int>, cs: seq<int>, geta: int, i: nat, y: seq<SparseRow>)
    returns (y': seq<SparseRow>, ok: bool)
    requires IsRect(m) && IsRect(x) && i < |rs| && y == Written(m, x, rs, cs, geta, i, 0)
    ensures ok <==> |cs| == 0 || 0 <= rs[i] - geta < |m|
    ensures ok ==> y' == Written(m, x, rs, cs, geta, i + 1, 0)
  {
    y' := y;
    var j := 0;
    while j < |cs|
      invariant 0 <= j <= |cs|
      invariant j > 0 ==> 0 <= rs[i] - geta < |m|
      invariant y' == Written(m, x, rs, cs, geta, i, j)
    {
      var r := rs[i] - geta;
      // a missing row of the copy is `undefined`, and writing into it fails
      if !(0 <= r < |y'|) {
        return y', false;
      }
      WrittenStep(m, x, rs, cs, geta, i, j);
      y' := y'[r := Put(y'[r], cs[j] - geta, Tile(x, i, j))];
      j := j + 1;
    }
    WrittenNextRow(m, x, rs, cs, geta, i);
    ok := true;
  }

  // ---------------------------------------------------------------------
  // What setMatrix promises
  // ---------------------------------------------------------------------

  /** Distinct positions: no cell is written twice. */
  predicate Distinct(ps: seq<int>) {
    forall a, b :: 0 <= a < b < |ps| ==> ps[a] != ps[b]
  }

  /**
   * With every position in range, setMatrix succeeds, keeps the shape and
   * every cell outside the selection, and each selected cell holds the
   * replacement's tile at the last pair of positions naming it.
   */
  lemma AssignInRange(m: Grid, x: Grid, rows: seq<int>, cols: seq<int>, g: int)
    requires IsRect(m) && IsRect(x) && InRange(rows, g, |m|) && InRange(cols, g, Cols(m))
    ensures Assign(m, x, rows, cols, g).Ok?
    ensures Shape(Assign(m, x, rows, cols, g).value, |m|, Cols(m))
    ensures forall r, k :: 0 <= r < |m| && 0 <= k < Cols(m) ==>
      Assign(m, x, rows, cols, g).value[r][k] ==
        (var a := LastAt(rows, g, r, |rows|); var b := LastAt(cols, g, k, |cols|);
         if a >= 0 && b >= 0 then Tile(x, a, b) else m[r][k])
  {
    var y := Written(m, x, rows, cols, g, |rows|, 0);
    forall r | 0 <= r < |m|
      ensures |y[r]| == Cols(m)
    {
      ReachInRange(cols, g, Cols(m), |cols|);
    }
    assert !HasHole(y);
    assert IsRect(Strip(y));
  }

  lemma {:induction false} ReachInRange(cols: seq<int>, g: int, c: nat, n: nat)
    requires n <= |cols| && InRange(cols, g, c)
    ensures Reach(cols, g, n) <= c
  {
    if n > 0 {
      ReachInRange(cols, g, c, n - 1);
    }
  }

  /** The last pair of positions naming a cell is the only one when the positions are distinct. */
  lemma LastAtDistinct(ps: seq<int>, g: int, i: nat)
    requires Distinct(ps) && i < |ps|
    ensures LastAt(ps, g, ps[i] - g, |ps|) == i
  {
  }

  /**
   * getMatrix after setMatrix at the same distinct, in-range positions
   * reads back the replacement, tiled to the selection.
   */
  lemma SetThenGet(m: Grid, x: Grid, rows: seq<int>, cols: seq<int>, g: int)
    requires IsRect(m) && IsRect(x) && InRange(rows, g, |m|) && InRange(cols, g, Cols(m))
    requires |rows| > 0 && |cols| > 0 && Distinct(rows) && Distinct(cols)
    ensures Assign(m, x, rows, cols, g).Ok?
    ensures IsRect(Assign(m, x, rows, cols, g).value)
    ensures var s := Select(Assign(m, x, rows, cols, g).value, rows, cols, g);
      s.Ok? && forall i, j :: 0 <= i < |rows| && 0 <= j < |cols| ==> s.value[i][j] == Tile(x, i, j)
  {
    AssignInRange(m, x, rows, cols, g);
    var y := Assign(m, x, rows, cols, g).value;
    forall i, j | 0 <= i < |rows| && 0 <= j < |cols|
      ensures y[rows[i] - g][cols[j] - g] == Tile(x, i, j)
    {
      SetThenGetCell(m, x, rows, cols, g, i, j);
    }
    SelectTiles(y, x, rows, cols, g);
  }

  /** Selecting cells that hold the replacement's tiles reads the tiles back. */
  lemma SelectTiles(y: Grid, x: Grid, rows: seq<int>, cols: seq<int>, g: int)
    requires IsRect(y) && IsRect(x) && InRange(rows, g, |y|) && InRange(cols, g, Cols(y)) && |rows| > 0 && |cols| > 0
    requires forall i, j :: 0 <= i < |rows| && 0 <= j < |cols| ==> y[rows[i] - g][cols[j] - g] == Tile(x, i, j)
    ensures Select(y, rows, cols, g).Ok?
    ensures forall i, j :: 0 <= i < |rows| && 0 <= j < |cols| ==> Select(y, rows, cols, g).value[i][j] == Tile(x, i, j)
  {
    SelectCells(y, rows, cols, g);
  }

  /** The cell a distinct, in-range pair of positions names holds the replacement's tile there. */
  lemma SetThenGetCell(m: Grid, x: Grid, rows: seq<int>, cols: seq<int>, g: int, i: nat, j: nat)
    requires IsRect(m) && IsRect(x) && InRange(rows, g, |m|) && InRange(cols, g, Cols(m))
    requires Distinct(rows) && Distinct(cols) && i < |rows| && j < |cols|
    ensures Assign(m, x, rows, cols, g).Ok?
    ensures Shape(Assign(m, x, rows, cols, g).value, |m|, Cols(m))
    ensures Assign(m, x, rows, cols, g).value[rows[i] - g][cols[j] - g] == Tile(x, i, j)
  {
    AssignInRange(m, x, rows, cols, g);
    LastAtDistinct(rows, g, i);
    LastAtDistinct(cols, g, j);
  }

  /** A column index below the offset names no cell: with only such columns setMatrix changes nothing. */
  lemma AssignNegativeColumns(m: Grid, x: Grid, rows: seq<int>, cols: seq<int>, g: int)
    requires IsRect(m) && IsRect(x) && InRange(rows, g, |m|)
    requires forall k :: 0 <= k < |cols| ==> cols[k] - g < 0
    ensures Assign(m, x, rows, cols, g) == Ok(m)
  {
    var y := Written(m, x, rows, cols, g, |rows|, 0);
    assert Reach(cols, g, |cols|) == 0;
    forall r | 0 <= r < |m|
      ensures y[r] == Lift(m)[r]
    {
      forall k | 0 <= k < |y[r]|
        ensures LastWrite(rows, cols, g, |rows|, 0, r, k).None?
      {
      }
    }
    assert y == Lift(m);
    assert !HasHole(y);
    forall r | 0 <= r < |m|
      ensures Strip(y)[r] == m[r]
    {
    }
    assert Strip(y) == m;
  }

  /** Writing, on every row, the column just past the end appends a column: the JavaScript rows simply grow. */
  lemma AssignAppendsColumn(m: Grid, x: Grid, g: int)
    requires IsRect(m) && IsRect(x)
    ensures var y := Assign(m, x, Everything(|m|, g), [Cols(m) + g], g);
      y.Ok? && Shape(y.value, |m|, Cols(m) + 1)
      && (forall r, k :: 0 <= r < |m| && 0 <= k < Cols(m) ==> y.value[r][k] == m[r][k])
      && (forall r :: 0 <= r < |m| ==> y.value[r][Cols(m)] == x[r % |x|][0])
  {
    AppendedRows(m, x, g);
    SettleFull(Written(m, x, Everything(|m|, g), [Cols(m) + g], g, |m|, 0), Cols(m) + 1);
  }

  /** Every row of the copy once the column past the end has been written on every row. */
  lemma AppendedRows(m: Grid, x: Grid, g: int)
    requires IsRect(m) && IsRect(x)
    ensures var y := Written(m, x, Everything(|m|, g), [Cols(m) + g], g, |m|, 0);
      forall r :: 0 <= r < |m| ==>
        |y[r]| == Cols(m) + 1
        && (forall k :: 0 <= k < Cols(m) ==> y[r][k] == Some(m[r][k]))
        && y[r][Cols(m)] == Some(x[r % |x|][0])
  {
    forall r | 0 <= r < |m|
      ensures var y := Written(m, x, Everything(|m|, g), [Cols(m) + g], g, |m|, 0);
        |y[r]| == Cols(m) + 1
        && (forall k :: 0 <= k < Cols(m) ==> y[r][k] == Some(m[r][k]))
        && y[r][Cols(m)] == Some(x[r % |x|][0])
    {
      AppendedRow(m, x, g, r);
    }
  }

  /** Row r of the copy once the column past the end has been written on every row. */
  lemma AppendedRow(m: Grid, x: Grid, g: int, r: nat)
    requires IsRect(m) && IsRect(x) && r < |m|
    ensures var row := Written(m, x, Everything(|m|, g), [Cols(m) + g], g, |m|, 0)[r];
      |row| == Cols(m) + 1
      && (forall k :: 0 <= k < Cols(m) ==> row[k] == Some(m[r][k]))
      && row[Cols(m)] == Some(x[r % |x|][0])
  {
    var rows, cols := Everything(|m|, g), [Cols(m) + g];
    assert Reach(cols, g, 1) == Cols(m) + 1;
    LastAtDistinct(rows, g, r);
    assert LastAt(rows, g, r, |rows|) == r;
    assert LastWrite(rows, cols, g, |rows|, 0, r, Cols(m)) == Some((r, 0));
  }

  /** A copy whose rows are all c > 0 cells long and hold no hole settles into a c-column matrix of its values. */
  lemma SettleFull(y: seq<SparseRow>, c: nat)
    requires |y| > 0 && c > 0
    requires forall r :: 0 <= r < |y| ==> |y[r]| == c && forall k :: 0 <= k < c ==> y[r][k].Some?
    ensures Settle(y).Ok? && Shape(Settle(y).value, |y|, c)
    ensures forall r, k :: 0 <= r < |y| && 0 <= k < c ==> y[r][k] == Some(Settle(y).value[r][k])
  {
    assert !HasHole(y);
    assert IsRect(Strip(y));
  }

  /** Writing two columns past the end leaves a hole, which the constructor reads as `undefined`. */
  lemma AssignLeavesHole(m: Grid, x: Grid, rows: seq<int>, g: int)
    requires IsRect(m) && IsRect(x) && InRange(rows, g, |m|) && |rows| > 0
    ensures Assign(m, x, rows, [Cols(m) + 1 + g], g) == Err(TYPE_ERROR)
  {
    var cols := [Cols(m) + 1 + g];
    var y: seq<SparseRow> := Written(m, x, rows, cols, g, |rows|, 0);
    var r := rows[0] - g;
    assert LastAt(rows, g, r, |rows|) >= 0;
    assert Reach(cols, g, 1) == Cols(m) + 2;
    assert |y[r]| == Cols(m) + 2;
    assert LastWrite(rows, cols, g, |rows|, 0, r, Cols(m)).None?;
    assert y[r][Cols(m)].None?;
  }
}
