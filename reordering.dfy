/**
 * The operations that move whole cells of a matrix around without changing
 * them: reshape (a new shape over the same row-major order of cells) and
 * indexsort (rows, or columns, reordered by an index vector).
 */
module Reordering {
  import opened Wrappers
  import opened ComplexNum
  import opened Grid
  import Text
  import opened Sorting

  // ---------------------------------------------------------------------
  // reshape
  // ---------------------------------------------------------------------

  /** The message reshape throws when the number of cells would change. */
  function ReshapeError(this_size: int, new_size: int): string {
    "reshape error. (this_size !== new_size)->(" + Text.IntText(this_size) + " !== " + Text.IntText(new_size) + ")"
  }

  /** What `new Array(n)` throws for a negative length. */
  const INVALID_ARRAY_LENGTH: string := "Invalid array length"

  /** A positive product of a non-negative and another integer has two positive factors. */
  lemma PositiveFactors(r: int, c: int)
    requires r * c > 0 && r >= 0
    ensures r > 0 && c > 0
  {
    assert r != 0;
    assert c > 0 by {
      assert r * c == r * c;
    }
  }

  /**
   * reshape(r, c) on the array m: the same number of cells or an error; two
   * negative lengths pass the size test and fail when the array is made;
   * otherwise the r×c grid filled in m's row-major order.
   */
  function Reshaped(m: Grid, r: int, c: int): (res: Result<Grid>)
    requires IsRect(m)
    ensures res.Ok? <==> r * c == |m| * Cols(m) && r > 0
    ensures r * c != |m| * Cols(m) ==> res == Err(ReshapeError(|m| * Cols(m), r * c))
    ensures r * c == |m| * Cols(m) && r <= 0 ==> res == Err(INVALID_ARRAY_LENGTH)
    ensures res.Ok? ==> c > 0 && Shape(res.value, r, c)
  {
    var size := |m| * Cols(m);
    if r * c != size then Err(ReshapeError(size, r * c))
    else if r < 0 then Err(INVALID_ARRAY_LENGTH)
    else
      FlattenLength(m, Cols(m));
      assert size >= Cols(m);
      PositiveFactors(r, c);
      Ok(Unflatten(Flatten(m), r, c))
  }

  /** The reshaped matrix is a correct matrix with the same cells in the same row-major order. */
  lemma ReshapeKeepsOrder(m: Grid, r: int, c: int)
    requires IsRect(m) && Reshaped(m, r, c).Ok?
    ensures IsRect(Reshaped(m, r, c).value) && Flatten(Reshaped(m, r, c).value) == Flatten(m)
  {
    FlattenLength(m, Cols(m));
    FlattenUnflatten(Flatten(m), r, c);
    ShapeRect(Reshaped(m, r, c).value, r, c);
  }

  /** Reshaping to the matrix's own shape gives it back. */
  lemma ReshapeIdentity(m: Grid)
    requires IsRect(m)
    ensures Reshaped(m, |m|, Cols(m)) == Ok(m)
  {
    UnflattenFlatten(m);
    assert |m| * Cols(m) >= Cols(m);
  }

  /** Two reshapes in a row are the second one alone. */
  lemma ReshapeTwice(m: Grid, r: int, c: int, r2: int, c2: int)
    requires IsRect(m) && Reshaped(m, r, c).Ok?
    ensures Reshaped(Reshaped(m, r, c).value, r2, c2) == Reshaped(m, r2, c2)
  {
    var t := Reshaped(m, r, c).value;
    ReshapeKeepsOrder(m, r, c);
    assert |t| * Cols(t) == |m| * Cols(m);
  }

  /** Reshaping back to the old shape restores the matrix. */
  lemma ReshapeRoundTrip(m: Grid, r: int, c: int)
    requires IsRect(m) && Reshaped(m, r, c).Ok?
    ensures Reshaped(Reshaped(m, r, c).value, |m|, Cols(m)) == Ok(m)
  {
    ReshapeTwice(m, r, c, |m|, Cols(m));
    ReshapeIdentity(m);
  }

  /** Cell p of the row-major order of m is m[p / C][p % C]. */
  lemma FlattenIndex(m: Grid, p: int)
    requires IsRect(m) && 0 <= p < |m| * Cols(m)
    ensures 0 <= p / Cols(m) < |m| && p < |Flatten(m)| && Flatten(m)[p] == m[p / Cols(m)][p % Cols(m)]
  {
    var C := Cols(m);
    var i, j := p / C, p % C;
    assert p == i * C + j;
    MulLess(i, |m|, C);
    FlattenAt(m, C, i, j);
  }

  /** reshape's copy loop: cell (i, j) of the result is cell i·c + j of m in row-major order. */
  lemma ReshapeCell(m: Grid, r: int, c: int, i: int, j: int)
    requires IsRect(m) && Reshaped(m, r, c).Ok? && 0 <= i < r && 0 <= j < c
    ensures 0 <= i * c + j < |m| * Cols(m)
    ensures 0 <= (i * c + j) / Cols(m) < |m|
    ensures Reshaped(m, r, c).value[i][j] == m[(i * c + j) / Cols(m)][(i * c + j) % Cols(m)]
  {
    var t := Reshaped(m, r, c).value;
    var p := i * c + j;
    MulBelow(i, j, c, r);
    FlattenLength(m, Cols(m));
    assert t == Unflatten(Flatten(m), r, c);
    assert t[i][j] == Flatten(m)[p];
    FlattenIndex(m, p);
  }

  /** The same cell, located by reshape's counters m_row and m_col instead of a division. */
  lemma ReshapeCounters(m: Grid, r: int, c: int, i: int, j: int, m_row: int, m_col: int)
    requires IsRect(m) && Reshaped(m, r, c).Ok? && 0 <= i < r && 0 <= j < c
    requires 0 <= m_row && 0 <= m_col < Cols(m) && m_row * Cols(m) + m_col == i * c + j
    ensures m_row < |m| && Reshaped(m, r, c).value[i][j] == m[m_row][m_col]
  {
    ReshapeCell(m, r, c, i, j);
    ModUnique(i * c + j, m_row, Cols(m), m_col);
  }

  // ---------------------------------------------------------------------
  // indexsort
  // ---------------------------------------------------------------------

  /** The message for an index that is neither a row nor a column; the source appends V's text. */
  const NOT_A_VECTOR: string := "argsort error. argsort is not vector. ("

  /** The message for an index whose length is not the number of rows (or columns) sorted. */
  function SortSizeError(this_size: int, new_size: int): string {
    "argsort error. (this_size !== new_size)->(" + Text.IntText(this_size) + " !== " + Text.IntText(new_size) + ")"
  }

  /** sort_data: entry i pairs index_array[i] with target_array[i]. */
  function Entries(index: seq<Complex>, rows: Grid): (e: seq<Entry>)
    requires |rows| == |index|
    ensures |e| == |index| && forall i :: 0 <= i < |e| ==> e[i].index == index[i] && e[i].data == rows[i]
  {
    seq(|index|, i requires 0 <= i < |index| => Entry(index[i], rows[i]))
  }

  /** y: the data of every entry, in order. */
  function Data(e: seq<Entry>): (rows: Grid)
    ensures |rows| == |e| && forall i :: 0 <= i < |e| ==> rows[i] == e[i].data
  {
    seq(|e|, i requires 0 <= i < |e| => e[i].data)
  }

  /** Sorting entries that all carry c cells gives a rectangular grid again. */
  lemma SortedDataShape(e: seq<Entry>, c: nat)
    requires |e| > 0 && c > 0 && forall i :: 0 <= i < |e| ==> |e[i].data| == c
    ensures IsRect(Data(MergeSort(e, IndexCompare))) && Shape(Data(MergeSort(e, IndexCompare)), |e|, c)
  {
    var s := MergeSort(e, IndexCompare);
    MergeSortPermutation(e, IndexCompare);
    InMultiset(s, e);
    forall i | 0 <= i < |s|
      ensures |s[i].data| == c
    {
      assert s[i] in e;
    }
  }

  /** The rows of m reordered by the index values, the stable merge sort's order. */
  function SortRows(index: seq<Complex>, m: Grid): (y: Grid)
    requires IsRect(m) && |index| == |m|
    ensures IsRect(y) && Shape(y, |m|, Cols(m))
  {
    var e := Entries(index, m);
    SortedDataShape(e, Cols(m));
    Data(MergeSort(e, IndexCompare))
  }

  /**
   * indexsort(v) on the array m: v must be a row or a column; a row index
   * reorders the columns of m (it sorts the rows of m's transpose and
   * transposes back), a column index reorders the rows. A 1×1 index passes
   * both size tests and takes the column path, transposing its result.
   */
  function IndexSorted(m: Grid, v: Grid): (res: Result<Grid>)
    requires IsRect(m) && IsRect(v)
    ensures res.Err? <==> (|v| != 1 && Cols(v) != 1) || (|v| == 1 && Cols(m) != Cols(v)) || (Cols(v) == 1 && |m| != |v|)
    ensures |v| != 1 && Cols(v) != 1 ==> res == Err(NOT_A_VECTOR)
    ensures |v| == 1 && Cols(m) != Cols(v) ==> res == Err(SortSizeError(Cols(m), Cols(v)))
    ensures res.Ok? ==> IsRect(res.value) && Shape(res.value, |m|, Cols(m))
  {
    if |v| != 1 && Cols(v) != 1 then Err(NOT_A_VECTOR)
    else if |v| == 1 && Cols(m) != Cols(v) then Err(SortSizeError(Cols(m), Cols(v)))
    else if Cols(v) == 1 && |m| != |v| then Err(SortSizeError(|m|, |v|))
    else if Cols(v) == 1 then
      var y := SortRows(Column(v, 0), m);
      if |v| == 1 then Ok(Transpose(y)) else Ok(y)
    else
      Ok(Transpose(SortRows(v[0], Transpose(m))))
  }

  /** Index values that are pairwise equal or further apart than compareTo's tolerance. */
  predicate IndexApart(index: seq<Complex>) {
    forall i, j :: 0 <= i < |index| && 0 <= j < |index| ==> KeysApart(index[i], index[j])
  }

  /**
   * y is the rows of m put in the order of their index values: it is the
   * data of a reordering of the (index, row) pairs that loses and invents no
   * pair and, when the index values are apart, has non-decreasing keys and
   * keeps pairs with equal keys in their old order.
   */
  ghost predicate ReorderedBy(index: seq<Complex>, m: Grid, y: Grid)
    requires |index| == |m|
  {
    exists e: seq<Entry> ::
      Data(e) == y
      && multiset(e) == multiset(Entries(index, m))
      && (IndexApart(index) ==> Sorted(e) && forall k: real :: WithKey(e, k) == WithKey(Entries(index, m), k))
  }

  /** The sort's rows are the rows of m reordered by their index values. */
  lemma SortRowsReorders(index: seq<Complex>, m: Grid)
    requires IsRect(m) && |index| == |m|
    ensures ReorderedBy(index, m, SortRows(index, m))
    ensures multiset(SortRows(index, m)) == multiset(m)
  {
    var e := Entries(index, m);
    var s := MergeSort(e, IndexCompare);
    MergeSortPermutation(e, IndexCompare);
    if IndexApart(index) {
      forall x, y | x in e && y in e
        ensures KeysApart(x.index, y.index)
      {
        var i :| 0 <= i < |e| && e[i] == x;
        var j :| 0 <= j < |e| && e[j] == y;
        assert KeysApart(index[i], index[j]);
      }
      MergeSortSorted(e);
      forall k: real
        ensures WithKey(s, k) == WithKey(e, k)
      {
        MergeSortStable(e, k);
      }
    }
    assert Data(s) == SortRows(index, m);
    DataPermutation(s, e);
    assert Data(e) == m;
  }

  /** Data distributes over concatenation. */
  lemma DataConcat(a: seq<Entry>, b: seq<Entry>)
    ensures Data(a + b) == Data(a) + Data(b)
  {
    assert Data(a + b) == Data(a) + Data(b);
  }

  /** The data of a permutation of entries is a permutation of their data. */
  lemma {:induction false} DataPermutation(s: seq<Entry>, e: seq<Entry>)
    requires multiset(s) == multiset(e)
    ensures multiset(Data(s)) == multiset(Data(e))
    decreases |s|
  {
    if |s| > 0 {
      var x := s[0];
      assert x in multiset(e);
      var i :| 0 <= i < |e| && e[i] == x;
      var rest := e[..i] + e[i + 1..];
      assert e == e[..i] + [x] + e[i + 1..];
      assert s == [x] + s[1..];
      assert multiset(e) == multiset(e[..i]) + multiset{x} + multiset(e[i + 1..]);
      assert multiset(s) == multiset{x} + multiset(s[1..]);
      assert multiset(rest) == multiset(e[..i]) + multiset(e[i + 1..]);
      assert multiset(s[1..]) == multiset(s) - multiset{x};
      assert multiset(rest) == multiset(e) - multiset{x};
      DataPermutation(s[1..], rest);
      DataConcat([x], s[1..]);
      DataConcat(e[..i], [x]);
      DataConcat(e[..i] + [x], e[i + 1..]);
      DataConcat(e[..i], e[i + 1..]);
    }
  }

  /** indexsort by a column index: the rows of m, reordered by the index values. */
  lemma IndexSortByColumn(m: Grid, v: Grid)
    requires IsRect(m) && IsRect(v) && Cols(v) == 1 && |v| == |m| && |v| > 1
    ensures IndexSorted(m, v).Ok?
    ensures ReorderedBy(Column(v, 0), m, IndexSorted(m, v).value)
    ensures multiset(IndexSorted(m, v).value) == multiset(m)
  {
    SortRowsReorders(Column(v, 0), m);
  }

  /** indexsort by a row index: the columns of m, reordered by the index values. */
  lemma IndexSortByRow(m: Grid, v: Grid)
    requires IsRect(m) && IsRect(v) && |v| == 1 && Cols(v) == Cols(m) && Cols(v) > 1
    ensures IndexSorted(m, v).Ok?
    ensures ReorderedBy(v[0], Transpose(m), Transpose(IndexSorted(m, v).value))
    ensures multiset(Transpose(IndexSorted(m, v).value)) == multiset(Transpose(m))
  {
    var y := SortRows(v[0], Transpose(m));
    TransposeInvolution(y);
    SortRowsReorders(v[0], Transpose(m));
  }

  /** A 1×1 index sorts a 1×1 matrix, which comes back unchanged. */
  lemma IndexSortSingle(m: Grid, v: Grid)
    requires IsRect(m) && IsRect(v) && |v| == 1 && Cols(v) == 1 && |m| == 1 && Cols(m) == 1
    ensures IndexSorted(m, v) == Ok(m)
  {
    var e := Entries(Column(v, 0), m);
    assert MergeSort(e, IndexCompare) == e;
    var y := SortRows(Column(v, 0), m);
    assert y == m;
    GridEq(Transpose(y), m, 1, 1);
  }
}
