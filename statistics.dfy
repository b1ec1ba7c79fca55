/**
 * The vector statistics: each is a function from one row or column to a
 * one-element result, applied through eachVector. The loops of the source
 * are methods proved to compute the recursive definitions here.
 */
module Statistics {
  import opened Wrappers
  import opened JsNumber
  import opened ComplexNum
  import opened Grid
  import ComplexOrder
  import Sorting
  import Vectors
  import MatrixInput
  import Measures
  import Solve
  import Text

  const NON_FINITE: string := Solve.NON_FINITE

  /** `a.compareTo(b)` without a tolerance: EPSILON is used. */
  function Cmp(a: Complex, b: Complex): ComplexOrder.Order {
    ComplexOrder.Compare(a, b, 0.0)
  }

  /** A statistic applied along the dimension of the settings object. */
  function Along(m: Grid, f: Vectors.VectorFunction, dimension: Option<Vectors.Dimension>): (r: Result<Grid>)
    requires IsRect(m)
    ensures r.Ok? ==> IsRect(r.value)
  {
    Vectors.EachVector(m, f, Vectors.SettingsDimension(dimension), MatrixInput.ILLEGAL)
  }

  /** With one value per vector, the automatic direction gives the value of a single row or a row of column values. */
  lemma AlongAuto(m: Grid, f: Vectors.VectorFunction)
    requires IsRect(m)
    requires forall v: seq<Complex> :: |v| > 0 ==> |f(v)| == 1
    ensures |m| == 1 ==> Along(m, f, None) == Ok([f(m[0])])
    ensures |m| != 1 ==> Along(m, f, None) == Ok([seq(Cols(m), j requires 0 <= j < Cols(m) => f(Column(m, j))[0])])
  {
    assert Vectors.DirectionOf(Vectors.DimText("auto")) == Ok(Vectors.Auto) by {
      assert Text.LowerAscii("auto") == "auto";
    }
    if |m| != 1 {
      ColumnValues(m, f);
    }
  }

  lemma ColumnValues(m: Grid, f: Vectors.VectorFunction)
    requires IsRect(m)
    requires forall v: seq<Complex> :: |v| > 0 ==> |f(v)| == 1
    ensures Vectors.EachColumn(m, f) == [seq(Cols(m), j requires 0 <= j < Cols(m) => f(Column(m, j))[0])]
  {
    var cs := Vectors.Columns(m);
    var w := Vectors.Longest(cs, f, Cols(m));
    Vectors.LongestAttained(cs, f, Cols(m));
    assert |f(cs[0])| == 1;
    assert w == 1;
    var t := Vectors.EachColumn(m, f);
    var v := [seq(Cols(m), j requires 0 <= j < Cols(m) => f(Column(m, j))[0])];
    assert |t| == 1 && |t[0]| == Cols(m);
    assert t[0] == v[0];
  }

  // ---------------------------------------------------------------------
  // max and min
  // ---------------------------------------------------------------------

  /**
   * The position max's scan settles on among data[..n]: the running value
   * is replaced only by an element it compares strictly below. No element
   * exceeds the result by more than compareTo's tolerance, and every
   * element before it is strictly smaller, so ties keep the earliest.
   */
  function MaxIndex(data: seq<Complex>, n: nat): (r: nat)
    requires 1 <= n <= |data|
    ensures r < n
    ensures forall i :: 0 <= i < n ==> Key(data[i]) <= Key(data[r]) + EPSILON
    ensures forall i :: 0 <= i < r ==> Key(data[i]) < Key(data[r])
    decreases n
  {
    if n == 1 then 0
    else
      var r := MaxIndex(data, n - 1);
      if Cmp(data[r], data[n - 1]) == ComplexOrder.Less then n - 1 else r
  }

  /** min's scan: replaced only by an element the running value compares strictly above. */
  function MinIndex(data: seq<Complex>, n: nat): (r: nat)
    requires 1 <= n <= |data|
    ensures r < n
    ensures forall i :: 0 <= i < n ==> Key(data[r]) - EPSILON <= Key(data[i])
    ensures forall i :: 0 <= i < r ==> Key(data[r]) < Key(data[i])
    decreases n
  {
    if n == 1 then 0
    else
      var r := MinIndex(data, n - 1);
      if Cmp(data[r], data[n - 1]) == ComplexOrder.More then n - 1 else r
  }

  function MaxVector(data: seq<Complex>): seq<Complex> {
    if |data| == 0 then [] else [data[MaxIndex(data, |data|)]]
  }

  function MinVector(data: seq<Complex>): seq<Complex> {
    if |data| == 0 then [] else [data[MinIndex(data, |data|)]]
  }

  /** max's main. */
  method MaxMain(data: seq<Complex>) returns (y: seq<Complex>)
    ensures y == MaxVector(data)
  {
    if |data| == 0 {
      return [];
    }
    var x := data[0];
    ghost var r := 0;
    for i := 1 to |data|
      invariant r == MaxIndex(data, i) && x == data[r]
    {
      if Cmp(x, data[i]) == ComplexOrder.Less {
        x := data[i];
        r := i;
      }
    }
    return [x];
  }

  /** min's main. */
  method MinMain(data: seq<Complex>) returns (y: seq<Complex>)
    ensures y == MinVector(data)
  {
    if |data| == 0 {
      return [];
    }
    var x := data[0];
    ghost var r := 0;
    for i := 1 to |data|
      invariant r == MinIndex(data, i) && x == data[r]
    {
      if Cmp(x, data[i]) == ComplexOrder.More {
        x := data[i];
        r := i;
      }
    }
    return [x];
  }

  function Max(m: Grid, dimension: Option<Vectors.Dimension>): (r: Result<Grid>)
    requires IsRect(m)
    ensures dimension.None? && |m| == 1 ==> r == Ok([MaxVector(m[0])])
    ensures dimension.None? && |m| != 1 ==>
      r.Ok? && Shape(r.value, 1, Cols(m)) && forall j :: 0 <= j < Cols(m) ==> [r.value[0][j]] == MaxVector(Column(m, j))
  {
    AlongAuto(m, MaxVector);
    Along(m, MaxVector, dimension)
  }

  function Min(m: Grid, dimension: Option<Vectors.Dimension>): (r: Result<Grid>)
    requires IsRect(m)
    ensures dimension.None? && |m| == 1 ==> r == Ok([MinVector(m[0])])
    ensures dimension.None? && |m| != 1 ==>
      r.Ok? && Shape(r.value, 1, Cols(m)) && forall j :: 0 <= j < Cols(m) ==> [r.value[0][j]] == MinVector(Column(m, j))
  {
    AlongAuto(m, MinVector);
    Along(m, MinVector, dimension)
  }

  /** When the keys are equal or apart, max is the first element of largest key. */
  lemma MaxIsFirstLargest(data: seq<Complex>)
    requires |data| > 0
    requires forall i, j :: 0 <= i < |data| && 0 <= j < |data| ==> Sorting.KeysApart(data[i], data[j])
    ensures var r := MaxIndex(data, |data|);
      MaxVector(data) == [data[r]]
      && (forall i :: 0 <= i < |data| ==> Key(data[i]) <= Key(data[r]))
      && (forall i :: 0 <= i < r ==> Key(data[i]) < Key(data[r]))
  {
    var r := MaxIndex(data, |data|);
    forall i | 0 <= i < |data|
      ensures Key(data[i]) <= Key(data[r])
    {
      assert Sorting.KeysApart(data[i], data[r]);
      assert Tol(0.0) == EPSILON;
    }
  }

  // ---------------------------------------------------------------------
  // sum, mean and prod
  // ---------------------------------------------------------------------

  /** data[0] + ... + data[n-1], added from the left starting at ZERO. */
  function SumOf(data: seq<Complex>, n: nat): Complex
    requires n <= |data|
  {
    if n == 0 then ZERO else Add(SumOf(data, n - 1), data[n - 1])
  }

  function SumVector(data: seq<Complex>): seq<Complex> {
    [SumOf(data, |data|)]
  }

  /**
   * sum's main, Kahan's loop with the correction added back. Over exact
   * arithmetic the correction is always ZERO and the loop adds the elements.
   */
  method SumMain(data: seq<Complex>) returns (y: seq<Complex>)
    ensures y == SumVector(data)
  {
    var sum, delta := ZERO, ZERO;
    for i := 0 to |data|
      invariant sum == SumOf(data, i) && delta == ZERO
    {
      var newNumber := Add(data[i], delta);
      var newSum := Add(sum, newNumber);
      delta := Sub(Sub(newSum, sum), newNumber);
      sum := newSum;
    }
    return [sum];
  }

  /** The sum of a concatenation is the sum of the sums. */
  lemma {:induction false} SumConcat(a: seq<Complex>, b: seq<Complex>, n: nat)
    requires n <= |b|
    ensures SumOf(a + b[..n], |a| + n) == Add(SumOf(a, |a|), SumOf(b, n))
  {
    if n == 0 {
      assert a + b[..0] == a;
      SumPrefix(a, a, |a|);
    } else {
      var s := a + b[..n];
      SumPrefix(s, a + b[..n - 1], |a| + n - 1);
      SumConcat(a, b, n - 1);
      assert s[|a| + n - 1] == b[n - 1];
      RingLaws(SumOf(a, |a|), SumOf(b, n - 1), b[n - 1]);
    }
  }

  /** The sum of the first n elements depends on those elements only. */
  lemma {:induction false} SumPrefix(s: seq<Complex>, t: seq<Complex>, n: nat)
    requires n <= |s| && n <= |t| && s[..n] == t[..n]
    ensures SumOf(s, n) == SumOf(t, n)
  {
    if n > 0 {
      assert s[..n - 1] == t[..n - 1] by {
        assert s[..n - 1] == s[..n][..n - 1];
        assert t[..n - 1] == t[..n][..n - 1];
      }
      assert s[n - 1] == s[..n][n - 1];
      assert t[n - 1] == t[..n][n - 1];
      SumPrefix(s, t, n - 1);
    }
  }

  /** `Complex.create(n)`. */
  function Count(n: nat): Complex {
    Complex(n as real, 0.0)
  }

  /** sum.div(data.length). */
  function MeanOf(data: seq<Complex>): (r: Complex)
    requires |data| > 0
    ensures Mul(r, Count(|data|)) == SumOf(data, |data|)
  {
    DivRoundTrip(SumOf(data, |data|), Count(|data|));
    Div(SumOf(data, |data|), Count(|data|)).value
  }

  function MeanVector(data: seq<Complex>): seq<Complex> {
    if |data| == 0 then [] else [MeanOf(data)]
  }

  /** mean's main: the Kahan sum, divided by the length. */
  method MeanMain(data: seq<Complex>) returns (y: seq<Complex>)
    ensures y == MeanVector(data)
  {
    var s := SumMain(data);
    if |data| == 0 {
      return [];
    }
    var q := Div(s[0], Count(|data|));
    return [q.value];
  }

  function Mean(m: Grid, dimension: Option<Vectors.Dimension>): (r: Result<Grid>)
    requires IsRect(m)
    ensures dimension.None? && |m| == 1 ==> r == Ok([MeanVector(m[0])])
    ensures dimension.None? && |m| != 1 ==>
      r.Ok? && Shape(r.value, 1, Cols(m)) && forall j :: 0 <= j < Cols(m) ==> [r.value[0][j]] == MeanVector(Column(m, j))
  {
    AlongAuto(m, MeanVector);
    Along(m, MeanVector, dimension)
  }

  lemma ScaleStep(x: real, k: real)
    ensures x * k + x == x * (k + 1.0)
  {
  }

  lemma MulCount(c: Complex, n: nat)
    ensures Mul(c, Count(n)) == Complex(c.re * (n as real), c.im * (n as real))
  {
  }

  lemma {:induction false} SumConstant(data: seq<Complex>, c: Complex, n: nat)
    requires n <= |data| && forall i :: 0 <= i < |data| ==> data[i] == c
    ensures SumOf(data, n) == Complex(c.re * (n as real), c.im * (n as real))
  {
    if n > 0 {
      SumConstant(data, c, n - 1);
      var k := (n - 1) as real;
      assert k + 1.0 == n as real;
      assert data[n - 1] == c;
      var s := SumOf(data, n - 1);
      assert SumOf(data, n) == Add(s, c);
      ScaleStep(c.re, k);
      ScaleStep(c.im, k);
    }
  }

  /** The mean of a constant vector is that constant. */
  lemma MeanConstant(data: seq<Complex>, c: Complex)
    requires |data| > 0 && forall i :: 0 <= i < |data| ==> data[i] == c
    ensures MeanOf(data) == c
  {
    SumConstant(data, c, |data|);
    MulCount(c, |data|);
    MulCancel(MeanOf(data), c, Count(|data|));
  }

  /** data[0]·...·data[n-1], multiplied from the left starting at ONE. */
  function ProdOf(data: seq<Complex>, n: nat): Complex
    requires n <= |data|
  {
    if n == 0 then ONE else Mul(ProdOf(data, n - 1), data[n - 1])
  }

  function ProdVector(data: seq<Complex>): seq<Complex> {
    [ProdOf(data, |data|)]
  }

  /** prod's main. */
  method ProdMain(data: seq<Complex>) returns (y: seq<Complex>)
    ensures y == ProdVector(data)
  {
    var x := ONE;
    for i := 0 to |data|
      invariant x == ProdOf(data, i)
    {
      x := Mul(x, data[i]);
    }
    return [x];
  }

  function Sum(m: Grid, dimension: Option<Vectors.Dimension>): (r: Result<Grid>)
    requires IsRect(m)
    ensures dimension.None? && |m| == 1 ==> r == Ok([SumVector(m[0])])
    ensures dimension.None? && |m| != 1 ==>
      r.Ok? && Shape(r.value, 1, Cols(m)) && forall j :: 0 <= j < Cols(m) ==> [r.value[0][j]] == SumVector(Column(m, j))
  {
    AlongAuto(m, SumVector);
    Along(m, SumVector, dimension)
  }

  function Prod(m: Grid, dimension: Option<Vectors.Dimension>): (r: Result<Grid>)
    requires IsRect(m)
    ensures dimension.None? && |m| == 1 ==> r == Ok([ProdVector(m[0])])
    ensures dimension.None? && |m| != 1 ==>
      r.Ok? && Shape(r.value, 1, Cols(m)) && forall j :: 0 <= j < Cols(m) ==> [r.value[0][j]] == ProdVector(Column(m, j))
  {
    AlongAuto(m, ProdVector);
    Along(m, ProdVector, dimension)
  }

  lemma ZeroFactor(p: Complex, x: Complex)
    ensures Mul(p, x) == ZERO <==> p == ZERO || x == ZERO
  {
    if x != ZERO && Mul(p, x) == ZERO {
      ZeroProduct(p, x);
    }
    RingLaws(p, ZERO, ZERO);
    RingLaws(ZERO, x, ZERO);
  }

  /** The product is ZERO exactly when some element is. */
  lemma {:induction false} ProdZero(data: seq<Complex>, n: nat)
    requires n <= |data|
    ensures ProdOf(data, n) == ZERO <==> exists i :: 0 <= i < n && data[i] == ZERO
  {
    if n > 0 {
      ProdZero(data, n - 1);
      ZeroFactor(ProdOf(data, n - 1), data[n - 1]);
    } else {
      assert ONE != ZERO;
    }
  }

  // ---------------------------------------------------------------------
  // sort and median
  // ---------------------------------------------------------------------

  datatype SortOrder = Ascend | Descend

  /** `!order ? "ascend" : order`, and any string other than "ascend" sorts descending. */
  function OrderOf(order: Option<string>): (o: SortOrder)
    ensures o == Ascend <==> order == None || order == Some("") || order == Some("ascend")
  {
    match order
    case None => Ascend
    case Some(s) => if s == "" || s == "ascend" then Ascend else Descend
  }

  /** `compare(a, b) <= 0`: a may stay before b. */
  predicate Precedes(a: Complex, b: Complex, o: SortOrder) {
    match o
    case Ascend => Cmp(a, b) != ComplexOrder.More
    case Descend => Cmp(b, a) != ComplexOrder.More
  }

  function Insert(x: Complex, s: seq<Complex>, o: SortOrder): (t: seq<Complex>)
    ensures |t| == |s| + 1
  {
    if |s| == 0 then [x]
    else if Precedes(x, s[0], o) then [x] + s
    else [s[0]] + Insert(x, s[1..], o)
  }

  /**
   * `data.sort(compare)`. The engine's algorithm is not part of this model;
   * a stable insertion sort by the same comparison stands for it.
   */
  function SortVector(data: seq<Complex>, o: SortOrder): (t: seq<Complex>)
    ensures |t| == |data|
  {
    if |data| == 0 then [] else Insert(data[0], SortVector(data[1..], o), o)
  }

  function Sort(m: Grid, order: Option<string>, dimension: Option<Vectors.Dimension>): (r: Result<Grid>)
    requires IsRect(m)
    ensures dimension.None? && |m| == 1 ==> r == Ok([SortVector(m[0], OrderOf(order))])
    ensures dimension.None? && |m| != 1 ==>
      r.Ok? && Shape(r.value, |m|, Cols(m)) && forall j :: 0 <= j < Cols(m) ==> Column(r.value, j) == SortVector(Column(m, j), OrderOf(order))
  {
    var f: Vectors.VectorFunction := v => SortVector(v, OrderOf(order));
    SortsColumns(m, f, OrderOf(order));
    AlongAutoShape(m, f);
    Along(m, f, dimension)
  }

  /** With no dimension a single row goes to f whole, and any other matrix column by column. */
  lemma AlongAutoShape(m: Grid, f: Vectors.VectorFunction)
    requires IsRect(m)
    ensures |m| == 1 && |f(m[0])| > 0 ==> Along(m, f, None) == Ok([f(m[0])])
    ensures |m| != 1 ==> Along(m, f, None) == Ok(Vectors.EachColumn(m, f))
  {
    assert Vectors.DirectionOf(Vectors.DimText("auto")) == Ok(Vectors.Auto) by {
      assert Text.LowerAscii("auto") == "auto";
    }
  }

  /** With f sorting every vector, eachVectorColumn holds the sorted columns. */
  lemma SortsColumns(m: Grid, f: Vectors.VectorFunction, o: SortOrder)
    requires IsRect(m)
    requires forall v :: f(v) == SortVector(v, o)
    ensures Shape(Vectors.EachColumn(m, f), |m|, Cols(m))
    ensures forall j :: 0 <= j < Cols(m) ==> Column(Vectors.EachColumn(m, f), j) == SortVector(Column(m, j), o)
  {
    var t := Transpose(m);
    Vectors.EachColumnTranspose(m, f);
    Vectors.EachRowKeepsShape(t, f);
    var rows := Vectors.EachRow(t, f);
    assert rows == seq(|t|, i requires 0 <= i < |t| => f(t[i]));
    forall j | 0 <= j < Cols(m)
      ensures Column(Transpose(rows), j) == SortVector(Column(m, j), o)
    {
      assert t[j] == Column(m, j);
    }
  }

  lemma {:induction false} InsertPermutation(x: Complex, s: seq<Complex>, o: SortOrder)
    ensures multiset(Insert(x, s, o)) == multiset(s) + multiset{x}
  {
    if |s| > 0 && !Precedes(x, s[0], o) {
      InsertPermutation(x, s[1..], o);
      assert s == [s[0]] + s[1..];
    }
  }

  /** The sort loses and invents no element, whatever the comparison. */
  lemma {:induction false} SortPermutation(data: seq<Complex>, o: SortOrder)
    ensures multiset(SortVector(data, o)) == multiset(data)
  {
    if |data| > 0 {
      SortPermutation(data[1..], o);
      InsertPermutation(data[0], SortVector(data[1..], o), o);
      assert data == [data[0]] + data[1..];
    }
  }

  predicate Apart(data: seq<Complex>) {
    forall a, b :: a in data && b in data ==> Sorting.KeysApart(a, b)
  }

  /** Keys never decrease (Ascend) or never increase (Descend) along s. */
  predicate Ordered(s: seq<Complex>, o: SortOrder) {
    forall i, j :: 0 <= i < j < |s| ==> if o == Ascend then Key(s[i]) <= Key(s[j]) else Key(s[j]) <= Key(s[i])
  }

  /** Between keys that are equal or apart, the comparison is the order of the keys. */
  lemma PrecedesApart(a: Complex, b: Complex, o: SortOrder)
    requires Sorting.KeysApart(a, b)
    ensures Precedes(a, b, o) <==> if o == Ascend then Key(a) <= Key(b) else Key(b) <= Key(a)
  {
    assert Tol(0.0) == EPSILON;
  }

  lemma {:induction false} InsertOrdered(x: Complex, s: seq<Complex>, o: SortOrder)
    requires Ordered(s, o) && Apart([x] + s)
    ensures Ordered(Insert(x, s, o), o)
  {
    if |s| > 0 {
      assert x in [x] + s && s[0] in [x] + s;
      PrecedesApart(x, s[0], o);
      if !Precedes(x, s[0], o) {
        assert Apart([x] + s[1..]) by {
          forall a | a in [x] + s[1..] ensures a in [x] + s {
            if a != x {
              assert a in s[1..];
            }
          }
        }
        InsertOrdered(x, s[1..], o);
        InsertBound(x, s, o);
        ConsOrdered(s[0], Insert(x, s[1..], o), o);
      }
    }
  }

  /** y comes no later than any element of t in order o. */
  predicate Leads(y: Complex, t: seq<Complex>, o: SortOrder) {
    forall j :: 0 <= j < |t| ==> if o == Ascend then Key(y) <= Key(t[j]) else Key(t[j]) <= Key(y)
  }

  /** An element that leads an ordered sequence can go in front of it. */
  lemma ConsOrdered(y: Complex, t: seq<Complex>, o: SortOrder)
    requires Ordered(t, o) && Leads(y, t, o)
    ensures Ordered([y] + t, o)
  {
    var u := [y] + t;
    forall i, j | 0 <= i < j < |u|
      ensures if o == Ascend then Key(u[i]) <= Key(u[j]) else Key(u[j]) <= Key(u[i])
    {
      assert u[j] == t[j - 1];
      if i > 0 {
        assert u[i] == t[i - 1];
      }
    }
  }

  /** The head of an ordered s leads s[1..] with x inserted, when it leads x too. */
  lemma InsertBound(x: Complex, s: seq<Complex>, o: SortOrder)
    requires |s| > 0 && Ordered(s, o)
    requires if o == Ascend then Key(s[0]) <= Key(x) else Key(x) <= Key(s[0])
    ensures Leads(s[0], Insert(x, s[1..], o), o)
  {
    var t := Insert(x, s[1..], o);
    InsertPermutation(x, s[1..], o);
    forall j | 0 <= j < |t|
      ensures if o == Ascend then Key(s[0]) <= Key(t[j]) else Key(t[j]) <= Key(s[0])
    {
      assert t[j] in multiset(t);
      assert t[j] == x || t[j] in s[1..];
      if t[j] != x {
        var k :| 0 <= k < |s[1..]| && s[1..][k] == t[j];
        assert s[k + 1] == t[j];
      }
    }
  }

  /** When the keys are equal or apart, the sort orders them as asked. */
  lemma {:induction false} SortOrdered(data: seq<Complex>, o: SortOrder)
    requires Apart(data)
    ensures Ordered(SortVector(data, o), o)
  {
    if |data| > 0 {
      var rest := data[1..];
      assert Apart(rest) by {
        forall a | a in rest ensures a in data {
          var k :| 0 <= k < |rest| && rest[k] == a;
          assert data[k + 1] == a;
        }
      }
      SortOrdered(rest, o);
      var s := SortVector(rest, o);
      SortPermutation(rest, o);
      assert Apart([data[0]] + s) by {
        forall a | a in [data[0]] + s ensures a in data {
          if a != data[0] {
            assert a in multiset(s);
            assert a in rest;
            var k :| 0 <= k < |rest| && rest[k] == a;
            assert data[k + 1] == a;
          }
        }
      }
      InsertOrdered(data[0], s, o);
    }
  }

  /** The middle element of the ascending sort, or the mean of the two middle ones. */
  function MedianOf(data: seq<Complex>): (r: Complex)
    requires |data| > 0
    ensures |data| % 2 == 1 ==> r in data
  {
    var s := SortVector(data, Ascend);
    SortPermutation(data, Ascend);
    assert |s| % 2 == 1 ==> s[|s| / 2] in multiset(s);
    var h := |s| / 2;
    if |s| % 2 == 1 then s[h] else Div(Add(s[h - 1], s[h]), TWO).value
  }

  function MedianVector(data: seq<Complex>): seq<Complex> {
    if |data| == 0 then [] else [MedianOf(data)]
  }

  function Median(m: Grid, dimension: Option<Vectors.Dimension>): (r: Result<Grid>)
    requires IsRect(m)
    ensures dimension.None? && |m| == 1 ==> r == Ok([MedianVector(m[0])])
    ensures dimension.None? && |m| != 1 ==>
      r.Ok? && Shape(r.value, 1, Cols(m)) && forall j :: 0 <= j < Cols(m) ==> [r.value[0][j]] == MedianVector(Column(m, j))
  {
    AlongAuto(m, MedianVector);
    Along(m, MedianVector, dimension)
  }

  /** The median lies between the largest and the smallest key. */
  lemma MedianBetween(data: seq<Complex>)
    requires |data| > 0 && Apart(data)
    ensures var s := SortVector(data, Ascend);
      Key(s[0]) <= Key(MedianOf(data)) <= Key(s[|s| - 1])
      && (forall x :: x in data ==> Key(s[0]) <= Key(x) <= Key(s[|s| - 1]))
  {
    var s := SortVector(data, Ascend);
    SortedBounds(data);
    var h := |s| / 2;
    if |s| % 2 == 0 {
      HalfKey(s[h - 1], s[h]);
    }
  }

  /** The first and last keys of the ascending sort bound every key of the data. */
  lemma SortedBounds(data: seq<Complex>)
    requires |data| > 0 && Apart(data)
    ensures var s := SortVector(data, Ascend);
      |s| == |data| && Ordered(s, Ascend)
      && (forall x :: x in data ==> Key(s[0]) <= Key(x) <= Key(s[|s| - 1]))
  {
    var s := SortVector(data, Ascend);
    SortOrdered(data, Ascend);
    SortPermutation(data, Ascend);
    forall x | x in data
      ensures Key(s[0]) <= Key(x) <= Key(s[|s| - 1])
    {
      assert x in multiset(s);
      var k :| 0 <= k < |s| && s[k] == x;
    }
  }

  /** Halving a sum halves the sum of the keys. */
  lemma HalfKey(a: Complex, b: Complex)
    ensures Div(Add(a, b), TWO).Some?
    ensures Key(Div(Add(a, b), TWO).value) == (Key(a) + Key(b)) / 2.0
  {
    DivRoundTrip(Add(a, b), TWO);
    var q := Div(Add(a, b), TWO).value;
    assert Mul(q, TWO) == Add(a, b);
  }

  // ---------------------------------------------------------------------
  // variance
  // ---------------------------------------------------------------------

  /** `type.correction` when it is a number, 0 otherwise. */
  function CorrectionOf(correction: Option<real>): real {
    if correction.Some? then correction.value else 0.0
  }

  /** Σ |data[i] − mean|² over data[..n]: `norm()` squared is the squared modulus. */
  function Deviation(data: seq<Complex>, mean: Complex, n: nat): (d: real)
    requires n <= |data|
    ensures d >= 0.0
  {
    if n == 0 then 0.0 else Deviation(data, mean, n - 1) + NormSq(Sub(data[n - 1], mean))
  }

  /** A single element has variance 0; otherwise the denominator n − 1 + correction must not be 0. */
  predicate Defined(n: nat, cor: real) {
    n == 1 || n as real - 1.0 + cor != 0.0
  }

  function VarianceOf(data: seq<Complex>, mean: Complex, cor: real): (v: Complex)
    requires Defined(|data|, cor)
    ensures v.im == 0.0
    ensures |data| == 1 ==> v == ZERO
  {
    if |data| == 1 then ZERO
    else Complex(Deviation(data, mean, |data|) / (|data| as real - 1.0 + cor), 0.0)
  }

  /** variance's main, given the mean it reads. */
  method VarianceMain(data: seq<Complex>, mean: Complex, cor: real) returns (y: Result<seq<Complex>>)
    ensures Defined(|data|, cor) ==> y == Ok([VarianceOf(data, mean, cor)])
    ensures !Defined(|data|, cor) ==> y == Err(NON_FINITE)
  {
    if |data| == 1 {
      return Ok([ZERO]);
    }
    var x := 0.0;
    for i := 0 to |data|
      invariant x == Deviation(data, mean, i)
    {
      var a := Sub(data[i], mean);
      x := x + NormSq(a);
    }
    var d := |data| as real - 1.0 + cor;
    if d == 0.0 {
      return Err(NON_FINITE);
    }
    return Ok([Complex(x / d, 0.0)]);
  }

  /** With the mean of the vector itself and no correction, n − 1 times the variance is the squared deviation. */
  lemma VarianceScaled(data: seq<Complex>)
    requires |data| > 1
    ensures Defined(|data|, 0.0)
    ensures VarianceOf(data, MeanOf(data), 0.0).re * (|data| as real - 1.0) == Deviation(data, MeanOf(data), |data|)
  {
  }

  /** The squared deviation of a constant vector from that constant is 0. */
  lemma {:induction false} DeviationConstant(data: seq<Complex>, c: Complex, n: nat)
    requires n <= |data| && forall i :: 0 <= i < |data| ==> data[i] == c
    ensures Deviation(data, c, n) == 0.0
  {
    if n > 0 {
      DeviationConstant(data, c, n - 1);
    }
  }

  lemma ZeroQuotient(d: real)
    requires d != 0.0
    ensures 0.0 / d == 0.0
  {
  }

  lemma VarianceAtConstant(data: seq<Complex>, c: Complex, cor: real)
    requires |data| > 0 && Defined(|data|, cor) && forall i :: 0 <= i < |data| ==> data[i] == c
    ensures VarianceOf(data, c, cor) == ZERO
  {
    DeviationConstant(data, c, |data|);
    if |data| != 1 {
      ZeroQuotient(|data| as real - 1.0 + cor);
    }
  }

  /** The variance of a constant vector is 0. */
  lemma VarianceConstant(data: seq<Complex>, c: Complex, cor: real)
    requires |data| > 0 && Defined(|data|, cor) && forall i :: 0 <= i < |data| ==> data[i] == c
    ensures VarianceOf(data, MeanOf(data), cor) == ZERO
  {
    MeanConstant(data, c);
    VarianceAtConstant(data, c, cor);
  }


  /**
   * The vectors variance works on: the rows for "row", and for the automatic
   * direction a single row; the columns otherwise.
   */
  function Lines(m: Grid, rows: bool): (vs: seq<seq<Complex>>)
    requires IsRect(m)
    ensures |vs| > 0 && forall k :: 0 <= k < |vs| ==> |vs[k]| == |vs[0]|
  {
    if rows then m else Vectors.Columns(m)
  }

  /** Along "row", or automatically along a single row. */
  predicate ByRows(m: Grid, d: Vectors.Direction) requires |m| > 0 {
    d == Vectors.RowWise || (d == Vectors.Auto && |m| == 1)
  }

  /** One value per line: a column for rows, a row for columns. */
  function Arrange(values: seq<Complex>, rows: bool): (t: Grid)
    requires |values| > 0
    ensures IsRect(t)
  {
    if rows then seq(|values|, k requires 0 <= k < |values| => [values[k]]) else [values]
  }

  /** `Statistics.mean(X)` with the automatic direction, read by getComplex in order. */
  function AutoMeans(m: Grid): (means: seq<Complex>)
    requires IsRect(m)
    ensures |means| == if |m| == 1 then 1 else Cols(m)
  {
    if |m| == 1 then [MeanOf(m[0])] else seq(Cols(m), j requires 0 <= j < Cols(m) => MeanOf(Column(m, j)))
  }

  /**
   * variance as written: the k-th vector of more than one element reads the
   * k-th value of the means taken in the automatic direction (a single-element
   * vector returns before the counter moves); a position past the end reads
   * `undefined`, which `sub` rejects with a TypeError.
   */
  function VarianceAsWritten(m: Grid, cor: real, d: Vectors.Direction): (r: Result<Grid>)
    requires IsRect(m) && d != Vectors.Both
  {
    var rows := ByRows(m, d);
    var vs := Lines(m, rows);
    var means := AutoMeans(m);
    if |vs[0]| == 1 then Ok(Arrange(seq(|vs|, _ => ZERO), rows))
    else if !Defined(|vs[0]|, cor) then Err(NON_FINITE)
    else if |vs| > |means| then Err(Measures.TYPE_ERROR)
    else Ok(Arrange(seq(|vs|, k requires 0 <= k < |vs| => VarianceOf(vs[k], means[k], cor)), rows))
  }

  /** variance with each vector's own mean. */
  function Variance(m: Grid, cor: real, d: Vectors.Direction): (r: Result<Grid>)
    requires IsRect(m) && d != Vectors.Both
    ensures r.Err? <==> !Defined(|Lines(m, ByRows(m, d))[0]|, cor)
    ensures r.Err? ==> r.msg == NON_FINITE
  {
    var rows := ByRows(m, d);
    var vs := Lines(m, rows);
    if !Defined(|vs[0]|, cor) then Err(NON_FINITE)
    else Ok(Arrange(seq(|vs|, k requires 0 <= k < |vs| => VarianceOf(vs[k], MeanOf(vs[k]), cor)), rows))
  }

  /** Along columns, and along a single row, the means read are the vectors' own: the two agree. */
  lemma VarianceAgreesByColumns(m: Grid, cor: real, d: Vectors.Direction)
    requires IsRect(m) && (d == Vectors.Auto || d == Vectors.ColumnWise || |m| == 1)
    requires d != Vectors.Both
    ensures VarianceAsWritten(m, cor, d) == Variance(m, cor, d)
  {
    var rows := ByRows(m, d);
    var vs := Lines(m, rows);
    var means := AutoMeans(m);
    if |vs[0]| == 1 {
      var a := seq(|vs|, _ => ZERO);
      var b := seq(|vs|, k requires 0 <= k < |vs| => VarianceOf(vs[k], MeanOf(vs[k]), cor));
      assert a == b;
    } else if Defined(|vs[0]|, cor) {
      if rows {
        assert |m| == 1;
      }
      assert |vs| == |means|;
      var a := seq(|vs|, k requires 0 <= k < |vs| => VarianceOf(vs[k], means[k], cor));
      var b := seq(|vs|, k requires 0 <= k < |vs| => VarianceOf(vs[k], MeanOf(vs[k]), cor));
      forall k | 0 <= k < |vs|
        ensures a[k] == b[k]
      {
        assert means[k] == MeanOf(vs[k]);
      }
      assert a == b;
    }
  }

  /**
   * Along "row" the means read are the column means: the first row of
   * [0 0; 2 2] is constant, yet as written its variance is 2, measured from
   * the mean 1 of the first column; with the row's own mean it is 0.
   */
  lemma VarianceRowsAsWritten(m: Grid)
    requires IsRect(m) && |m| == 2 && Cols(m) == 2
    requires m[0][0] == ZERO && m[0][1] == ZERO && m[1][0] == TWO && m[1][1] == TWO
    ensures VarianceAsWritten(m, 0.0, Vectors.RowWise).Ok? && |VarianceAsWritten(m, 0.0, Vectors.RowWise).value| == 2
    ensures VarianceAsWritten(m, 0.0, Vectors.RowWise).value[0] == [TWO]
    ensures Variance(m, 0.0, Vectors.RowWise).Ok? && |Variance(m, 0.0, Vectors.RowWise).value| == 2
    ensures Variance(m, 0.0, Vectors.RowWise).value[0] == [ZERO]
  {
    RowWiseVariances(m, 0.0);
    AutoMeansColumns(m);
    ColumnMeanOne(m, 0);
    VarianceAboutOne(m[0]);
    ConstantPair(m[0]);
  }

  /** A pair of equal values has variance 0 about its own mean. */
  lemma ConstantPair(data: seq<Complex>)
    requires |data| == 2 && data[1] == data[0]
    ensures VarianceOf(data, MeanOf(data), 0.0) == ZERO
  {
    VarianceConstant(data, data[0], 0.0);
  }

  /** Along "row" on a matrix with as many rows as columns, the variances as written and as intended, row by row. */
  lemma RowWiseVariances(m: Grid, cor: real)
    requires IsRect(m) && |m| == Cols(m) && |m| > 1 && Defined(|m|, cor)
    ensures VarianceAsWritten(m, cor, Vectors.RowWise).Ok? && |VarianceAsWritten(m, cor, Vectors.RowWise).value| == |m|
    ensures forall k :: 0 <= k < |m| ==> VarianceAsWritten(m, cor, Vectors.RowWise).value[k] == [VarianceOf(m[k], AutoMeans(m)[k], cor)]
    ensures Variance(m, cor, Vectors.RowWise).Ok? && |Variance(m, cor, Vectors.RowWise).value| == |m|
    ensures forall k :: 0 <= k < |m| ==> Variance(m, cor, Vectors.RowWise).value[k] == [VarianceOf(m[k], MeanOf(m[k]), cor)]
  {
    assert Lines(m, true) == m;
  }

  /** A column holding 0 above 2 has mean 1. */
  lemma ColumnMeanOne(m: Grid, j: nat)
    requires IsRect(m) && |m| == 2 && j < Cols(m)
    requires m[0][j] == ZERO && m[1][j] == TWO
    ensures MeanOf(Column(m, j)) == Complex(1.0, 0.0)
  {
    var c := Column(m, j);
    assert |c| == 2 && c[0] == ZERO && c[1] == TWO;
    MeanZeroTwo(c);
  }

  /** With more than one row the means read are those of the columns, in order. */
  lemma AutoMeansColumns(m: Grid)
    requires IsRect(m) && |m| != 1
    ensures |AutoMeans(m)| == Cols(m)
    ensures forall j :: 0 <= j < Cols(m) ==> AutoMeans(m)[j] == MeanOf(Column(m, j))
  {
  }

  /** The mean of 0 and 2 is 1. */
  lemma MeanZeroTwo(c: seq<Complex>)
    requires |c| == 2 && c[0] == ZERO && c[1] == TWO
    ensures MeanOf(c) == Complex(1.0, 0.0)
  {
    SumZeroTwo(c);
    assert Count(2) == TWO;
    HalfOfTwo(MeanOf(c));
  }

  lemma SumZeroTwo(c: seq<Complex>)
    requires |c| == 2 && c[0] == ZERO && c[1] == TWO
    ensures SumOf(c, 2) == TWO
  {
    assert SumOf(c, 0) == ZERO;
    assert SumOf(c, 1) == Add(ZERO, ZERO);
  }

  lemma HalfOfTwo(r: Complex)
    requires Mul(r, TWO) == TWO
    ensures r == Complex(1.0, 0.0)
  {
    assert r.re * 2.0 - r.im * 0.0 == 2.0;
    assert r.im * 2.0 + r.re * 0.0 == 0.0;
  }

  /** Two zeros, each at distance 1 from 1: their variance about 1 is 2. */
  lemma VarianceAboutOne(data: seq<Complex>)
    requires |data| == 2 && data[0] == ZERO && data[1] == ZERO
    ensures VarianceOf(data, Complex(1.0, 0.0), 0.0) == TWO
  {
    var one := Complex(1.0, 0.0);
    var dev := Deviation(data, one, |data|);
    assert dev == 2.0 by {
      UnitNorms();
      assert Sub(ZERO, one) == Complex(-1.0, 0.0);
      DeviationPair(data, one);
    }
    assert |data| as real - 1.0 + 0.0 == 1.0;
    assert VarianceOf(data, one, 0.0) == Complex(dev / 1.0, 0.0);
  }

  lemma UnitNorms()
    ensures NormSq(Complex(-1.0, 0.0)) == 1.0
  {
  }

  lemma DeviationPair(data: seq<Complex>, c: Complex)
    requires |data| == 2
    ensures Deviation(data, c, 2) == NormSq(Sub(data[0], c)) + NormSq(Sub(data[1], c))
  {
    assert Deviation(data, c, 1) == NormSq(Sub(data[0], c));
  }

  /** With each vector's own mean, a matrix whose vectors are each constant has variance 0 throughout. */
  lemma VarianceConstantLines(m: Grid, cor: real, d: Vectors.Direction)
    requires IsRect(m) && d != Vectors.Both
    requires Defined(|Lines(m, ByRows(m, d))[0]|, cor)
    requires var vs := Lines(m, ByRows(m, d));
      forall k, i :: 0 <= k < |vs| && 0 <= i < |vs[k]| ==> vs[k][i] == vs[k][0]
    ensures Variance(m, cor, d).Ok?
    ensures forall i, j :: 0 <= i < |Variance(m, cor, d).value| && 0 <= j < |Variance(m, cor, d).value[i]| ==>
      Variance(m, cor, d).value[i][j] == ZERO
  {
    var vs := Lines(m, ByRows(m, d));
    forall k | 0 <= k < |vs|
      ensures VarianceOf(vs[k], MeanOf(vs[k]), cor) == ZERO
    {
      VarianceConstant(vs[k], vs[k][0], cor);
    }
  }
}
