/**
 * The arithmetic of Matrix on grids: the size rules of add, sub and the
 * cellwise operators, the cyclic broadcasting that every one of them applies
 * through createMatrixDoEachCalculation, and the product that mul computes.
 */
module Arithmetic {
  import opened Wrappers
  import opened ComplexNum
  import opened Grid
  import ComplexOrder
  import Products

  const SIZE_ERROR: string := "Matrix size does not match"

  /** add and sub refuse two shapes only when both the row and the column counts differ. */
  predicate Mismatch(a: Grid, b: Grid)
    requires IsRect(a) && IsRect(b)
  {
    |a| != |b| && Cols(a) != Cols(b)
  }

  predicate IsScalarGrid(a: Grid)
    requires IsRect(a)
  {
    |a| == 1 && Cols(a) == 1
  }

  /** dotmul, dotdiv, rem and mod also let a 1×1 operand through on either side. */
  predicate CellMismatch(a: Grid, b: Grid)
    requires IsRect(a) && IsRect(b)
  {
    !IsScalarGrid(a) && !IsScalarGrid(b) && Mismatch(a, b)
  }

  /** A cellwise operation that cannot fail. */
  function Lift(op: (Complex, Complex) -> Complex): (f: (Complex, Complex) -> Result<Complex>)
    ensures forall x, y :: f(x, y) == Ok(op(x, y))
  {
    (x, y) => Ok(op(x, y))
  }

  /** Complex.div on one cell; a zero divisor, an infinity or NaN in the source, is reported as NaN. */
  function DivCell(x: Complex, y: Complex): (r: Result<Complex>)
    ensures r.Ok? <==> y != ZERO
    ensures r.Err? ==> r.msg == ComplexOrder.NOT_A_NUMBER
    ensures r.Ok? ==> Mul(r.value, y) == x
  {
    match Div(x, y)
    case Some(q) =>
      DivRoundTrip(x, y);
      Ok(q)
    case None => Err(ComplexOrder.NOT_A_NUMBER)
  }

  /** Every cell of the broadcast shape succeeds under op. */
  predicate CellsSucceed(a: Grid, b: Grid, op: (Complex, Complex) -> Result<Complex>)
    requires IsRect(a) && IsRect(b)
  {
    forall i, j :: 0 <= i < Max(|a|, |b|) && 0 <= j < Max(Cols(a), Cols(b)) ==> op(Tiled(a, i, j), Tiled(b, i, j)).Ok?
  }

  /** Some cell of the broadcast shape fails under op with message msg. */
  predicate FailsWith(a: Grid, b: Grid, op: (Complex, Complex) -> Result<Complex>, msg: string)
    requires IsRect(a) && IsRect(b)
  {
    exists i, j :: 0 <= i < Max(|a|, |b|) && 0 <= j < Max(Cols(a), Cols(b)) && op(Tiled(a, i, j), Tiled(b, i, j)) == Err(msg)
  }

  /**
   * The matrix that createMatrixDoEachCalculation builds for a cellwise
   * operator: Max(rows) × Max(columns), cell (i, j) combining both operands
   * read cyclically; None when some cell throws.
   */
  function Cellwise(a: Grid, b: Grid, op: (Complex, Complex) -> Result<Complex>): (r: Option<Grid>)
    requires IsRect(a) && IsRect(b)
    ensures r.Some? <==> CellsSucceed(a, b, op)
    ensures r.Some? ==> IsRect(r.value) && Shape(r.value, Max(|a|, |b|), Max(Cols(a), Cols(b)))
    ensures r.Some? ==> forall i, j :: 0 <= i < Max(|a|, |b|) && 0 <= j < Max(Cols(a), Cols(b)) ==>
      r.value[i][j] == op(Tiled(a, i, j), Tiled(b, i, j)).value
  {
    if CellsSucceed(a, b, op) then
      Some(Build(Max(|a|, |b|), Max(Cols(a), Cols(b)), (i, j) =>
        var v := op(Tiled(a, i, j), Tiled(b, i, j)); if v.Ok? then v.value else ZERO))
    else None
  }

  /** With an operation that cannot fail, Cellwise is the plain broadcast. */
  lemma CellwiseLift(a: Grid, b: Grid, op: (Complex, Complex) -> Complex)
    requires IsRect(a) && IsRect(b)
    ensures Cellwise(a, b, Lift(op)) == Some(Broadcast(a, b, op))
  {
    var r := Cellwise(a, b, Lift(op)).value;
    GridEq(r, Broadcast(a, b, op), Max(|a|, |b|), Max(Cols(a), Cols(b)));
  }

  /** On two grids of one shape the broadcast pairs each cell with the same cell of the other. */
  lemma BroadcastSameShape(a: Grid, b: Grid, op: (Complex, Complex) -> Complex)
    requires IsRect(a) && IsRect(b) && |a| == |b| && Cols(a) == Cols(b)
    ensures Shape(Broadcast(a, b, op), |a|, Cols(a))
    ensures forall i, j :: 0 <= i < |a| && 0 <= j < Cols(a) ==> Broadcast(a, b, op)[i][j] == op(a[i][j], b[i][j])
  {
    forall i, j | 0 <= i < |a| && 0 <= j < Cols(a)
      ensures Broadcast(a, b, op)[i][j] == op(a[i][j], b[i][j])
    {
      TiledInside(a, i, j);
      TiledInside(b, i, j);
    }
  }

  /** A 1×1 operand on the right is applied to every cell. */
  lemma BroadcastScalar(a: Grid, b: Grid, op: (Complex, Complex) -> Complex)
    requires IsRect(a) && IsRect(b) && IsScalarGrid(b)
    ensures Broadcast(a, b, op) == MapGrid(a, x => op(x, b[0][0]))
  {
    forall i, j | 0 <= i < |a| && 0 <= j < Cols(a)
      ensures Broadcast(a, b, op)[i][j] == op(a[i][j], b[0][0])
    {
      TiledInside(a, i, j);
    }
    GridEq(Broadcast(a, b, op), MapGrid(a, x => op(x, b[0][0])), |a|, Cols(a));
  }

  /** A single row as long as a's rows is combined with every row of a. */
  lemma BroadcastRow(a: Grid, b: Grid, op: (Complex, Complex) -> Complex)
    requires IsRect(a) && IsRect(b) && |b| == 1 && Cols(b) == Cols(a)
    ensures Shape(Broadcast(a, b, op), |a|, Cols(a))
    ensures forall i, j :: 0 <= i < |a| && 0 <= j < Cols(a) ==> Broadcast(a, b, op)[i][j] == op(a[i][j], b[0][j])
  {
    forall i, j | 0 <= i < |a| && 0 <= j < Cols(a)
      ensures Broadcast(a, b, op)[i][j] == op(a[i][j], b[0][j])
    {
      TiledInside(a, i, j);
      TiledRow(b, i, j);
    }
  }

  /** add is commutative, whichever operand is broadcast. */
  lemma AddCommutes(a: Grid, b: Grid)
    requires IsRect(a) && IsRect(b)
    ensures Mismatch(a, b) <==> Mismatch(b, a)
    ensures Broadcast(a, b, Add) == Broadcast(b, a, Add)
  {
    forall i, j | 0 <= i < Max(|a|, |b|) && 0 <= j < Max(Cols(a), Cols(b))
      ensures Broadcast(a, b, Add)[i][j] == Broadcast(b, a, Add)[i][j]
    {
      RingLaws(Tiled(a, i, j), Tiled(b, i, j), ZERO);
    }
    GridEq(Broadcast(a, b, Add), Broadcast(b, a, Add), Max(|a|, |b|), Max(Cols(a), Cols(b)));
  }

  /** (a - b) + b == a for two grids of one shape. */
  lemma SubAddRoundTrip(a: Grid, b: Grid)
    requires IsRect(a) && IsRect(b) && |a| == |b| && Cols(a) == Cols(b)
    ensures !Mismatch(a, b)
    ensures IsRect(Broadcast(a, b, Sub)) && !Mismatch(Broadcast(a, b, Sub), b)
    ensures Broadcast(Broadcast(a, b, Sub), b, Add) == a
  {
    var d := Broadcast(a, b, Sub);
    forall i, j | 0 <= i < |a| && 0 <= j < Cols(a)
      ensures Broadcast(d, b, Add)[i][j] == a[i][j]
    {
      TiledInside(a, i, j);
      TiledInside(b, i, j);
      TiledInside(d, i, j);
      AddSubInverse(a[i][j], b[i][j]);
    }
    GridEq(Broadcast(d, b, Add), a, |a|, Cols(a));
  }

  /** A 1×1 operand is not exempt from add's size rule: it is refused beside any matrix with no dimension of 1. */
  lemma AddScalarRefused(a: Grid, b: Grid)
    requires IsRect(a) && IsRect(b) && IsScalarGrid(b)
    ensures Mismatch(a, b) <==> |a| != 1 && Cols(a) != 1
    ensures !CellMismatch(a, b)
  {
  }

  /** dotdiv undoes dotmul when no divisor cell is zero. */
  lemma DotDivUndoesDotMul(a: Grid, b: Grid)
    requires IsRect(a) && IsRect(b) && |a| == |b| && Cols(a) == Cols(b)
    requires forall i, j :: 0 <= i < |b| && 0 <= j < Cols(b) ==> b[i][j] != ZERO
    ensures IsRect(Broadcast(a, b, Mul))
    ensures Cellwise(Broadcast(a, b, Mul), b, DivCell) == Some(a)
  {
    var p := Broadcast(a, b, Mul);
    forall i, j | 0 <= i < |a| && 0 <= j < Cols(a)
      ensures DivCell(Tiled(p, i, j), Tiled(b, i, j)) == Ok(a[i][j])
    {
      TiledInside(a, i, j);
      TiledInside(b, i, j);
      TiledInside(p, i, j);
      DivRoundTrip(a[i][j], b[i][j]);
    }
    var r := Cellwise(p, b, DivCell).value;
    GridEq(r, a, |a|, Cols(a));
  }

  /** dotdiv throws exactly when some divisor cell that is read is zero. */
  lemma DotDivFails(a: Grid, b: Grid)
    requires IsRect(a) && IsRect(b)
    ensures Cellwise(a, b, DivCell).None? <==>
      exists i, j :: 0 <= i < Max(|a|, |b|) && 0 <= j < Max(Cols(a), Cols(b)) && Tiled(b, i, j) == ZERO
  {
  }

  /**
   * rem and mod on real cells: rem keeps the sign of the dividend, mod of
   * the divisor (a zero divisor leaves the dividend), and both are smaller
   * than the divisor; a complex cell makes both throw.
   */
  lemma RemModCells(a: Grid, b: Grid, i: int, j: int)
    requires IsRect(a) && IsRect(b)
    requires 0 <= i < Max(|a|, |b|) && 0 <= j < Max(Cols(a), Cols(b))
    ensures Tiled(a, i, j).im != 0.0 || Tiled(b, i, j).im != 0.0 ==>
      Cellwise(a, b, ComplexOrder.Rem).None? && Cellwise(a, b, ComplexOrder.Mod).None?
    ensures Cellwise(a, b, ComplexOrder.Rem).Some? ==>
      var x := Cellwise(a, b, ComplexOrder.Rem).value[i][j];
      Abs(x.re) < Abs(Tiled(b, i, j).re) && (x.re == 0.0 || (x.re > 0.0 <==> Tiled(a, i, j).re > 0.0))
  {
    if Tiled(a, i, j).im != 0.0 || Tiled(b, i, j).im != 0.0 {
      assert !ComplexOrder.Rem(Tiled(a, i, j), Tiled(b, i, j)).Ok?;
      assert !ComplexOrder.Mod(Tiled(a, i, j), Tiled(b, i, j)).Ok?;
    }
  }

  /** Every failure of mod is the complex-argument error. */
  lemma ModFailsUndefined(a: Grid, b: Grid, msg: string)
    requires IsRect(a) && IsRect(b) && FailsWith(a, b, ComplexOrder.Mod, msg)
    ensures msg == ComplexOrder.UNDEFINED
  {
  }

  // ---------------------------------------------------------------------
  // mul
  // ---------------------------------------------------------------------

  /**
   * What mul returns: a 1×1 operand scales every cell of the other (both
   * 1×1 give their product), otherwise the inner dimensions must agree and
   * the result is the matrix product.
   */
  function Times(a: Grid, b: Grid): (r: Result<Grid>)
    requires IsRect(a) && IsRect(b)
    ensures r.Err? <==> !IsScalarGrid(a) && !IsScalarGrid(b) && Cols(a) != |b|
    ensures r.Err? ==> r.msg == SIZE_ERROR
    ensures r.Ok? ==> IsRect(r.value)
  {
    if IsScalarGrid(a) && IsScalarGrid(b) then Ok([[Mul(a[0][0], b[0][0])]])
    else if IsScalarGrid(a) then Ok(MapGrid(b, x => Mul(a[0][0], x)))
    else if IsScalarGrid(b) then Ok(MapGrid(a, x => Mul(x, b[0][0])))
    else if Cols(a) != |b| then Err(SIZE_ERROR)
    else Ok(MatMul(a, b))
  }

  /** The scalar fast paths agree with the matrix product wherever that is defined. */
  lemma TimesIsMatMul(a: Grid, b: Grid)
    requires IsRect(a) && IsRect(b) && Cols(a) == |b|
    ensures Times(a, b) == Ok(MatMul(a, b))
  {
    var p := MatMul(a, b);
    forall i, j | 0 <= i < |a| && 0 <= j < Cols(b)
      ensures p[i][j] == Products.Sum(Products.Terms(a, b, i, j), |b|)
    {
      Products.MatMulCell(a, b, i, j);
    }
    if IsScalarGrid(a) || IsScalarGrid(b) {
      GridEq(Times(a, b).value, p, |a|, Cols(b));
    }
  }

  /** A 1×1 operand on either side of mul scales the other operand. */
  lemma TimesScalar(s: Complex, b: Grid)
    requires IsRect(b)
    ensures Times([[s]], b) == Ok(MapGrid(b, x => Mul(s, x)))
    ensures Times(b, [[s]]) == Ok(MapGrid(b, x => Mul(x, s)))
  {
    if IsScalarGrid(b) {
      GridEq([[Mul(s, b[0][0])]], MapGrid(b, x => Mul(s, x)), 1, 1);
      GridEq([[Mul(b[0][0], s)]], MapGrid(b, x => Mul(x, s)), 1, 1);
    }
  }

  /** mul is associative wherever the shapes chain. */
  lemma TimesAssociative(a: Grid, b: Grid, c: Grid)
    requires IsRect(a) && IsRect(b) && IsRect(c) && Cols(a) == |b| && Cols(b) == |c|
    ensures Times(a, b).Ok? && Times(b, c).Ok?
    ensures Times(Times(a, b).value, c) == Times(a, Times(b, c).value)
  {
    TimesIsMatMul(a, b);
    TimesIsMatMul(b, c);
    TimesIsMatMul(MatMul(a, b), c);
    TimesIsMatMul(a, MatMul(b, c));
    Products.MatMulAssoc(a, b, c);
  }
}
