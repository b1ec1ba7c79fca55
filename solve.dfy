/**
 * linsolve of LinearAlgebra: Gaussian elimination with partial pivoting on
 * the augmented matrix [A | B], then back substitution. Every row operation
 * keeps the solutions of the original system, so a vector it returns
 * solves A·x == B.
 */
module Solve {
  import opened Wrappers
  import opened ComplexNum
  import opened Grid
  import Elimination

  const SIZE_ERROR: string := "Matrix size does not match"
  /** inv and div of a zero pivot give an infinity or NaN; the finite model reports it. */
  const NON_FINITE: string := "non-finite"

  // ---------------------------------------------------------------------
  // Linear combinations of a row
  // ---------------------------------------------------------------------

  /** r[lo]·x[lo] + ... + r[hi-1]·x[hi-1], added from ZERO. */
  function Dot(r: seq<Complex>, x: seq<Complex>, lo: nat, hi: nat): Complex
    requires lo <= hi <= |r| && hi <= |x|
    decreases hi - lo
  {
    if lo == hi then ZERO else Add(Dot(r, x, lo, hi - 1), Mul(r[hi - 1], x[hi - 1]))
  }

  lemma MulRightSwap(a: Complex, b: Complex, c: Complex)
    ensures Mul(Mul(a, c), b) == Mul(Mul(a, b), c)
  {
    RingLaws(a, c, b);
    RingLaws(c, b, ZERO);
    RingLaws(a, b, c);
  }

  lemma MulRightDistributes(d: Complex, t: Complex, c: Complex)
    ensures Mul(Add(d, t), c) == Add(Mul(d, c), Mul(t, c))
    ensures Mul(Sub(d, t), c) == Sub(Mul(d, c), Mul(t, c))
  {
    RingLaws(c, d, t);
    RingLaws(Add(d, t), c, ZERO);
    RingLaws(Sub(d, t), c, ZERO);
    RingLaws(d, c, ZERO);
    RingLaws(t, c, ZERO);
  }

  lemma {:induction false} DotExt(r: seq<Complex>, s: seq<Complex>, x: seq<Complex>, y: seq<Complex>, lo: nat, hi: nat)
    requires lo <= hi <= |r| && hi <= |s| && hi <= |x| && hi <= |y|
    requires forall q :: lo <= q < hi ==> r[q] == s[q] && x[q] == y[q]
    ensures Dot(r, x, lo, hi) == Dot(s, y, lo, hi)
    decreases hi - lo
  {
    if lo < hi {
      DotExt(r, s, x, y, lo, hi - 1);
    }
  }

  lemma {:induction false} DotZero(r: seq<Complex>, x: seq<Complex>, lo: nat, hi: nat)
    requires lo <= hi <= |r| && hi <= |x|
    requires forall q :: lo <= q < hi ==> r[q] == ZERO
    ensures Dot(r, x, lo, hi) == ZERO
    decreases hi - lo
  {
    if lo < hi {
      DotZero(r, x, lo, hi - 1);
    }
  }

  lemma {:induction false} DotSplit(r: seq<Complex>, x: seq<Complex>, lo: nat, mid: nat, hi: nat)
    requires lo <= mid <= hi <= |r| && hi <= |x|
    ensures Dot(r, x, lo, hi) == Add(Dot(r, x, lo, mid), Dot(r, x, mid, hi))
    decreases hi - mid
  {
    if mid < hi {
      DotSplit(r, x, lo, mid, hi - 1);
    }
  }

  /** Scaling every coefficient scales the combination. */
  lemma {:induction false} DotScale(r: seq<Complex>, s: seq<Complex>, x: seq<Complex>, c: Complex, lo: nat, hi: nat)
    requires lo <= hi <= |r| && hi <= |s| && hi <= |x|
    requires forall q :: lo <= q < hi ==> s[q] == Mul(r[q], c)
    ensures Dot(s, x, lo, hi) == Mul(Dot(r, x, lo, hi), c)
    decreases hi - lo
  {
    if lo < hi {
      DotScale(r, s, x, c, lo, hi - 1);
      MulRightSwap(r[hi - 1], x[hi - 1], c);
      MulRightDistributes(Dot(r, x, lo, hi - 1), Mul(r[hi - 1], x[hi - 1]), c);
    }
  }

  /** Subtracting f times row p subtracts f times its combination. */
  lemma {:induction false} DotEliminate(r: seq<Complex>, p: seq<Complex>, s: seq<Complex>, x: seq<Complex>, f: Complex, lo: nat, hi: nat)
    requires lo <= hi <= |r| && hi <= |p| && hi <= |s| && hi <= |x|
    requires forall q :: lo <= q < hi ==> s[q] == Sub(r[q], Mul(p[q], f))
    ensures Dot(s, x, lo, hi) == Sub(Dot(r, x, lo, hi), Mul(Dot(p, x, lo, hi), f))
    decreases hi - lo
  {
    if lo < hi {
      DotEliminate(r, p, s, x, f, lo, hi - 1);
      var q := hi - 1;
      MulRightDistributes(r[q], Mul(p[q], f), x[q]);
      MulRightSwap(p[q], x[q], f);
      MulRightDistributes(Dot(p, x, lo, q), Mul(p[q], x[q]), f);
    }
  }

  // ---------------------------------------------------------------------
  // Systems and the row operations that keep their solutions
  // ---------------------------------------------------------------------

  /** x solves the system whose augmented rows are m: n unknowns, the right-hand side in column n. */
  ghost predicate Solves(m: Grid, x: seq<Complex>, n: nat) {
    |x| == n && forall i :: 0 <= i < |m| ==> |m[i]| == n + 1 && Dot(m[i], x, 0, n) == m[i][n]
  }

  /** Every solution of m solves m0. */
  ghost predicate SolutionsKept(m0: Grid, m: Grid, n: nat) {
    forall x :: Solves(m, x, n) ==> Solves(m0, x, n)
  }

  lemma SwapSolves(m: Grid, a: nat, b: nat, x: seq<Complex>, n: nat)
    requires a < |m| && b < |m| && Solves(SwapRows(m, a, b), x, n)
    ensures Solves(m, x, n)
  {
    var t := SwapRows(m, a, b);
    forall i | 0 <= i < |m|
      ensures |m[i]| == n + 1 && Dot(m[i], x, 0, n) == m[i][n]
    {
      var s := if i == a then b else if i == b then a else i;
      assert t[s] == m[i];
    }
  }

  lemma ScaleSolves(m: Grid, t: Grid, k: nat, c: Complex, x: seq<Complex>, n: nat)
    requires k < |m| == |t| && c != ZERO && Solves(t, x, n) && |m[k]| == n + 1
    requires forall i :: 0 <= i < |m| && i != k ==> t[i] == m[i]
    requires forall j :: 0 <= j <= n ==> t[k][j] == Mul(m[k][j], c)
    ensures Solves(m, x, n)
  {
    DotScale(m[k], t[k], x, c, 0, n);
    MulCancel(Dot(m[k], x, 0, n), m[k][n], c);
    forall i | 0 <= i < |m|
      ensures |m[i]| == n + 1 && Dot(m[i], x, 0, n) == m[i][n]
    {
      if i != k {
        assert t[i] == m[i];
      }
    }
  }

  lemma EliminateSolves(m: Grid, t: Grid, row: nat, k: nat, f: Complex, x: seq<Complex>, n: nat)
    requires row < |m| == |t| && k < |m| && row != k && Solves(t, x, n) && |m[row]| == n + 1
    requires forall i :: 0 <= i < |m| && i != row ==> t[i] == m[i]
    requires forall j :: 0 <= j <= n ==> t[row][j] == Sub(m[row][j], Mul(m[k][j], f))
    ensures Solves(m, x, n)
  {
    assert t[k] == m[k];
    DotEliminate(m[row], m[k], t[row], x, f, 0, n);
    forall i | 0 <= i < |m|
      ensures |m[i]| == n + 1 && Dot(m[i], x, 0, n) == m[i][n]
    {
      if i != row {
        assert t[i] == m[i];
      }
    }
  }

  // ---------------------------------------------------------------------
  // Kernels: the vectors the coefficient columns send to zero
  // ---------------------------------------------------------------------

  /** The first n cells of every row of m, as coefficients, send x to zero. */
  ghost predicate Annihilates(m: Grid, x: seq<Complex>, n: nat) {
    |x| == n && forall i :: 0 <= i < |m| ==> n <= |m[i]| && Dot(m[i], x, 0, n) == ZERO
  }

  /** Only the zero vector is sent to zero: the first n columns of m are nonsingular. */
  ghost predicate TrivialKernel(m: Grid, n: nat) {
    forall x :: Annihilates(m, x, n) ==> forall j :: 0 <= j < n ==> x[j] == ZERO
  }

  /** m and m0 send the same vectors to zero. */
  ghost predicate SameKernel(m0: Grid, m: Grid, n: nat) {
    forall x :: Annihilates(m, x, n) <==> Annihilates(m0, x, n)
  }

  lemma {:induction false} DotZeroRight(r: seq<Complex>, x: seq<Complex>, lo: nat, hi: nat)
    requires lo <= hi <= |r| && hi <= |x|
    requires forall q :: lo <= q < hi ==> x[q] == ZERO
    ensures Dot(r, x, lo, hi) == ZERO
    decreases hi - lo
  {
    if lo < hi {
      DotZeroRight(r, x, lo, hi - 1);
    }
  }

  /** The right-hand side does not take part in the kernel. */
  lemma AugmentedKernel(a: Grid, b: Grid, n: nat)
    requires IsRect(a) && IsRect(b) && Shape(a, n, n) && |b| == n
    ensures SameKernel(a, ConcatRight(a, b), n)
  {
    var m0 := ConcatRight(a, b);
    forall x | |x| == n
      ensures Annihilates(m0, x, n) <==> Annihilates(a, x, n)
    {
      forall i | 0 <= i < |a|
        ensures Dot(a[i], x, 0, n) == Dot(m0[i], x, 0, n)
      {
        DotExt(a[i], m0[i], x, x, 0, n);
      }
    }
  }

  lemma SwapKernel(m: Grid, a: nat, b: nat, x: seq<Complex>, n: nat)
    requires a < |m| && b < |m| && forall i :: 0 <= i < |m| ==> n <= |m[i]|
    ensures Annihilates(SwapRows(m, a, b), x, n) <==> Annihilates(m, x, n)
  {
    var t := SwapRows(m, a, b);
    if Annihilates(t, x, n) {
      forall i | 0 <= i < |m|
        ensures Dot(m[i], x, 0, n) == ZERO
      {
        var s := if i == a then b else if i == b then a else i;
        assert t[s] == m[i];
      }
    }
    if Annihilates(m, x, n) {
      forall i | 0 <= i < |m|
        ensures Dot(t[i], x, 0, n) == ZERO
      {
        var s := if i == a then b else if i == b then a else i;
        assert t[i] == m[s];
      }
    }
  }

  lemma ScaleKernel(m: Grid, t: Grid, k: nat, c: Complex, x: seq<Complex>, n: nat)
    requires k < |m| == |t| && c != ZERO && forall i :: 0 <= i < |m| ==> n <= |m[i]| && n <= |t[i]|
    requires forall i :: 0 <= i < |m| && i != k ==> t[i] == m[i]
    requires forall j :: 0 <= j < n ==> t[k][j] == Mul(m[k][j], c)
    ensures Annihilates(t, x, n) <==> Annihilates(m, x, n)
  {
    if |x| == n {
      var d := Dot(m[k], x, 0, n);
      assert Dot(t[k], x, 0, n) == ZERO <==> d == ZERO by {
        DotScale(m[k], t[k], x, c, 0, n);
        assert Mul(ZERO, c) == ZERO;
        if Mul(d, c) == ZERO {
          MulCancel(d, ZERO, c);
        }
      }
      assert forall i :: 0 <= i < |m| && i != k ==> t[i] == m[i];
    }
  }

  lemma EliminateKernel(m: Grid, t: Grid, row: nat, k: nat, f: Complex, x: seq<Complex>, n: nat)
    requires row < |m| == |t| && k < |m| && row != k && Shape(m, |m|, n + 1) && Shape(t, |m|, n + 1)
    requires forall i :: 0 <= i < |m| && i != row ==> t[i] == m[i]
    requires forall j :: 0 <= j < n ==> t[row][j] == Sub(m[row][j], Mul(m[k][j], f))
    ensures Annihilates(t, x, n) <==> Annihilates(m, x, n)
  {
    if |x| == n && Dot(m[k], x, 0, n) == ZERO {
      assert Dot(t[row], x, 0, n) == Dot(m[row], x, 0, n) by {
        assert t[k] == m[k];
        DotEliminate(m[row], m[k], t[row], x, f, 0, n);
        assert Mul(ZERO, f) == ZERO;
      }
      assert forall i :: 0 <= i < |m| && i != row ==> t[i] == m[i];
    }
  }

  /**
   * The vector with one in place k, zero after it, and the places before
   * it filled from row i up by back substitution of the homogeneous
   * system: x[r] = -(m[r][r+1]·x[r+1] + ... + m[r][k]·x[k]).
   */
  function KernelFrom(m: Grid, n: nat, k: nat, i: nat): (x: seq<Complex>)
    requires Shape(m, n, n + 1) && i <= k < n
    ensures |x| == n
    decreases k - i
  {
    if i == k then seq(n, j => if j == k then ONE else ZERO)
    else
      var y := KernelFrom(m, n, k, i + 1);
      y[i := Negate(Dot(m[i], y, i + 1, k + 1))]
  }

  lemma {:induction false} KernelFromRows(m: Grid, n: nat, k: nat, i: nat)
    requires Shape(m, n, n + 1) && i <= k < n
    ensures var x := KernelFrom(m, n, k, i);
      x[k] == ONE && (forall j :: k < j < n ==> x[j] == ZERO)
      && forall r :: i <= r < k ==> Add(x[r], Dot(m[r], x, r + 1, k + 1)) == ZERO
    decreases k - i
  {
    if i < k {
      KernelFromRows(m, n, k, i + 1);
      var y := KernelFrom(m, n, k, i + 1);
      var x := KernelFrom(m, n, k, i);
      forall r | i <= r < k
        ensures Add(x[r], Dot(m[r], x, r + 1, k + 1)) == ZERO
      {
        DotExt(m[r], m[r], x, y, r + 1, k + 1);
        if r == i {
          var d := Dot(m[i], y, i + 1, k + 1);
          RingLaws(Negate(d), d, ZERO);
        }
      }
    }
  }

  /**
   * A reduction whose column k has nothing left from row k down has a
   * nonzero kernel vector: back substitution through the unit diagonal
   * above it.
   */
  lemma ZeroColumnKernel(m: Grid, n: nat, k: nat)
    requires Shape(m, n, n + 1) && k < n && Cleared(m, k)
    requires forall i :: 0 <= i < k ==> m[i][i] == ONE
    requires forall i :: k <= i < n ==> m[i][k] == ZERO
    ensures !TrivialKernel(m, n)
  {
    var x := KernelFrom(m, n, k, 0);
    KernelFromRows(m, n, k, 0);
    forall i | 0 <= i < n
      ensures Dot(m[i], x, 0, n) == ZERO
    {
      DotSplit(m[i], x, 0, k + 1, n);
      DotZeroRight(m[i], x, k + 1, n);
      var low := Dot(m[i], x, 0, k + 1);
      if i < k {
        DotSplit(m[i], x, 0, i + 1, k + 1);
        DotZero(m[i], x, 0, i);
        RingLaws(x[i], ZERO, ZERO);
        assert Dot(m[i], x, 0, i + 1) == x[i];
      } else {
        DotZero(m[i], x, 0, k + 1);
      }
      RingLaws(low, ZERO, ZERO);
    }
    assert Annihilates(m, x, n);
  }

  /** An upper-triangular reduction with no zero on its diagonal sends only zero to zero. */
  lemma UpperKernel(m: Grid, n: nat)
    requires Shape(m, n, n + 1) && Cleared(m, n)
    requires forall i :: 0 <= i < n ==> m[i][i] != ZERO
    ensures TrivialKernel(m, n)
  {
    forall x | Annihilates(m, x, n)
      ensures forall j :: 0 <= j < n ==> x[j] == ZERO
    {
      UpperKernelFrom(m, n, x, 0);
    }
  }

  lemma {:induction false} UpperKernelFrom(m: Grid, n: nat, x: seq<Complex>, i: nat)
    requires Shape(m, n, n + 1) && Cleared(m, n) && i <= n && Annihilates(m, x, n)
    requires forall r :: 0 <= r < n ==> m[r][r] != ZERO
    ensures forall j :: i <= j < n ==> x[j] == ZERO
    decreases n - i
  {
    if i < n {
      UpperKernelFrom(m, n, x, i + 1);
      var d := Dot(m[i], x, 0, i + 1);
      assert d == ZERO by {
        assert Dot(m[i], x, 0, n) == ZERO;
        DotSplit(m[i], x, 0, i + 1, n);
        DotZeroRight(m[i], x, i + 1, n);
      }
      assert d == Mul(m[i][i], x[i]) by {
        assert forall j :: 0 <= j < i ==> m[i][j] == ZERO;
        DotZero(m[i], x, 0, i);
      }
      assert x[i] == ZERO by {
        RingLaws(x[i], m[i][i], ZERO);
        ZeroProduct(x[i], m[i][i]);
      }
    }
  }

  // ---------------------------------------------------------------------
  // Forward elimination
  // ---------------------------------------------------------------------

  /** The columns before k are zero below the diagonal. */
  ghost predicate Cleared(m: Grid, k: nat) {
    forall i, j :: 0 <= j < k && j < i < |m| && j < |m[i]| ==> m[i][j] == ZERO
  }

  /**
   * A column with no pivot made getMaxRowNumber answer row 0, and the
   * exchange put a row starting with zero at the top, where it stays: back
   * substitution will divide by that zero.
   */
  ghost predicate Stalled(m: Grid, k: nat) {
    1 <= k && |m| > 0 && |m[0]| > 0 && m[0][0] == ZERO
    && forall i :: k <= i < |m| && |m[i]| > 0 ==> m[i][0] == ZERO
  }

  /** The rows before k have been normalised: one on the diagonal. */
  ghost predicate UnitBefore(m: Grid, k: nat) {
    forall i :: 0 <= i < k && i < |m| && i < |m[i]| ==> m[i][i] == ONE
  }

  /**
   * m reduces the system m0 up to column k: upper triangular there, with
   * unit pivots, keeping the solutions and the kernel of m0.
   */
  ghost predicate Reducing(m0: Grid, m: Grid, n: nat, k: nat) {
    Cleared(m, k) && SolutionsKept(m0, m, n) && SameKernel(m0, m, n) && UnitBefore(m, k)
  }

  /** The state before column k: either a reduction of the system m0, or stalled. */
  ghost predicate Forward(m0: Grid, m: Grid, n: nat, k: nat) {
    Shape(m, n, n + 1) && (Reducing(m0, m, n, k) || Stalled(m, k))
  }

  /** Two systems with the same kernel are nonsingular together. */
  lemma KernelShared(m0: Grid, m: Grid, n: nat)
    requires SameKernel(m0, m, n)
    ensures TrivialKernel(m0, n) <==> TrivialKernel(m, n)
  {
  }

  lemma SwapKeepsCleared(m0: Grid, m: Grid, n: nat, k: nat, p: nat)
    requires Shape(m, n, n + 1) && k <= p < n && Reducing(m0, m, n, k)
    ensures Reducing(m0, SwapRows(m, k, p), n, k)
    ensures forall j :: 0 <= j < k ==> SwapRows(m, k, p)[k][j] == ZERO
  {
    var s := SwapRows(m, k, p);
    forall x | Solves(s, x, n)
      ensures Solves(m0, x, n)
    {
      SwapSolves(m, k, p, x, n);
    }
    forall x
      ensures Annihilates(s, x, n) <==> Annihilates(m0, x, n)
    {
      SwapKernel(m, k, p, x, n);
    }
    assert forall i :: 0 <= i < k ==> s[i] == m[i];
    forall i, j | 0 <= j < k && j < i < |s| && j < |s[i]|
      ensures s[i][j] == ZERO
    {
      var o := if i == k then p else if i == p then k else i;
      assert s[i] == m[o];
    }
  }

  lemma SwapStalls(m: Grid, n: nat, k: nat, p: nat)
    requires Shape(m, n, n + 1) && 1 <= k < n && p < n && (p == 0 || k <= p)
    requires Stalled(m, k) || (Cleared(m, k) && p == 0)
    ensures Stalled(SwapRows(m, k, p), k + 1)
  {
    var s := SwapRows(m, k, p);
    assert s[0][0] == ZERO by {
      if p == 0 {
        assert s[0] == m[k];
      }
    }
    forall i | k + 1 <= i < |s| && |s[i]| > 0
      ensures s[i][0] == ZERO
    {
      if i == p {
        assert s[i] == m[k];
      } else {
        assert s[i] == m[i];
      }
    }
  }

  lemma NormalizeKeeps(m0: Grid, s: Grid, u: Grid, n: nat, k: nat, c: Complex)
    requires Shape(s, n, n + 1) && 1 <= n && k < n && Reducing(m0, s, n, k)
    requires forall j :: 0 <= j < k ==> s[k][j] == ZERO
    requires s[k][k] != ZERO && c == Inv(s[k][k]).value
    requires Shape(u, n, n + 1) && forall i :: 0 <= i < n && i != k ==> u[i] == s[i]
    requires forall j :: 0 <= j <= n ==> u[k][j] == if j < k then s[k][j] else Mul(s[k][j], c)
    ensures Cleared(u, k) && SolutionsKept(m0, u, n) && SameKernel(m0, u, n) && UnitBefore(u, k + 1)
    ensures u[k][k] == ONE && forall j :: 0 <= j < k ==> u[k][j] == ZERO
  {
    assert c != ZERO && u[k][k] == ONE by {
      InvDiv(ONE, s[k][k]);
      RingLaws(s[k][k], c, ZERO);
    }
    forall j | 0 <= j < n
      ensures u[k][j] == Mul(s[k][j], c)
    {
      if j < k {
        assert Mul(ZERO, c) == ZERO;
      }
    }
    forall x | Solves(u, x, n)
      ensures Solves(m0, x, n)
    {
      ScaleSolves(s, u, k, c, x, n);
    }
    forall x
      ensures Annihilates(u, x, n) <==> Annihilates(m0, x, n)
    {
      ScaleKernel(s, u, k, c, x, n);
    }
  }

  lemma EliminationKeeps(m0: Grid, t: Grid, t': Grid, n: nat, k: nat, row: nat)
    requires Shape(t, n, n + 1) && k < row < n && Cleared(t, k) && SolutionsKept(m0, t, n)
    requires SameKernel(m0, t, n) && UnitBefore(t, k + 1)
    requires t[k][k] == ONE && forall j :: 0 <= j < k ==> t[k][j] == ZERO
    requires forall i :: k < i < row ==> t[i][k] == ZERO
    requires Shape(t', n, n + 1) && forall i :: 0 <= i < n && i != row ==> t'[i] == t[i]
    requires forall j :: 0 <= j <= n ==>
      t'[row][j] == if j < k then t[row][j] else Sub(t[row][j], Mul(t[k][j], t[row][k]))
    ensures Cleared(t', k) && SolutionsKept(m0, t', n) && SameKernel(m0, t', n) && UnitBefore(t', k + 1)
    ensures forall i :: k < i < row + 1 ==> t'[i][k] == ZERO
  {
    var f := t[row][k];
    forall j | 0 <= j <= n
      ensures t'[row][j] == Sub(t[row][j], Mul(t[k][j], f))
    {
      if j < k {
        assert Mul(t[k][j], f) == ZERO;
      }
    }
    forall x | Solves(t', x, n)
      ensures Solves(m0, x, n)
    {
      EliminateSolves(t, t', row, k, f, x, n);
    }
    forall x
      ensures Annihilates(t', x, n) <==> Annihilates(m0, x, n)
    {
      EliminateKernel(t, t', row, k, f, x, n);
    }
    assert t'[row][k] == ZERO by {
      assert Mul(ONE, f) == f;
    }
  }

  /** The rows below k: row -= (row's entry in column k) · row k, from column k on. */
  method EliminateBelow(ghost m0: Grid, m: Grid, n: nat, k: nat, ghost clean: bool) returns (t: Grid)
    requires Shape(m, n, n + 1) && 1 <= n && k < n
    requires clean ==> Cleared(m, k) && SolutionsKept(m0, m, n) && SameKernel(m0, m, n) && UnitBefore(m, k + 1)
    requires clean ==> m[k][k] == ONE && forall j :: 0 <= j < k ==> m[k][j] == ZERO
    requires !clean ==> 1 <= k && Stalled(m, k + 1)
    ensures Shape(t, n, n + 1)
    ensures clean ==> Reducing(m0, t, n, k + 1)
    ensures !clean ==> Stalled(t, k + 1)
  {
    t := m;
    var row := k + 1;
    while row < n
      invariant k + 1 <= row <= n
      invariant Shape(t, n, n + 1) && t[k] == m[k]
      invariant clean ==> Cleared(t, k) && SolutionsKept(m0, t, n) && SameKernel(m0, t, n) && UnitBefore(t, k + 1)
      invariant clean ==> forall i :: k < i < row ==> t[i][k] == ZERO
      invariant !clean ==> Stalled(t, k + 1)
    {
      ShapeRect(t, n, n + 1);
      var temp := t[row][k];
      var t' := Elimination.EliminateRow(t, row, k, k, temp);
      if clean {
        EliminationKeeps(m0, t, t', n, k, row);
      } else {
        assert t'[0] == t[0];
        assert t'[row][0] == t[row][0];
      }
      t := t';
      row := row + 1;
    }
  }

  /** One pass of the forward loop: pivot search, exchange, normalisation, elimination. */
  method ForwardStep(ghost m0: Grid, m: Grid, n: nat, k: nat) returns (ok: bool, t: Grid)
    requires 2 <= n && k < n - 1 && Forward(m0, m, n, k)
    ensures ok ==> Forward(m0, t, n, k + 1)
    ensures Reducing(m0, m, n, k) && TrivialKernel(m0, n) ==> ok && Reducing(m0, t, n, k + 1)
  {
    ghost var clean := Reducing(m0, m, n, k);
    ShapeRect(m, n, n + 1);
    var r := Elimination.MaxRowNumber(m, k, k, 0);
    if clean && r.max == 0.0 {
      ZeroColumnKernel(m, n, k);
      KernelShared(m0, m, n);
    }
    var s := SwapRows(m, k, r.index);
    var c := Inv(s[k][k]);
    if c.None? {
      return false, s;
    }
    ghost var next := clean && r.max != 0.0;
    if next {
      SwapKeepsCleared(m0, m, n, k, r.index);
    } else {
      SwapStalls(m, n, k, r.index);
    }
    ShapeRect(s, n, n + 1);
    var u := Elimination.ScaleRow(s, k, k, c.value);
    if next {
      NormalizeKeeps(m0, s, u, n, k, c.value);
    } else {
      assert u[0] == s[0];
    }
    t := EliminateBelow(m0, u, n, k, next);
    ok := true;
  }

  // ---------------------------------------------------------------------
  // Back substitution
  // ---------------------------------------------------------------------

  /** Row i holds once the unknowns from i on are known: m[i][i]·x[i] + Σ_{j>i} m[i][j]·x[j] == m[i][n]. */
  ghost predicate RowSolved(m: Grid, x: seq<Complex>, n: nat, i: nat) {
    i < |m| && i < n && |m[i]| == n + 1 && |x| == n
    && Add(Mul(m[i][i], x[i]), Dot(m[i], x, i + 1, n)) == m[i][n]
  }

  lemma SubstitutionStep(m: Grid, x: seq<Complex>, y: seq<Complex>, n: nat, r: nat, q: Complex, acc: Complex)
    requires Shape(m, n, n + 1) && r < n && |x| == n && y == x[r := q]
    requires forall i :: r < i < n ==> RowSolved(m, x, n, i)
    requires acc == Sub(m[r][n], Dot(m[r], x, r + 1, n))
    requires Mul(q, m[r][r]) == acc
    ensures forall i :: r <= i < n ==> RowSolved(m, y, n, i)
  {
    PivotRowSolved(m, x, y, n, r, q, acc);
    forall i | r < i < n
      ensures RowSolved(m, y, n, i)
    {
      LaterRowSolved(m, x, y, n, r, i);
    }
  }

  lemma LaterRowSolved(m: Grid, x: seq<Complex>, y: seq<Complex>, n: nat, r: nat, i: nat)
    requires r < i && RowSolved(m, x, n, i) && |y| == n
    requires forall q :: r < q < n ==> y[q] == x[q]
    ensures RowSolved(m, y, n, i)
  {
    DotExt(m[i], m[i], x, y, i + 1, n);
  }

  lemma PivotRowSolved(m: Grid, x: seq<Complex>, y: seq<Complex>, n: nat, r: nat, q: Complex, acc: Complex)
    requires Shape(m, n, n + 1) && r < n && |x| == n && y == x[r := q]
    requires acc == Sub(m[r][n], Dot(m[r], x, r + 1, n))
    requires Mul(q, m[r][r]) == acc
    ensures RowSolved(m, y, n, r)
  {
    var rest := Dot(m[r], x, r + 1, n);
    SolvedPivot(m[r][r], q, acc, m[r][n], rest);
    DotExt(m[r], m[r], x, y, r + 1, n);
    assert y[r] == q;
  }

  lemma SolvedPivot(p: Complex, q: Complex, acc: Complex, rhs: Complex, rest: Complex)
    requires Mul(q, p) == acc && acc == Sub(rhs, rest)
    ensures Add(Mul(p, q), rest) == rhs
  {
    RingLaws(q, p, ZERO);
  }

  method BackSubstitute(m: Grid, n: nat) returns (y: Option<seq<Complex>>)
    requires Shape(m, n, n + 1) && 1 <= n
    ensures y.Some? <==> forall i :: 0 <= i < n ==> m[i][i] != ZERO
    ensures y.Some? ==> |y.value| == n && forall i :: 0 <= i < n ==> RowSolved(m, y.value, n, i)
  {
    var x := seq(n, _ => ZERO);
    var last := Div(m[n - 1][n], m[n - 1][n - 1]);
    if last.None? {
      return None;
    }
    DivRoundTrip(m[n - 1][n], m[n - 1][n - 1]);
    SubstitutionStep(m, x, x[n - 1 := last.value], n, n - 1, last.value, m[n - 1][n]);
    x := x[n - 1 := last.value];
    var row := n - 1;
    while row > 0
      invariant 0 <= row <= n - 1 && |x| == n
      invariant forall i :: row <= i < n ==> RowSolved(m, x, n, i)
      invariant forall i :: row <= i < n ==> m[i][i] != ZERO
    {
      var r := row - 1;
      var acc := m[r][n];
      var j := r + 1;
      while j < n
        invariant r + 1 <= j <= n
        invariant acc == Sub(m[r][n], Dot(m[r], x, r + 1, j))
      {
        acc := Sub(acc, Mul(m[r][j], x[j]));
        j := j + 1;
      }
      var d := Div(acc, m[r][r]);
      if d.None? {
        return None;
      }
      DivRoundTrip(acc, m[r][r]);
      SubstitutionStep(m, x, x[r := d.value], n, r, d.value, acc);
      x := x[r := d.value];
      row := r;
    }
    return Some(x);
  }

  /** An upper-triangular system solved row by row is solved. */
  lemma UpperSolves(m: Grid, x: seq<Complex>, n: nat)
    requires Shape(m, n, n + 1) && |x| == n && Cleared(m, n)
    requires forall i :: 0 <= i < n ==> RowSolved(m, x, n, i)
    ensures Solves(m, x, n)
  {
    forall i | 0 <= i < n
      ensures Dot(m[i], x, 0, n) == m[i][n]
    {
      assert RowSolved(m, x, n, i);
      DotSplit(m[i], x, 0, i + 1, n);
      DotZero(m[i], x, 0, i);
    }
  }

  lemma ClearedLast(m: Grid, n: nat)
    requires Shape(m, n, n + 1) && 1 <= n && Cleared(m, n - 1)
    ensures Cleared(m, n)
  {
  }

  lemma {:induction false} RowColumnDot(a: Grid, x: Grid, y: seq<Complex>, i: nat, k: nat)
    requires IsRect(x) && Cols(x) == 1 && i < |a| && k <= |x| && k <= |a[i]| && k <= |y|
    requires forall q :: 0 <= q < k ==> x[q][0] == y[q]
    ensures RowColumn(a, x, i, 0, k) == Dot(a[i], y, 0, k)
  {
    if k > 0 {
      RowColumnDot(a, x, y, i, k - 1);
    }
  }

  lemma SolutionProduct(a: Grid, b: Grid, y: seq<Complex>, x: Grid, n: nat)
    requires IsRect(a) && IsRect(b) && Shape(a, n, n) && Shape(b, n, 1) && n >= 1
    requires Solves(ConcatRight(a, b), y, n)
    requires Shape(x, n, 1) && forall q :: 0 <= q < n ==> x[q][0] == y[q]
    ensures IsRect(x) && Cols(a) == |x| && MatMul(a, x) == b
  {
    var m0 := ConcatRight(a, b);
    ShapeRect(x, n, 1);
    var p := MatMul(a, x);
    forall i | 0 <= i < n
      ensures p[i] == b[i]
    {
      RowColumnDot(a, x, y, i, n);
      DotExt(a[i], m0[i], y, y, 0, n);
      assert m0[i][n] == b[i][0];
    }
  }

  // ---------------------------------------------------------------------
  // linsolve
  // ---------------------------------------------------------------------

  method Linsolve(a: Grid, b: Grid) returns (res: Result<Grid>)
    requires IsRect(a) && IsRect(b)
    ensures (res.Err? && res.msg == SIZE_ERROR) <==> (|a| != Cols(a) || |b| != |a| || Cols(b) != 1)
    ensures res.Err? ==> res.msg == SIZE_ERROR || res.msg == NON_FINITE
    ensures res.Ok? ==> IsRect(res.value) && Shape(res.value, |a|, 1) && Cols(a) == |res.value|
    ensures res.Ok? ==> MatMul(a, res.value) == b
    ensures res.Ok? <==> |a| == Cols(a) && |b| == |a| && Cols(b) == 1 && TrivialKernel(a, |a|)
  {
    if |a| != Cols(a) {
      return Err(SIZE_ERROR);
    }
    if |b| != |a| || Cols(b) > 1 {
      return Err(SIZE_ERROR);
    }
    var n := |a|;
    var m := ConcatRight(a, b);
    ghost var m0 := m;
    AugmentedKernel(a, b, n);
    KernelShared(a, m0, n);
    var k := 0;
    while k < n - 1
      invariant 0 <= k <= n - 1
      invariant Forward(m0, m, n, k)
      invariant TrivialKernel(a, n) ==> Reducing(m0, m, n, k)
    {
      var ok: bool;
      ok, m := ForwardStep(m0, m, n, k);
      if !ok {
        return Err(NON_FINITE);
      }
      k := k + 1;
    }
    if Reducing(m0, m, n, n - 1) && m[n - 1][n - 1] == ZERO {
      ZeroColumnKernel(m, n, n - 1);
      KernelShared(m0, m, n);
    }
    var y := BackSubstitute(m, n);
    if y.None? {
      return Err(NON_FINITE);
    }
    ClearedLast(m, n);
    UpperSolves(m, y.value, n);
    UpperKernel(m, n);
    KernelShared(m0, m, n);
    var x := seq(n, i requires 0 <= i < n => [y.value[i]]);
    SolutionProduct(a, b, y.value, x, n);
    return Ok(x);
  }
}
