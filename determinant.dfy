/**
 * det of LinearAlgebra: below size 5 a cofactor expansion down the first
 * column, from size 5 on the product of the diagonal of U from lup, negated
 * when the permutation counts an odd number of exchanges.
 */
module Determinant {
  import opened Wrappers
  import opened ComplexNum
  import opened Grid
  import Measures
  import Decomposition
  import Products

  const NOT_SQUARE: string := "not square"

  /** Every row as long as the number of rows (the empty grid included). */
  predicate IsSquare(x: Grid) {
    forall r :: 0 <= r < |x| ==> |x[r]| == |x|
  }

  /** D of calcDet: the rows other than i, each without its first column. */
  function Minor(x: Grid, i: nat): (d: Grid)
    requires IsSquare(x) && i < |x|
    ensures |d| == |x| - 1 && IsSquare(d)
    ensures forall r, c :: 0 <= r < |d| && 0 <= c < |d| ==> d[r][c] == x[if r < i then r else r + 1][c + 1]
  {
    seq(|x| - 1, r requires 0 <= r < |x| - 1 => x[if r < i then r else r + 1][1..])
  }

  // ---------------------------------------------------------------------
  // calcDet as written: the 2×2 cross product is its only base case
  // ---------------------------------------------------------------------

  function DetAsWritten(x: Grid): Complex
    requires IsSquare(x)
    decreases |x|, 1
  {
    if |x| == 2 then Sub(Mul(x[0][0], x[1][1]), Mul(x[0][1], x[1][0]))
    else ExpansionAsWritten(x, |x|)
  }

  /** The first n signed terms x[i][0]·det(D_i), added for even i, subtracted for odd i. */
  function ExpansionAsWritten(x: Grid, n: nat): Complex
    requires IsSquare(x) && n <= |x|
    decreases |x|, 0, n
  {
    if n == 0 then ZERO
    else
      var y := ExpansionAsWritten(x, n - 1);
      var t := Mul(x[n - 1][0], DetAsWritten(Minor(x, n - 1)));
      if (n - 1) % 2 == 0 then Add(y, t) else Sub(y, t)
  }

  /**
   * A 1×1 matrix reaches the loop, whose only term multiplies its entry by
   * calcDet of the empty grid, which is ZERO: det([a]) comes out 0 for every a.
   */
  lemma DetAsWrittenOneByOne(x: Grid)
    requires |x| == 1 && |x[0]| == 1
    ensures DetAsWritten(x) == ZERO
  {
    var d := Minor(x, 0);
    assert DetAsWritten(d) == ZERO by {
      assert |d| == 0;
    }
    var t := Mul(x[0][0], DetAsWritten(d));
    assert t == ZERO;
    assert ExpansionAsWritten(x, 1) == Add(ExpansionAsWritten(x, 0), t);
  }

  // ---------------------------------------------------------------------
  // The expansion with the 1×1 base case
  // ---------------------------------------------------------------------

  function CofactorDet(x: Grid): Complex
    requires IsSquare(x)
    decreases |x|, 1
  {
    if |x| == 1 then x[0][0]
    else if |x| == 2 then Sub(Mul(x[0][0], x[1][1]), Mul(x[0][1], x[1][0]))
    else Expansion(x, |x|)
  }

  function Expansion(x: Grid, n: nat): Complex
    requires IsSquare(x) && n <= |x|
    decreases |x|, 0, n
  {
    if n == 0 then ZERO
    else
      var y := Expansion(x, n - 1);
      var t := Mul(x[n - 1][0], CofactorDet(Minor(x, n - 1)));
      if (n - 1) % 2 == 0 then Add(y, t) else Sub(y, t)
  }

  /** calcDet: recursive on the minors, one loop over the rows. */
  method CalcDet(x: Grid) returns (y: Complex)
    requires IsSquare(x)
    ensures y == CofactorDet(x)
    decreases |x|
  {
    if |x| == 1 {
      return x[0][0];
    }
    if |x| == 2 {
      return Sub(Mul(x[0][0], x[1][1]), Mul(x[0][1], x[1][0]));
    }
    y := ZERO;
    var i := 0;
    while i < |x|
      invariant 0 <= i <= |x|
      invariant y == Expansion(x, i)
    {
      var d := Minor(x, i);
      var a := x[i][0];
      var sub := CalcDet(d);
      if i % 2 == 0 {
        y := Add(y, Mul(a, sub));
      } else {
        y := Sub(y, Mul(a, sub));
      }
      i := i + 1;
    }
  }

  /** prod of the diagonal: ONE multiplied by x[0][0], ..., x[n-1][n-1] in turn. */
  function DiagonalProduct(x: Grid, n: nat): Complex
    requires n <= |x| && forall i :: 0 <= i < n ==> i < |x[i]|
  {
    if n == 0 then ONE else Mul(DiagonalProduct(x, n - 1), x[n - 1][n - 1])
  }

  lemma {:induction false} ShiftProduct(x: Grid, m: Grid, k: nat)
    requires IsSquare(x) && IsSquare(m) && |m| + 1 == |x| && k < |x|
    requires forall i :: 0 <= i < k ==> m[i][i] == x[i + 1][i + 1]
    ensures Mul(x[0][0], DiagonalProduct(m, k)) == DiagonalProduct(x, k + 1)
  {
    if k == 0 {
      RingLaws(x[0][0], ONE, ZERO);
      RingLaws(ONE, x[0][0], ZERO);
    } else {
      ShiftProduct(x, m, k - 1);
      var p := DiagonalProduct(m, k - 1);
      RingLaws(x[0][0], p, m[k - 1][k - 1]);
    }
  }

  /** Terms below the first row of an upper-triangular matrix vanish. */
  lemma {:induction false} ExpansionUpper(x: Grid, n: nat)
    requires IsSquare(x) && 1 <= n <= |x|
    requires forall i :: 1 <= i < |x| ==> x[i][0] == ZERO
    ensures Expansion(x, n) == Mul(x[0][0], CofactorDet(Minor(x, 0)))
  {
    var y := Expansion(x, n - 1);
    var t := Mul(x[n - 1][0], CofactorDet(Minor(x, n - 1)));
    assert Expansion(x, n) == if (n - 1) % 2 == 0 then Add(y, t) else Sub(y, t);
    if n == 1 {
      assert y == ZERO;
    } else {
      ExpansionUpper(x, n - 1);
      assert t == ZERO;
    }
  }

  /** The determinant of an upper-triangular matrix is the product of its diagonal. */
  lemma {:induction false} DetUpperTriangular(x: Grid)
    requires IsSquare(x) && |x| >= 1
    requires forall i, j :: 0 <= j < i < |x| ==> x[i][j] == ZERO
    ensures CofactorDet(x) == DiagonalProduct(x, |x|)
    decreases |x|
  {
    var n := |x|;
    if n == 1 {
      assert DiagonalProduct(x, 1) == Mul(ONE, x[0][0]);
    } else if n == 2 {
      assert Mul(x[0][1], x[1][0]) == ZERO;
      assert DiagonalProduct(x, 1) == Mul(ONE, x[0][0]) == x[0][0];
      assert DiagonalProduct(x, 2) == Mul(x[0][0], x[1][1]);
    } else {
      var m := Minor(x, 0);
      forall i, j | 0 <= j < i < |m|
        ensures m[i][j] == ZERO
      {
        assert m[i][j] == x[i + 1][j + 1];
      }
      DetUpperTriangular(m);
      ExpansionUpper(x, n);
      ShiftProduct(x, m, n - 1);
    }
  }

  /** det(eye(n)) = 1. */
  lemma DetIdentity(x: Grid)
    requires IsSquare(x) && |x| >= 1
    requires forall i, j :: 0 <= i < |x| && 0 <= j < |x| ==> x[i][j] == if i == j then ONE else ZERO
    ensures CofactorDet(x) == ONE
  {
    DetUpperTriangular(x);
    DiagonalOnes(x, |x|);
  }

  lemma {:induction false} DiagonalOnes(x: Grid, n: nat)
    requires IsSquare(x) && n <= |x|
    requires forall i :: 0 <= i < n ==> x[i][i] == ONE
    ensures DiagonalProduct(x, n) == ONE
  {
    if n > 0 {
      DiagonalOnes(x, n - 1);
    }
  }

  /** The extra base case changes nothing from size 2 on. */
  lemma {:induction false} CofactorDetAgrees(x: Grid)
    requires IsSquare(x) && |x| >= 2
    ensures CofactorDet(x) == DetAsWritten(x)
    decreases |x|, 1
  {
    if |x| > 2 {
      ExpansionAgrees(x, |x|);
    }
  }

  lemma {:induction false} ExpansionAgrees(x: Grid, n: nat)
    requires IsSquare(x) && |x| >= 3 && n <= |x|
    ensures Expansion(x, n) == ExpansionAsWritten(x, n)
    decreases |x|, 0, n
  {
    if n > 0 {
      ExpansionAgrees(x, n - 1);
      CofactorDetAgrees(Minor(x, n - 1));
    }
  }

  /** test/LinearAlgebra.js: det([6 2; 1 4]) = 22. */
  lemma DetTwoByTwo(x: Grid)
    requires x == [[Measures.R(6.0), Measures.R(2.0)], [Measures.R(1.0), Measures.R(4.0)]]
    ensures CofactorDet(x) == Measures.R(22.0)
  {
  }

  /** Exchanging the two rows of a 2×2 matrix negates the determinant. */
  lemma DetRowExchange(a: Complex, b: Complex, c: Complex, d: Complex)
    ensures CofactorDet([[c, d], [a, b]]) == Negate(CofactorDet([[a, b], [c, d]]))
  {
  }

  // ---------------------------------------------------------------------
  // det
  // ---------------------------------------------------------------------

  /** JavaScript's x % 2 === 1: x minus twice the quotient truncated toward zero. */
  predicate IsOddCount(x: real) {
    var q := x / 2.0;
    var t := if q >= 0.0 then q.Floor else -((-q).Floor);
    x - 2.0 * (t as real) == 1.0
  }

  /** (len - trace(P)) / 2: half the rows that P moves. */
  function ExchangeCount(p: Grid): real
    requires IsRect(p)
  {
    (|p| as real - Measures.TraceOf(p).re) / 2.0
  }

  /** The large-size value: the diagonal of U multiplied out, negated for an odd count. */
  function LupDet(p: Grid, u: Grid): Complex
    requires IsRect(p) && |u| <= |p| && forall i :: 0 <= i < |u| ==> i < |u[i]|
  {
    var y := DiagonalProduct(u, |u|);
    if IsOddCount(ExchangeCount(p)) then Negate(y) else y
  }

  /** One-element odd counts and even counts, as the source's test reads them. */
  lemma ExchangeParity(k: nat)
    ensures IsOddCount(2.0 * k as real + 1.0) && !IsOddCount(2.0 * k as real)
  {
    var x := 2.0 * k as real + 1.0;
    assert (x / 2.0).Floor == k;
    assert ((2.0 * k as real) / 2.0).Floor == k;
  }

  /** The number of i < k that perm leaves in place. */
  function FixedPoints(perm: seq<nat>, k: nat): nat
    requires k <= |perm|
  {
    if k == 0 then 0 else FixedPoints(perm, k - 1) + (if perm[k - 1] == k - 1 then 1 else 0)
  }

  lemma {:induction false} TraceCounts(p: Grid, perm: seq<nat>, k: nat)
    requires Decomposition.PermutationOf(p, perm) && k <= |perm|
    ensures Products.Sum(Measures.DiagonalTerms(p), k) == Complex(FixedPoints(perm, k) as real, 0.0)
  {
    if k > 0 {
      TraceCounts(p, perm, k - 1);
      assert Measures.DiagonalTerms(p)(k - 1) == p[k - 1][k - 1];
    }
  }

  /** The trace of a permutation matrix counts its fixed points, so the exchange count is half the moved rows. */
  lemma ExchangeCountMoved(p: Grid, perm: seq<nat>)
    requires Decomposition.PermutationOf(p, perm) && |perm| > 0
    ensures IsRect(p) && ExchangeCount(p) == (|perm| - FixedPoints(perm, |perm|)) as real / 2.0
  {
    TraceCounts(p, perm, |perm|);
  }

  /** A single exchange of two rows moves two rows: the count is 1 and the sign flips. */
  lemma SingleExchangeNegates(p: Grid, perm: seq<nat>, a: nat, b: nat)
    requires Decomposition.PermutationOf(p, perm) && a < b < |perm|
    requires perm[a] == b && perm[b] == a && forall i :: 0 <= i < |perm| && i != a && i != b ==> perm[i] == i
    ensures IsRect(p) && ExchangeCount(p) == 1.0 && IsOddCount(ExchangeCount(p))
  {
    ExchangeCountMoved(p, perm);
    MovedTwo(perm, a, b, |perm|);
    ExchangeParity(0);
  }

  lemma {:induction false} MovedTwo(perm: seq<nat>, a: nat, b: nat, k: nat)
    requires a < b < |perm| && k <= |perm|
    requires perm[a] == b && perm[b] == a && forall i :: 0 <= i < |perm| && i != a && i != b ==> perm[i] == i
    ensures FixedPoints(perm, k) == k - (if b < k then 2 else if a < k then 1 else 0)
  {
    if k > 0 {
      MovedTwo(perm, a, b, k - 1);
    }
  }

  method Det(m: Grid) returns (res: Result<Complex>, ghost l: Grid, ghost u: Grid, ghost p: Grid)
    requires IsRect(m)
    ensures res.Err? <==> |m| != Cols(m)
    ensures res.Err? ==> res.msg == NOT_SQUARE
    ensures |m| == Cols(m) && |m| < 5 ==> res == Ok(CofactorDet(m))
    ensures |m| == Cols(m) && |m| >= 5 ==>
      IsRect(l) && IsRect(u) && IsRect(p) && |u| == |m| == |p| && Cols(u) == |m|
      && (forall i, j :: 0 <= j < i < |m| ==> u[i][j] == ZERO)
      && Cols(p) == |m| && Cols(l) == |u| && MatMul(p, m) == MatMul(l, u)
      && res == Ok(LupDet(p, u))
  {
    l, u, p := [], [], [];
    if |m| != Cols(m) {
      return Err(NOT_SQUARE), l, u, p;
    }
    var len := |m|;
    assert IsSquare(m);
    if len < 5 {
      var y := CalcDet(m);
      return Ok(y), l, u, p;
    }
    var l0, u0, p0, perm, inv := Decomposition.Lup(m);
    l, u, p := l0, u0, p0;
    var trace := Measures.Trace(p0);
    var exchangeCount := (len as real - trace.re) / 2.0;
    var y := DiagonalProduct(u0, len);
    if IsOddCount(exchangeCount) {
      y := Negate(y);
    }
    res := Ok(y);
  }
}
