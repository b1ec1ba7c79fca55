/**
 * The sign rule of det for sizes 5 and up. The source counts the row
 * exchanges of the LUP factorization as (len − trace P) / 2, half the rows
 * that P moves. That is the number of exchanges only when P is made of
 * disjoint exchanges: three exchanges 0↔1, 1↔2, 2↔3 move four rows, so the
 * count is 2 and the sign is not flipped.
 *
 * The corrected rule takes the parity of the permutation from its
 * inversions, and every exchange of two neighbouring rows flips it.
 */
module DeterminantFindings {
  import opened ComplexNum
  import opened Grid
  import Decomposition
  import Determinant

  /** perm with positions a and b exchanged: one row exchange of lup. */
  function Exchanged(perm: seq<nat>, a: nat, b: nat): (q: seq<nat>)
    requires a < |perm| && b < |perm|
    ensures |q| == |perm| && q[a] == perm[b] && q[b] == perm[a]
    ensures forall i :: 0 <= i < |perm| && i != a && i != b ==> q[i] == perm[i]
  {
    perm[a := perm[b]][b := perm[a]]
  }

  /** The row order lup reaches with the exchanges 0↔1, 1↔2, 2↔3 on five rows. */
  lemma ThreeExchanges()
    ensures Exchanged(Exchanged(Exchanged([0, 1, 2, 3, 4], 0, 1), 1, 2), 2, 3) == [1, 2, 3, 0, 4]
  {
    assert Exchanged([0, 1, 2, 3, 4], 0, 1) == [1, 0, 2, 3, 4];
    assert Exchanged([1, 0, 2, 3, 4], 1, 2) == [1, 2, 0, 3, 4];
  }

  /** As written: P of [1 2 3 0 4] has trace 1, the count is 2, and the product of U is not negated. */
  lemma CycleAsWritten(p: Grid, u: Grid)
    requires Decomposition.PermutationOf(p, [1, 2, 3, 0, 4])
    requires |u| <= |p| && forall i :: 0 <= i < |u| ==> i < |u[i]|
    ensures IsRect(p) && Determinant.ExchangeCount(p) == 2.0
    ensures Determinant.LupDet(p, u) == Determinant.DiagonalProduct(u, |u|)
  {
    var perm: seq<nat> := [1, 2, 3, 0, 4];
    Determinant.ExchangeCountMoved(p, perm);
    assert Determinant.FixedPoints(perm, 5) == 1 by {
      assert Determinant.FixedPoints(perm, 4) == 0;
    }
    Determinant.ExchangeParity(1);
  }

  /** As written, the third exchange leaves the sign as the first two left it. */
  lemma ExchangeKeepsSignAsWritten(p: Grid, q: Grid, u: Grid)
    requires Decomposition.PermutationOf(p, [1, 2, 0, 3, 4]) && Decomposition.PermutationOf(q, [1, 2, 3, 0, 4])
    requires |u| <= 5 && forall i :: 0 <= i < |u| ==> i < |u[i]|
    ensures Determinant.LupDet(p, u) == Determinant.LupDet(q, u) == Determinant.DiagonalProduct(u, |u|)
  {
    ThreeCycleCount(p);
    HalfNotOdd();
    CycleAsWritten(q, u);
  }

  /** P of [1 2 0 3 4] leaves two rows in place: the count is 1.5. */
  lemma ThreeCycleCount(p: Grid)
    requires Decomposition.PermutationOf(p, [1, 2, 0, 3, 4])
    ensures IsRect(p) && Determinant.ExchangeCount(p) == 1.5
  {
    var perm: seq<nat> := [1, 2, 0, 3, 4];
    Determinant.ExchangeCountMoved(p, perm);
    assert Determinant.FixedPoints(perm, 5) == 2 by {
      assert Determinant.FixedPoints(perm, 3) == 0;
    }
  }

  /** 1.5 % 2 is 1.5, not 1. */
  lemma HalfNotOdd()
    ensures !Determinant.IsOddCount(1.5)
  {
    assert (1.5 / 2.0).Floor == 0;
  }

  // ---------------------------------------------------------------------
  // The corrected rule: the parity of the inversions
  // ---------------------------------------------------------------------

  /** How many entries of s are below x. */
  function CountBelow(s: seq<nat>, x: nat): (c: nat)
    ensures c <= |s|
  {
    if |s| == 0 then 0 else CountBelow(s[1..], x) + (if s[0] < x then 1 else 0)
  }

  /** The pairs i < j with perm[i] > perm[j]. */
  function Inversions(perm: seq<nat>): nat
  {
    if |perm| == 0 then 0 else CountBelow(perm[1..], perm[0]) + Inversions(perm[1..])
  }

  /** The product of U's diagonal, negated when the permutation has an odd number of inversions. */
  function LupDetCorrected(perm: seq<nat>, u: Grid): (y: Complex)
    requires |u| <= |perm| && forall i :: 0 <= i < |u| ==> i < |u[i]|
    ensures Inversions(perm) % 2 == 0 ==> y == Determinant.DiagonalProduct(u, |u|)
    ensures Inversions(perm) % 2 == 1 ==> y == Negate(Determinant.DiagonalProduct(u, |u|))
  {
    var y := Determinant.DiagonalProduct(u, |u|);
    if Inversions(perm) % 2 == 1 then Negate(y) else y
  }

  /** The count below x does not depend on the order of two neighbouring entries. */
  lemma {:induction false} CountBelowExchange(s: seq<nat>, x: nat, i: nat)
    requires i + 1 < |s|
    ensures CountBelow(Exchanged(s, i, i + 1), x) == CountBelow(s, x)
  {
    var t := Exchanged(s, i, i + 1);
    if i == 0 {
      assert t[2..] == s[2..];
      assert t[1..][1..] == t[2..] && s[1..][1..] == s[2..];
    } else {
      assert t[1..] == Exchanged(s[1..], i - 1, i);
      CountBelowExchange(s[1..], x, i - 1);
    }
  }

  /** Exchanging two neighbouring distinct entries changes the inversions by one, up or down. */
  lemma {:induction false} InversionsExchange(perm: seq<nat>, i: nat)
    requires i + 1 < |perm| && perm[i] != perm[i + 1]
    ensures var d := Inversions(Exchanged(perm, i, i + 1));
      d == Inversions(perm) + 1 || d + 1 == Inversions(perm)
  {
    var q := Exchanged(perm, i, i + 1);
    if i == 0 {
      var r := perm[2..];
      assert perm[1..] == [perm[1]] + r && q[1..] == [perm[0]] + r;
      assert perm[1..][1..] == r && q[1..][1..] == r;
      assert Inversions(perm) == CountBelow(r, perm[0]) + (if perm[1] < perm[0] then 1 else 0)
        + CountBelow(r, perm[1]) + Inversions(r);
      assert Inversions(q) == CountBelow(r, perm[1]) + (if perm[0] < perm[1] then 1 else 0)
        + CountBelow(r, perm[0]) + Inversions(r);
    } else {
      assert q[1..] == Exchanged(perm[1..], i - 1, i);
      CountBelowExchange(perm[1..], perm[0], i - 1);
      InversionsExchange(perm[1..], i - 1);
    }
  }

  /** Corrected: every exchange of two neighbouring rows negates the value. */
  lemma ExchangeNegatesCorrected(perm: seq<nat>, i: nat, u: Grid)
    requires i + 1 < |perm| && perm[i] != perm[i + 1]
    requires |u| <= |perm| && forall k :: 0 <= k < |u| ==> k < |u[k]|
    ensures LupDetCorrected(Exchanged(perm, i, i + 1), u) == Negate(LupDetCorrected(perm, u))
  {
    var q := Exchanged(perm, i, i + 1);
    InversionsExchange(perm, i);
    if Inversions(perm) % 2 == 0 {
      assert Inversions(q) % 2 == 1;
    } else {
      assert Inversions(q) % 2 == 0;
      NegateTwice(Determinant.DiagonalProduct(u, |u|));
    }
  }

  lemma NegateTwice(z: Complex)
    ensures Negate(Negate(z)) == z
  {
  }

  /** Corrected: the rows in order have no inversions, and [1 2 3 0 4] has three, so the product is negated. */
  lemma CycleCorrected(u: Grid)
    requires |u| <= 5 && forall i :: 0 <= i < |u| ==> i < |u[i]|
    ensures LupDetCorrected([0, 1, 2, 3, 4], u) == Determinant.DiagonalProduct(u, |u|)
    ensures LupDetCorrected([1, 2, 3, 0, 4], u) == Negate(Determinant.DiagonalProduct(u, |u|))
  {
    assert Inversions([4]) == 0;
    assert Inversions([3, 4]) == 0;
    assert Inversions([2, 3, 4]) == 0;
    assert Inversions([1, 2, 3, 4]) == 0;
    assert Inversions([0, 4]) == 0;
    assert Inversions([3, 0, 4]) == 1;
    assert Inversions([2, 3, 0, 4]) == 2;
  }
}
