/**
 * Finite sums of real terms, f(0) + f(1) + … + f(n - 1), and the
 * re-indexings the correlation proofs need: dropping zero terms at either
 * end and reading the terms backwards.
 */
module RealSums {
  function Total(f: int -> real, n: nat): real
    decreases n
  {
    if n == 0 then 0.0 else Total(f, n - 1) + f(n - 1)
  }

  /** Sums of terms that agree on 0..n-1 agree. */
  lemma {:induction false} TotalExt(f: int -> real, g: int -> real, n: nat)
    requires forall i :: 0 <= i < n ==> f(i) == g(i)
    ensures Total(f, n) == Total(g, n)
  {
    if n > 0 {
      TotalExt(f, g, n - 1);
    }
  }

  /** A sum of zero terms is zero. */
  lemma {:induction false} TotalZero(f: int -> real, n: nat)
    requires forall i :: 0 <= i < n ==> f(i) == 0.0
    ensures Total(f, n) == 0.0
  {
    if n > 0 {
      TotalZero(f, n - 1);
    }
  }

  /** Zero terms at the end can be dropped. */
  lemma {:induction false} TotalTail(f: int -> real, m: nat, n: nat)
    requires m <= n
    requires forall i :: m <= i < n ==> f(i) == 0.0
    ensures Total(f, n) == Total(f, m)
  {
    if n > m {
      TotalTail(f, m, n - 1);
    }
  }

  /** Zero terms at the start can be dropped: the rest is summed from index m on. */
  lemma {:induction false} TotalShift(f: int -> real, m: nat, n: nat)
    requires m <= n
    requires forall i :: 0 <= i < m ==> f(i) == 0.0
    ensures Total(f, n) == Total(i => f(i + m), n - m)
  {
    if n == m {
      TotalZero(f, m);
    } else {
      TotalShift(f, m, n - 1);
      var g := i => f(i + m);
      assert g(n - 1 - m) == f(n - 1);
    }
  }

  /** Zero terms at the start dropped, the rest agreeing term by term with g. */
  lemma TotalShiftExt(f: int -> real, g: int -> real, m: nat, n: nat)
    requires m <= n
    requires forall i :: 0 <= i < m ==> f(i) == 0.0
    requires forall t :: 0 <= t < n - m ==> f(t + m) == g(t)
    ensures Total(f, n) == Total(g, n - m)
  {
    TotalShift(f, m, n);
    TotalExt(i => f(i + m), g, n - m);
  }

  /** The first term split off. */
  lemma {:induction false} TotalHead(f: int -> real, n: nat)
    requires n >= 1
    ensures Total(f, n) == f(0) + Total(i => f(i + 1), n - 1)
  {
    if n > 1 {
      TotalHead(f, n - 1);
      var g := i => f(i + 1);
      assert g(n - 2) == f(n - 1);
    }
  }

  /** The same terms read backwards have the same sum. */
  lemma {:induction false} TotalReverse(f: int -> real, n: nat)
    ensures Total(f, n) == Total(i => f(n - 1 - i), n)
  {
    if n > 0 {
      var h := i => f(n - 1 - i);
      TotalHead(h, n);
      TotalReverse(f, n - 1);
      TotalExt(i => h(i + 1), i => f(n - 1 - 1 - i), n - 1);
    }
  }

  /** Two sums agree when the terms of one are those of the other read backwards. */
  lemma TotalMirror(f: int -> real, g: int -> real, n: nat)
    requires forall t :: 0 <= t < n ==> f(n - 1 - t) == g(t)
    ensures Total(f, n) == Total(g, n)
  {
    TotalReverse(f, n);
    TotalExt(i => f(n - 1 - i), g, n);
  }
}
