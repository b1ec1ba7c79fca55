/**
 * indexsort's stable merge sort: entries pairing an index value with a row
 * (or column) of the matrix, ordered by compareTo on the index.
 */
module Sorting {
  import opened ComplexNum
  import ComplexOrder

  /** `{index, data}`: one index value and the vector it carries. */
  datatype Entry = Entry(index: Complex, data: seq<Complex>)

  /** The comparison the sort is given, as `cmp_function(a, b)`: negative, zero or positive. */
  type Comparison = (Entry, Entry) -> int

  /**
   * indexsort's `compare(a, b)`: a.index.compareTo(b.index) without a
   * tolerance, so Number.EPSILON is used.
   */
  function IndexCompare(a: Entry, b: Entry): (c: int)
    ensures c < 0 <==> ComplexOrder.Compare(a.index, b.index, 0.0) == ComplexOrder.Less
    ensures c == 0 <==> ComplexOrder.Compare(a.index, b.index, 0.0) == ComplexOrder.Same
  {
    match ComplexOrder.Compare(a.index, b.index, 0.0)
    case Less => -1
    case Same => 0
    case More => 1
    case Unordered => 1
  }

  /**
   * The merge keeps the left element unless the right one compares strictly
   * less: `cmp_function(elements[i], temp[j]) >= 0` takes temp[j].
   */
  predicate TakesLeft(cmp: Comparison, left: Entry, right: Entry) {
    cmp(right, left) >= 0
  }

  /** Merging two runs, as the merge loop and its tail copy do. */
  function Merge(l: seq<Entry>, r: seq<Entry>, cmp: Comparison): (m: seq<Entry>)
    ensures |m| == |l| + |r|
    decreases |l| + |r|
  {
    if |l| == 0 then r
    else if |r| == 0 then l
    else if TakesLeft(cmp, l[0], r[0]) then [l[0]] + Merge(l[1..], r, cmp)
    else [r[0]] + Merge(l, r[1..], cmp)
  }

  /** The merge loses and invents no entry. */
  lemma {:induction false} MergePermutation(l: seq<Entry>, r: seq<Entry>, cmp: Comparison)
    ensures multiset(Merge(l, r, cmp)) == multiset(l) + multiset(r)
    decreases |l| + |r|
  {
    if |l| > 0 && |r| > 0 {
      if TakesLeft(cmp, l[0], r[0]) {
        MergePermutation(l[1..], r, cmp);
        ConsMultiset(l[0], l[1..], r, Merge(l[1..], r, cmp));
        assert l == [l[0]] + l[1..];
      } else {
        MergePermutation(l, r[1..], cmp);
        ConsMultiset(r[0], r[1..], l, Merge(l, r[1..], cmp));
        assert r == [r[0]] + r[1..];
      }
    }
  }

  lemma ConsMultiset(x: Entry, s: seq<Entry>, t: seq<Entry>, rest: seq<Entry>)
    requires multiset(rest) == multiset(s) + multiset(t) || multiset(rest) == multiset(t) + multiset(s)
    ensures multiset([x] + rest) == multiset([x] + s) + multiset(t)
  {
  }

  /** The left run of a range of n >= 2 entries: elements first..middle, middle = floor((first + last) / 2). */
  function LeftLength(n: nat): (h: nat)
    requires n >= 2
    ensures 1 <= h < n
  {
    (n - 1) / 2 + 1
  }

  /** sort(elements, first, last, cmp_function): both halves sorted, then merged. */
  function MergeSort(s: seq<Entry>, cmp: Comparison): (t: seq<Entry>)
    ensures |t| == |s|
    decreases |s|
  {
    if |s| <= 1 then s
    else
      var h := LeftLength(|s|);
      Merge(MergeSort(s[..h], cmp), MergeSort(s[h..], cmp), cmp)
  }

  /** The sort is a permutation of its input, whatever the comparison. */
  lemma {:induction false} MergeSortPermutation(s: seq<Entry>, cmp: Comparison)
    ensures multiset(MergeSort(s, cmp)) == multiset(s)
    decreases |s|
  {
    if |s| > 1 {
      var h := LeftLength(|s|);
      assert s == s[..h] + s[h..];
      MergeSortPermutation(s[..h], cmp);
      MergeSortPermutation(s[h..], cmp);
      MergePermutation(MergeSort(s[..h], cmp), MergeSort(s[h..], cmp), cmp);
    }
  }

  // ---------------------------------------------------------------------
  // Order
  // ---------------------------------------------------------------------

  /**
   * compareTo's tolerance makes values within EPSILON of each other equal,
   * and that relation is not transitive. The index values below are "apart":
   * two keys are equal or differ by more than the tolerance.
   */
  predicate KeysApart(a: Complex, b: Complex) {
    Key(a) == Key(b) || Abs(Key(a) - Key(b)) > Tol(0.0)
  }

  predicate Apart(s: seq<Entry>) {
    forall x, y :: x in s && y in s ==> KeysApart(x.index, y.index)
  }

  /** Index keys never decrease along s. */
  predicate Sorted(s: seq<Entry>) {
    forall i, j :: 0 <= i < j < |s| ==> Key(s[i].index) <= Key(s[j].index)
  }

  /** The entries of s whose index key is k, in their order in s. */
  function WithKey(s: seq<Entry>, k: real): (t: seq<Entry>)
    ensures forall x :: x in t ==> x in s && Key(x.index) == k
    decreases |s|
  {
    if |s| == 0 then []
    else if Key(s[0].index) == k then [s[0]] + WithKey(s[1..], k)
    else WithKey(s[1..], k)
  }

  /** For keys that are apart, compareTo's strict answer is the order of the keys. */
  lemma TakesLeftApart(left: Entry, right: Entry)
    requires KeysApart(left.index, right.index)
    ensures TakesLeft(IndexCompare, left, right) <==> Key(left.index) <= Key(right.index)
  {
  }

  lemma {:induction false} WithKeyConcat(a: seq<Entry>, b: seq<Entry>, k: real)
    ensures WithKey(a + b, k) == WithKey(a, k) + WithKey(b, k)
    decreases |a|
  {
    if |a| == 0 {
      assert a + b == b;
    } else {
      assert (a + b)[0] == a[0] && (a + b)[1..] == a[1..] + b;
      WithKeyConcat(a[1..], b, k);
    }
  }

  /** A sorted run whose first key is above k holds no entry with key k. */
  lemma {:induction false} WithKeyAbove(s: seq<Entry>, k: real)
    requires Sorted(s) && |s| > 0 && k < Key(s[0].index)
    ensures WithKey(s, k) == []
    decreases |s|
  {
    if |s| > 1 {
      assert Key(s[0].index) <= Key(s[1].index);
      WithKeyAbove(s[1..], k);
    }
  }

  lemma SortedTail(s: seq<Entry>)
    requires Sorted(s) && |s| > 0
    ensures Sorted(s[1..])
    ensures forall x :: x in s[1..] ==> Key(s[0].index) <= Key(x.index)
  {
  }

  lemma ApartSub(s: seq<Entry>, t: seq<Entry>)
    requires Apart(s)
    requires forall x :: x in t ==> x in s
    ensures Apart(t)
  {
  }

  /** Sorted runs whose keys are apart merge into a sorted run. */
  lemma {:induction false} MergeSorted(l: seq<Entry>, r: seq<Entry>)
    requires Sorted(l) && Sorted(r) && Apart(l + r)
    ensures Sorted(Merge(l, r, IndexCompare))
    decreases |l| + |r|
  {
    if |l| > 0 && |r| > 0 {
      assert l[0] in l + r && r[0] in l + r;
      TakesLeftApart(l[0], r[0]);
      if TakesLeft(IndexCompare, l[0], r[0]) {
        SortedTail(l);
        ApartSub(l + r, l[1..] + r);
        MergeSorted(l[1..], r);
        var m := Merge(l[1..], r, IndexCompare);
        MergePermutation(l[1..], r, IndexCompare);
        forall x | x in m
          ensures Key(l[0].index) <= Key(x.index)
        {
          assert x in multiset(l[1..]) + multiset(r);
          if x !in l[1..] {
            assert x in r;
            var j :| 0 <= j < |r| && r[j] == x;
            assert j == 0 || Key(r[0].index) <= Key(r[j].index);
          }
        }
        SortedCons(l[0], m);
      } else {
        SortedTail(r);
        ApartSub(l + r, l + r[1..]);
        MergeSorted(l, r[1..]);
        var m := Merge(l, r[1..], IndexCompare);
        MergePermutation(l, r[1..], IndexCompare);
        forall x | x in m
          ensures Key(r[0].index) <= Key(x.index)
        {
          assert x in multiset(l) + multiset(r[1..]);
          if x !in r[1..] {
            assert x in l;
            var j :| 0 <= j < |l| && l[j] == x;
            assert j == 0 || Key(l[0].index) <= Key(l[j].index);
          }
        }
        SortedCons(r[0], m);
      }
    }
  }

  lemma SortedCons(x: Entry, s: seq<Entry>)
    requires Sorted(s)
    requires forall y :: y in s ==> Key(x.index) <= Key(y.index)
    ensures Sorted([x] + s)
  {
    forall i, j | 0 <= i < j < |[x] + s|
      ensures Key(([x] + s)[i].index) <= Key(([x] + s)[j].index)
    {
      if i == 0 {
        assert ([x] + s)[j] == s[j - 1];
        assert s[j - 1] in s;
      } else {
        assert ([x] + s)[i] == s[i - 1] && ([x] + s)[j] == s[j - 1];
      }
    }
  }

  /**
   * The merge is stable: entries with equal keys from the left run come
   * first, and each run keeps its own order.
   */
  lemma {:induction false} MergeStable(l: seq<Entry>, r: seq<Entry>, k: real)
    requires Sorted(l) && Apart(l + r)
    ensures WithKey(Merge(l, r, IndexCompare), k) == WithKey(l, k) + WithKey(r, k)
    decreases |l| + |r|
  {
    if |l| == 0 {
      assert l + r == r;
    } else if |r| == 0 {
      assert WithKey(r, k) == [];
    } else {
      assert l[0] in l + r && r[0] in l + r;
      TakesLeftApart(l[0], r[0]);
      if TakesLeft(IndexCompare, l[0], r[0]) {
        SortedTail(l);
        ApartSub(l + r, l[1..] + r);
        MergeStable(l[1..], r, k);
        MergeStableLeft(l, r, k);
      } else {
        ApartSub(l + r, l + r[1..]);
        MergeStable(l, r[1..], k);
        MergeStableRight(l, r, k);
      }
    }
  }

  /** The merge step that takes the left head. */
  lemma MergeStableLeft(l: seq<Entry>, r: seq<Entry>, k: real)
    requires |l| > 0 && |r| > 0 && TakesLeft(IndexCompare, l[0], r[0])
    requires WithKey(Merge(l[1..], r, IndexCompare), k) == WithKey(l[1..], k) + WithKey(r, k)
    ensures WithKey(Merge(l, r, IndexCompare), k) == WithKey(l, k) + WithKey(r, k)
  {
    var x := Merge(l[1..], r, IndexCompare);
    assert Merge(l, r, IndexCompare) == [l[0]] + x;
    WithKeyCons(l[0], x, k);
    WithKeyCons(l[0], l[1..], k);
    assert [l[0]] + l[1..] == l;
    var h: seq<Entry> := if Key(l[0].index) == k then [l[0]] else [];
    ConcatAssoc(h, WithKey(l[1..], k), WithKey(r, k));
  }

  lemma ConcatAssoc(a: seq<Entry>, b: seq<Entry>, c: seq<Entry>)
    ensures a + (b + c) == (a + b) + c
  {
  }

  /** The merge step that takes the right head, whose key is below every key of the sorted left run. */
  lemma MergeStableRight(l: seq<Entry>, r: seq<Entry>, k: real)
    requires |l| > 0 && |r| > 0 && !TakesLeft(IndexCompare, l[0], r[0]) && Sorted(l)
    requires Key(r[0].index) < Key(l[0].index)
    requires WithKey(Merge(l, r[1..], IndexCompare), k) == WithKey(l, k) + WithKey(r[1..], k)
    ensures WithKey(Merge(l, r, IndexCompare), k) == WithKey(l, k) + WithKey(r, k)
  {
    var x := Merge(l, r[1..], IndexCompare);
    assert Merge(l, r, IndexCompare) == [r[0]] + x;
    WithKeyCons(r[0], x, k);
    WithKeyCons(r[0], r[1..], k);
    assert [r[0]] + r[1..] == r;
    if Key(r[0].index) == k {
      WithKeyAbove(l, k);
      assert WithKey(l, k) + WithKey(r, k) == WithKey(r, k);
    }
  }

  lemma WithKeyCons(x: Entry, s: seq<Entry>, k: real)
    ensures WithKey([x] + s, k) == (if Key(x.index) == k then [x] else []) + WithKey(s, k)
  {
    assert ([x] + s)[0] == x && ([x] + s)[1..] == s;
  }

  lemma InMultiset(s: seq<Entry>, t: seq<Entry>)
    requires multiset(s) == multiset(t)
    ensures forall x :: x in s ==> x in t
  {
    forall x | x in s
      ensures x in t
    {
      assert x in multiset(s);
    }
  }

  /** With index keys apart, the sort orders the entries by key. */
  lemma {:induction false} MergeSortSorted(s: seq<Entry>)
    requires Apart(s)
    ensures Sorted(MergeSort(s, IndexCompare))
    decreases |s|
  {
    if |s| > 1 {
      var h := LeftLength(|s|);
      assert s == s[..h] + s[h..];
      ApartSub(s, s[..h]);
      ApartSub(s, s[h..]);
      MergeSortSorted(s[..h]);
      MergeSortSorted(s[h..]);
      var a, b := MergeSort(s[..h], IndexCompare), MergeSort(s[h..], IndexCompare);
      MergeSortPermutation(s[..h], IndexCompare);
      MergeSortPermutation(s[h..], IndexCompare);
      assert multiset(a + b) == multiset(s);
      InMultiset(a + b, s);
      ApartSub(s, a + b);
      MergeSorted(a, b);
    }
  }

  /** With index keys apart, the sort is stable: entries with equal keys keep their order. */
  lemma {:induction false} MergeSortStable(s: seq<Entry>, k: real)
    requires Apart(s)
    ensures WithKey(MergeSort(s, IndexCompare), k) == WithKey(s, k)
    decreases |s|
  {
    if |s| > 1 {
      var h := LeftLength(|s|);
      assert s == s[..h] + s[h..];
      ApartSub(s, s[..h]);
      ApartSub(s, s[h..]);
      MergeSortStable(s[..h], k);
      MergeSortStable(s[h..], k);
      MergeSortSorted(s[..h]);
      var a, b := MergeSort(s[..h], IndexCompare), MergeSort(s[h..], IndexCompare);
      MergeSortPermutation(s[..h], IndexCompare);
      MergeSortPermutation(s[h..], IndexCompare);
      assert multiset(a + b) == multiset(s);
      InMultiset(a + b, s);
      ApartSub(s, a + b);
      MergeStable(a, b, k);
      WithKeyConcat(s[..h], s[h..], k);
    }
  }
}
