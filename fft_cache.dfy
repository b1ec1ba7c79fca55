/**
 * FFTCache: a small move-to-front cache of the tables the FFT and DCT
 * classes build for one signal length. A hit moves the entry to the
 * front; a miss builds a new entry, evicts (and frees) the last one when
 * the table is full, and puts the new entry in front.
 *
 * The cached class is reduced to what the cache sees of it: the signal
 * length it was built for and whether it has been freed. The trigonometric
 * tables it holds are not part of this model.
 */
module FftCache {
  import opened Wrappers

  /** `undefined.free()`: the pop of an empty table yields undefined. */
  const TYPE_ERROR: string := "TypeError"

  /** An object the cache builds: an FFT or DCT table set for one signal length. */
  class Entry {
    const size: int
    var freed: bool

    constructor (size: int)
      ensures this.size == size && !freed
    {
      this.size := size;
      freed := false;
    }

    /** free(): deletes the tables of the object. */
    method Free()
      modifies this
      ensures freed
    {
      freed := true;
    }
  }

  /** The sizes of the entries, front first. */
  function Sizes(t: seq<Entry>): (s: seq<int>)
    ensures |s| == |t|
  {
    seq(|t|, i requires 0 <= i < |t| => t[i].size)
  }

  predicate Distinct(s: seq<int>)
  {
    forall i, j :: 0 <= i < j < |s| ==> s[i] != s[j]
  }

  /** The first position of x in s, or |s| when x is absent. */
  function Find(s: seq<int>, x: int): (k: nat)
    ensures k <= |s|
    ensures k < |s| ==> s[k] == x
    ensures forall i :: 0 <= i < k ==> s[i] != x
  {
    if s == [] then 0
    else if s[0] == x then 0
    else 1 + Find(s[1..], x)
  }

  /** The position Find gives is the only one before which x does not occur and at which it does. */
  lemma FindIs(s: seq<int>, x: int, k: nat)
    requires k <= |s| && (k < |s| ==> s[k] == x)
    requires forall i :: 0 <= i < k ==> s[i] != x
    ensures Find(s, x) == k
  {
  }

  /** Element k taken out and put in front. */
  function ToFront<T>(s: seq<T>, k: nat): (r: seq<T>)
    requires k < |s|
  {
    [s[k]] + s[..k] + s[k + 1..]
  }

  /** Where element i of ToFront(s, k) comes from. */
  function FromFront(k: nat, i: nat): nat
  {
    if i == 0 then k else if i <= k then i - 1 else i
  }

  lemma ToFrontAt<T>(s: seq<T>, k: nat, i: nat)
    requires k < |s| && i < |s|
    ensures |ToFront(s, k)| == |s| && ToFront(s, k)[i] == s[FromFront(k, i)]
  {
  }

  /**
   * The sizes after get(size) on a cache holding `sizes` with capacity
   * `max`: Err when a miss has to pop an empty table.
   */
  function AfterGet(sizes: seq<int>, max: int, size: int): (r: Result<seq<int>>)
  {
    var k := Find(sizes, size);
    if k < |sizes| then Ok(ToFront(sizes, k))
    else if |sizes| == max then
      if sizes == [] then Err(TYPE_ERROR) else Ok([size] + sizes[..|sizes| - 1])
    else Ok([size] + sizes)
  }

  /** A cache that never held more than `max` entries nor two of one size. */
  predicate Good(sizes: seq<int>, max: int)
  {
    (max >= 0 ==> |sizes| <= max) && Distinct(sizes)
  }

  /** After a successful get the requested size is in front. */
  lemma AfterGetFront(sizes: seq<int>, max: int, size: int)
    requires AfterGet(sizes, max, size).Ok?
    ensures |AfterGet(sizes, max, size).value| > 0
    ensures AfterGet(sizes, max, size).value[0] == size
  {
  }

  /** get fails exactly when a miss meets an empty table of capacity 0. */
  lemma AfterGetFails(sizes: seq<int>, max: int, size: int)
    ensures AfterGet(sizes, max, size).Err? <==> size !in sizes && sizes == [] && max == 0
  {
    var k := Find(sizes, size);
    if size in sizes {
      var i :| 0 <= i < |sizes| && sizes[i] == size;
      assert k <= i;
    }
  }

  /** A hit only reorders: the entry set and the count stay. */
  lemma AfterGetHit(sizes: seq<int>, max: int, size: int)
    requires size in sizes
    ensures AfterGet(sizes, max, size).Ok?
    ensures multiset(AfterGet(sizes, max, size).value) == multiset(sizes)
  {
    var k := Find(sizes, size);
    var i :| 0 <= i < |sizes| && sizes[i] == size;
    assert k <= i;
    assert sizes == sizes[..k] + [sizes[k]] + sizes[k + 1..];
  }

  /** A miss puts the new size first and drops the last one only when the table is full. */
  lemma AfterGetMiss(sizes: seq<int>, max: int, size: int)
    requires size !in sizes && (sizes != [] || max != 0)
    ensures AfterGet(sizes, max, size).Ok?
    ensures |sizes| == max ==> AfterGet(sizes, max, size).value == [size] + sizes[..|sizes| - 1]
    ensures |sizes| != max ==> AfterGet(sizes, max, size).value == [size] + sizes
  {
  }

  /** get keeps the cache within its capacity and free of duplicate sizes. */
  lemma AfterGetGood(sizes: seq<int>, max: int, size: int)
    requires Good(sizes, max) && AfterGet(sizes, max, size).Ok?
    ensures Good(AfterGet(sizes, max, size).value, max)
  {
    var r := AfterGet(sizes, max, size).value;
    var k := Find(sizes, size);
    if k < |sizes| {
      forall i, j | 0 <= i < j < |r|
        ensures r[i] != r[j]
      {
        ToFrontAt(sizes, k, i);
        ToFrontAt(sizes, k, j);
      }
    } else {
      var rest := if |sizes| == max then sizes[..|sizes| - 1] else sizes;
      assert r == [size] + rest;
      forall i, j | 0 <= i < j < |r|
        ensures r[i] != r[j]
      {
        if i == 0 {
          assert r[j] == rest[j - 1] && rest[j - 1] in sizes;
        } else {
          assert r[i] == sizes[i - 1] && r[j] == sizes[j - 1];
        }
      }
    }
  }

  /** FFTCache: entries front first, at most table_max of them. */
  class FFTCache {
    var table: seq<Entry>
    const tableMax: int

    constructor (cacheSize: int)
      ensures table == [] && tableMax == cacheSize
    {
      table := [];
      tableMax := cacheSize;
    }

    /** No two entries of one size, none of them freed, at most table_max of them. */
    predicate Valid()
      reads this, table
    {
      Good(Sizes(table), tableMax) && forall i :: 0 <= i < |table| ==> !table[i].freed
    }

    /**
     * get(size): the cached entry of that size, moved to the front, or a new
     * entry put in front, with the last entry popped and freed when the
     * table is full.
     */
    method Get(size: int) returns (r: Result<Entry>)
      requires Valid()
      modifies this, table
      ensures r.Ok? == AfterGet(old(Sizes(table)), tableMax, size).Ok?
      ensures r.Ok? ==> Sizes(table) == AfterGet(old(Sizes(table)), tableMax, size).value
      ensures r.Err? ==> table == old(table)
      ensures r.Ok? ==> |table| > 0 && r.value == table[0] && r.value.size == size
      // a hit returns the cached object itself; a miss a new one
      ensures r.Ok? && size in old(Sizes(table)) ==>
        table == ToFront(old(table), Find(old(Sizes(table)), size))
      ensures r.Ok? && size !in old(Sizes(table)) ==>
        fresh(r.value) && table[1..] == (if |old(table)| == tableMax then old(table)[..|old(table)| - 1] else old(table))
      // only an evicted entry is freed
      ensures forall e :: e in old(table) && e !in table ==> e.freed
      ensures forall e :: e in old(table) && e in table ==> e.freed == old(e.freed)
      ensures r.Ok? ==> Valid()
    {
      var index := Lookup(size);
      if index < |table| {
        HitFacts(table, tableMax, size);
        var found := table[index];
        assert found.size == Sizes(table)[index];
        table := ToFront(table, index);
        return Ok(found);
      }
      r := Insert(size);
    }

    /** The loop of get: the first position holding an entry of that size, or the table length. */
    method Lookup(size: int) returns (index: nat)
      ensures index == Find(Sizes(table), size)
    {
      index := 0;
      while index < |table|
        invariant index <= |table|
        invariant forall i :: 0 <= i < index ==> Sizes(table)[i] != size
      {
        if table[index].size == size {
          FindIs(Sizes(table), size, index);
          return;
        }
        index := index + 1;
      }
      FindIs(Sizes(table), size, index);
    }

    /** The miss path of get: a new entry in front, the last one popped and freed when the table is full. */
    method Insert(size: int) returns (r: Result<Entry>)
      requires Valid() && size !in Sizes(table)
      modifies this, table
      ensures r.Ok? == AfterGet(old(Sizes(table)), tableMax, size).Ok?
      ensures r.Ok? ==> Sizes(table) == AfterGet(old(Sizes(table)), tableMax, size).value
      ensures r.Err? ==> table == old(table)
      ensures r.Ok? ==> |table| > 0 && r.value == table[0] && fresh(r.value) && r.value.size == size
      ensures r.Ok? ==> table[1..] == (if |old(table)| == tableMax then old(table)[..|old(table)| - 1] else old(table))
      ensures forall e :: e in old(table) && e !in table ==> e.freed
      ensures forall e :: e in old(table) && e in table ==> e.freed == old(e.freed)
      ensures r.Ok? ==> Valid()
    {
      ghost var sizes := Sizes(table);
      var created := new Entry(size);
      if |table| == tableMax {
        if |table| == 0 {
          return Err(TYPE_ERROR);
        }
        var last := table[|table| - 1];
        table := table[..|table| - 1];
        EvictedAbsent(old(table));
        last.Free();
      }
      table := [created] + table;
      r := Ok(created);
      assert Sizes(table) == AfterGet(sizes, tableMax, size).value;
      AfterGetGood(sizes, tableMax, size);
    }
  }

  /** On a hit, moving the entry to the front keeps the entries and gives the sizes AfterGet gives. */
  lemma HitFacts(t: seq<Entry>, max: int, size: int)
    requires Good(Sizes(t), max) && Find(Sizes(t), size) < |t|
    ensures Sizes(ToFront(t, Find(Sizes(t), size))) == AfterGet(Sizes(t), max, size).value
    ensures Good(Sizes(ToFront(t, Find(Sizes(t), size))), max)
    ensures forall e :: e in ToFront(t, Find(Sizes(t), size)) <==> e in t
  {
    var k := Find(Sizes(t), size);
    SizesToFront(t, k);
    SameEntries(t, k);
    AfterGetGood(Sizes(t), max, size);
  }

  lemma SizesToFront(t: seq<Entry>, k: nat)
    requires k < |t|
    ensures Sizes(ToFront(t, k)) == ToFront(Sizes(t), k)
  {
    var a := Sizes(ToFront(t, k));
    var b := ToFront(Sizes(t), k);
    forall i | 0 <= i < |t|
      ensures a[i] == b[i]
    {
      ToFrontAt(t, k, i);
      ToFrontAt(Sizes(t), k, i);
    }
  }

  lemma SameEntries(t: seq<Entry>, k: nat)
    requires k < |t|
    ensures forall e :: e in ToFront(t, k) <==> e in t
  {
    assert t == t[..k] + [t[k]] + t[k + 1..];
  }

  /** In a table without repeated sizes, the last entry is not among the others. */
  lemma EvictedAbsent(t: seq<Entry>)
    requires |t| > 0 && Distinct(Sizes(t))
    ensures t[|t| - 1] !in t[..|t| - 1]
  {
    forall i | 0 <= i < |t| - 1
      ensures t[i] != t[|t| - 1]
    {
      assert Sizes(t)[i] != Sizes(t)[|t| - 1];
    }
  }
}
