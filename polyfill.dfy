/**
 * The fallbacks that Polyfill.run installs when the script host lacks them:
 * Math.imul, Math.trunc, Number.isInteger, Number.isSafeInteger and a
 * one-argument-aware Array.prototype.splice.
 */
module Polyfill {
  import opened JsNumber

  /** `x & 0xFFFF`: the low 16 bits of ToInt32(x), a value in [0, 2^16). */
  function Low16(x: int): (r: int)
    ensures 0 <= r < TWO16
  {
    ToUint32(x) % TWO16
  }

  /** `x >>> 16`: the high 16 bits of ToUint32(x). */
  function High16(x: int): (r: int)
    ensures 0 <= r < TWO16
  {
    ToUint32(x) / TWO16
  }

  /** `v << 16`: ToInt32 of v shifted left by 16 places. */
  function Shl16(v: int): (r: int)
    ensures -TWO31 <= r < TWO31
  {
    ToInt32(ToUint32(v) * TWO16)
  }

  /** a and b agree modulo 2^32. */
  predicate Cong(a: int, b: int) { (a - b) % TWO32 == 0 }

  lemma CongOf(a: int, b: int, k: int)
    requires a - b == k * TWO32
    ensures Cong(a, b)
  {
  }

  lemma CongWitness(a: int, b: int) returns (k: int)
    requires Cong(a, b)
    ensures a - b == k * TWO32
  {
    k := (a - b) / TWO32;
  }

  lemma CongAdd(a: int, b: int, c: int, d: int)
    requires Cong(a, b) && Cong(c, d)
    ensures Cong(a + c, b + d)
  {
    var k1 := CongWitness(a, b);
    var k2 := CongWitness(c, d);
    CongOf(a + c, b + d, k1 + k2);
  }

  lemma CongTrans(a: int, b: int, c: int)
    requires Cong(a, b) && Cong(b, c)
    ensures Cong(a, c)
  {
    var k1 := CongWitness(a, b);
    var k2 := CongWitness(b, c);
    CongOf(a, c, k1 + k2);
  }

  lemma CongSym(a: int, b: int)
    requires Cong(a, b)
    ensures Cong(b, a)
  {
    var k := CongWitness(a, b);
    CongOf(b, a, -k);
  }

  lemma CongMul(a: int, b: int, c: int)
    requires Cong(a, b)
    ensures Cong(a * c, b * c)
  {
    var k := CongWitness(a, b);
    assert a * c - b * c == (a - b) * c;
    CongOf(a * c, b * c, k * c);
  }

  lemma ToUint32Cong(n: int)
    ensures Cong(ToUint32(n), n)
  {
    var k := (n - ToUint32(n)) / TWO32;
    assert n - ToUint32(n) == k * TWO32;
    CongOf(ToUint32(n), n, -k);
  }

  lemma Split16(x: int)
    ensures Cong(x, High16(x) * TWO16 + Low16(x))
  {
    assert ToUint32(x) == High16(x) * TWO16 + Low16(x);
  }

  /** Masking to 16 bits before a 16-place shift loses only multiples of 2^32. */
  lemma Low16Shifted(v: int)
    ensures Cong(Low16(v) * TWO16, v * TWO16)
  {
    var u := ToUint32(v);
    var k := CongWitness(v, u);
    assert u == (u / TWO16) * TWO16 + Low16(v);
    assert v * TWO16 - Low16(v) * TWO16 == (k * TWO16 + u / TWO16) * TWO32;
    CongOf(Low16(v) * TWO16, v * TWO16, -(k * TWO16 + u / TWO16));
  }

  lemma Shl16Residue(v: int)
    ensures Cong(Shl16(v), v * TWO16)
  {
    var u := ToUint32(v);
    var k := CongWitness(v, u);
    assert v * TWO16 - u * TWO16 == (k * TWO16) * TWO32;
    CongOf(u * TWO16, v * TWO16, -(k * TWO16));
    CongTrans(Shl16(v), u * TWO16, v * TWO16);
  }

  /**
   * The Math.imul fallback: the low 32 bits of x1·x2, read as a signed 32-bit
   * integer, assembled from 16-bit partial products (Math.imul, section
   * 21.3.2.19 of ECMA-262).
   */
  method Imul(x1: int, x2: int) returns (r: int)
    ensures r == ToInt32(x1 * x2)
  {
    var y := ToUint32(Low16(x1) * Low16(x2));
    var b := Low16(x1) * High16(x2);
    y := ToUint32(y + Shl16(Low16(b)));
    b := High16(x1) * Low16(x2);
    y := y + Shl16(Low16(b));
    r := ToInt32(y);
    ImulResidue(x1, x2);
  }

  /** The value the fallback holds in `y` before its final `& 0xFFFFFFFF`. */
  function ImulSum(x1: int, x2: int): int {
    var l1, h1, l2, h2 := Low16(x1), High16(x1), Low16(x2), High16(x2);
    ToUint32(ToUint32(l1 * l2) + Shl16(Low16(l1 * h2))) + Shl16(Low16(h1 * l2))
  }

  lemma ProductCong(x1: int, x2: int)
    ensures Cong(x1 * x2, Low16(x1) * Low16(x2) + (Low16(x1) * High16(x2)) * TWO16 + (High16(x1) * Low16(x2)) * TWO16)
  {
    var l1, h1, l2, h2 := Low16(x1), High16(x1), Low16(x2), High16(x2);
    Split16(x1);
    Split16(x2);
    CongMul(x1, h1 * TWO16 + l1, x2);
    CongMul(x2, h2 * TWO16 + l2, h1 * TWO16 + l1);
    assert x2 * (h1 * TWO16 + l1) == x1 * x2 - x1 * x2 + (h1 * TWO16 + l1) * x2;
    CongTrans(x1 * x2, (h1 * TWO16 + l1) * x2, (h2 * TWO16 + l2) * (h1 * TWO16 + l1));
    var t := l1 * l2 + (l1 * h2) * TWO16 + (h1 * l2) * TWO16;
    assert (h2 * TWO16 + l2) * (h1 * TWO16 + l1) == t + (h1 * h2) * TWO32;
    CongOf((h2 * TWO16 + l2) * (h1 * TWO16 + l1), t, h1 * h2);
    CongTrans(x1 * x2, (h2 * TWO16 + l2) * (h1 * TWO16 + l1), t);
  }

  /** The three partial sums of the fallback, each congruent to its exact term. */
  lemma ThreeTermCong(y0: int, p0: int, s1: int, p1: int, y1: int, s2: int, p2: int)
    requires Cong(y0, p0) && Cong(s1, p1) && Cong(s2, p2) && Cong(y1, y0 + s1)
    ensures Cong(y1 + s2, p0 + p1 + p2)
  {
    CongAdd(y0, p0, s1, p1);
    CongTrans(y1, y0 + s1, p0 + p1);
    CongAdd(y1, p0 + p1, s2, p2);
  }

  lemma ShiftedPartialCong(v: int)
    ensures Cong(Shl16(Low16(v)), v * TWO16)
  {
    Shl16Residue(Low16(v));
    Low16Shifted(v);
    CongTrans(Shl16(Low16(v)), Low16(v) * TWO16, v * TWO16);
  }

  lemma ImulSumCong(x1: int, x2: int)
    ensures Cong(ImulSum(x1, x2), Low16(x1) * Low16(x2) + (Low16(x1) * High16(x2)) * TWO16 + (High16(x1) * Low16(x2)) * TWO16)
  {
    var p0, p1, p2 := Low16(x1) * Low16(x2), Low16(x1) * High16(x2), High16(x1) * Low16(x2);
    ShiftedPartialCong(p1);
    ShiftedPartialCong(p2);
    var y0 := ToUint32(p0);
    var y1 := ToUint32(y0 + Shl16(Low16(p1)));
    ToUint32Cong(p0);
    ToUint32Cong(y0 + Shl16(Low16(p1)));
    ThreeTermCong(y0, p0, Shl16(Low16(p1)), p1 * TWO16, y1, Shl16(Low16(p2)), p2 * TWO16);
  }

  lemma ImulResidue(x1: int, x2: int)
    ensures ToInt32(ImulSum(x1, x2)) == ToInt32(x1 * x2)
  {
    var t := Low16(x1) * Low16(x2) + (Low16(x1) * High16(x2)) * TWO16 + (High16(x1) * Low16(x2)) * TWO16;
    ProductCong(x1, x2);
    ImulSumCong(x1, x2);
    CongSym(ImulSum(x1, x2), t);
    CongTrans(x1 * x2, t, ImulSum(x1, x2));
    Congruent(x1 * x2, ImulSum(x1, x2));
  }

  /** The Math.trunc fallback: `x > 0 ? floor(x) : ceil(x)`. */
  function Trunc(x: real): (r: real)
    ensures r == r.Floor as real
    ensures 0.0 <= x ==> 0.0 <= r <= x < r + 1.0
    ensures x <= 0.0 ==> r - 1.0 < x <= r <= 0.0
  {
    if x > 0.0 then
      FloorBounds(x);
      x.Floor as real
    else
      var f := (-x).Floor;
      FloorBounds(-x);
      NegIntegral(f);
      -(f as real)
  }

  lemma NegIntegral(n: int)
    ensures (-(n as real)).Floor == -n
  {
  }

  lemma FloorBounds(x: real)
    ensures x.Floor as real <= x < x.Floor as real + 1.0
    ensures (x.Floor as real).Floor == x.Floor
  {
  }

  /** Math.trunc on every number: the infinities and NaN pass through. */
  function TruncNum(x: Num): (r: Num)
    ensures x.Finite? <==> r.Finite?
    ensures !x.Finite? ==> r == x
  {
    if x.Finite? then Finite(Trunc(x.r)) else x
  }

  /** The Number.isInteger fallback: `isFinite(x) && Math.trunc(x) === x`. */
  predicate IsInteger(x: Num) {
    IsFinite(x) && StrictEquals(TruncNum(x), x)
  }

  /** Number.isInteger holds exactly of the finite values without a fraction. */
  lemma IsIntegerMeans(x: Num)
    ensures IsInteger(x) <==> (x.Finite? && x.r == x.r.Floor as real)
  {
    if x.Finite? && x.r == x.r.Floor as real {
      if x.r > 0.0 {
        assert Trunc(x.r) == x.r;
      } else {
        assert (-x.r).Floor == -x.r.Floor;
      }
    }
  }

  /** The Number.isSafeInteger fallback. */
  predicate IsSafeInteger(x: Num) {
    IsInteger(x) && (if x.r < 0.0 then -x.r else x.r) <= MAX_SAFE_INTEGER as real
  }

  /** A safe integer is an integer n with -(2^53-1) <= n <= 2^53-1. */
  lemma IsSafeIntegerMeans(x: Num)
    ensures IsSafeInteger(x) <==>
      (x.Finite? && exists n: int {:trigger n as real} :: x.r == n as real && -MAX_SAFE_INTEGER <= n <= MAX_SAFE_INTEGER)
  {
    IsIntegerMeans(x);
    if x.Finite? && x.r == x.r.Floor as real {
      var n := x.r.Floor;
      assert x.r == n as real;
    }
  }
}

/**
 * Array.prototype.splice as the script host provides it (the ES5 algorithm of
 * section 15.4.4.12 of ECMA-262, 5.1 edition, where an omitted deleteCount is
 * 0) and the shim that Polyfill.run puts in front of it.
 */
module Splice {
  /** The start index that splice actually uses for a relative start and a length. */
  function ActualStart(relative: int, len: nat): (k: nat)
    ensures k <= len
    ensures relative < 0 ==> k == if len + relative < 0 then 0 else len + relative
    ensures relative >= 0 ==> k == if relative < len then relative else len
  {
    if relative < 0 then (if len + relative < 0 then 0 else len + relative)
    else if relative < len then relative else len
  }

  /** The number of elements removed: deleteCount held within [0, len - start]. */
  function ActualDeleteCount(count: int, len: nat, start: nat): (d: nat)
    requires start <= len
    ensures start + d <= len
  {
    if count < 0 then 0 else if count < len - start then count else len - start
  }

  /** The value splice(args...) works on: its start, how many it removes, what it inserts. */
  datatype Plan = Plan(start: nat, count: nat, items: seq<int>)

  function NativePlan(len: nat, args: seq<int>): (p: Plan)
    ensures p.start + p.count <= len
  {
    var start := ActualStart(if |args| > 0 then args[0] else 0, len);
    var count := ActualDeleteCount(if |args| > 1 then args[1] else 0, len, start);
    Plan(start, count, if |args| > 2 then args[2..] else [])
  }

  /** The elements a plan removes from s. */
  function Removed(s: seq<int>, p: Plan): seq<int>
    requires p.start + p.count <= |s|
  {
    s[p.start..p.start + p.count]
  }

  /** The array a plan leaves behind. */
  function Remaining(s: seq<int>, p: Plan): seq<int>
    requires p.start + p.count <= |s|
  {
    s[..p.start] + p.items + s[p.start + p.count..]
  }

  /** With the shim's added deleteCount, a lone start removes everything from it to the end. */
  lemma ShimOneArgument(s: seq<int>, start: int)
    ensures var p := NativePlan(|s|, [start, |s| - start]);
      Removed(s, p) == s[ActualStart(start, |s|)..] && Remaining(s, p) == s[..ActualStart(start, |s|)]
  {
    var k := ActualStart(start, |s|);
    assert NativePlan(|s|, [start, |s| - start]).count == |s| - k;
  }

  /** An array whose splice goes through the shim. */
  class JsArray {
    var elems: seq<int>

    constructor (s: seq<int>)
      ensures elems == s
    {
      elems := s;
    }

    /** The host's own splice. */
    method NativeSplice(args: seq<int>) returns (removed: seq<int>)
      modifies this
      ensures var p := NativePlan(|old(elems)|, args);
        removed == Removed(old(elems), p) && elems == Remaining(old(elems), p)
    {
      var p := NativePlan(|elems|, args);
      removed := elems[p.start..p.start + p.count];
      elems := elems[..p.start] + p.items + elems[p.start + p.count..];
    }

    /**
     * The shim: copies its arguments, adds `length - start` as the deleteCount
     * when only a start was given, and forwards to the host's splice.
     */
    method Splice(arguments: seq<int>) returns (removed: seq<int>)
      modifies this
      ensures |arguments| == 1 ==>
        var k := ActualStart(arguments[0], |old(elems)|);
        removed == old(elems)[k..] && elems == old(elems)[..k]
      ensures |arguments| != 1 ==>
        var p := NativePlan(|old(elems)|, arguments);
        removed == Removed(old(elems), p) && elems == Remaining(old(elems), p)
    {
      var x := [];
      var i := 0;
      while i < |arguments|
        invariant 0 <= i <= |arguments|
        invariant x == arguments[..i]
      {
        x := x + [arguments[i]];
        i := i + 1;
      }
      assert arguments[..|arguments|] == arguments;
      if |arguments| == 1 {
        x := x + [|elems| - arguments[0]];
        ShimOneArgument(elems, arguments[0]);
      }
      removed := NativeSplice(x);
    }
  }
}
