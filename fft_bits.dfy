/**
 * The bit reversal of the FFT class: bit_reverse_32, which reverses the 32
 * bits of an integer with five mask-and-shift swaps, and
 * create_bit_reverse_table, the lookup table of reversed b-bit indices.
 *
 * A 32-bit pattern is a sequence of 32 booleans, least significant bit
 * first, and the bitwise operators of ECMA-262 (section 13.9 and 13.12)
 * work on it bit by bit.
 */
module FftBits {
  import opened JsNumber

  /** 32 bits, bit 0 (the least significant) first. */
  type Bits = s: seq<bool> | |s| == 32 witness Zero()

  function Zero(): (z: seq<bool>)
    ensures |z| == 32 && forall i :: 0 <= i < 32 ==> !z[i]
  {
    seq(32, i => false)
  }

  function Pow2(n: nat): (p: nat)
    ensures p >= 1
  {
    if n == 0 then 1 else 2 * Pow2(n - 1)
  }

  lemma {:induction false} Pow2Grows(m: nat, n: nat)
    requires m <= n
    ensures Pow2(m) <= Pow2(n)
  {
    if m < n {
      Pow2Grows(m, n - 1);
    }
  }

  lemma Pow2Of32()
    ensures Pow2(32) == TWO32
  {
    assert Pow2(8) == 256;
    assert Pow2(16) == 256 * 256 by { Pow2Add(8, 8); }
    assert Pow2(32) == TWO16 * TWO16 by { Pow2Add(16, 16); }
  }

  lemma {:induction false} Pow2Add(m: nat, n: nat)
    ensures Pow2(m + n) == Pow2(m) * Pow2(n)
  {
    if n > 0 {
      Pow2Add(m, n - 1);
    }
  }

  // ---------------------------------------------------------------------
  // Integers as bit patterns
  // ---------------------------------------------------------------------

  /** The low n bits of k >= 0, least significant first. */
  function BitsOf(k: nat, n: nat): (s: seq<bool>)
    ensures |s| == n
  {
    if n == 0 then [] else [k % 2 == 1] + BitsOf(k / 2, n - 1)
  }

  /** The value of a bit pattern, bit i weighing 2^i. */
  function Value(s: seq<bool>): (v: nat)
  {
    if |s| == 0 then 0 else (if s[0] then 1 else 0) + 2 * Value(s[1..])
  }

  /** The pattern ToUint32 gives an integer: the low 32 bits of its two's complement. */
  function Pattern(x: int): (b: Bits)
  {
    BitsOf(ToUint32(x), 32)
  }

  /** A pattern of n bits has a value below 2^n. */
  lemma {:induction false} ValueBound(s: seq<bool>)
    ensures Value(s) < Pow2(|s|)
  {
    if |s| > 0 {
      ValueBound(s[1..]);
    }
  }

  /** Reading the bits of a value below 2^n gives it back. */
  lemma {:induction false} ValueOfBits(k: nat, n: nat)
    requires k < Pow2(n)
    ensures Value(BitsOf(k, n)) == k
  {
    if n > 0 {
      ValueOfBits(k / 2, n - 1);
      assert BitsOf(k, n)[1..] == BitsOf(k / 2, n - 1);
    }
  }

  /** Writing the value of a pattern in |s| bits gives the pattern back. */
  lemma {:induction false} BitsOfValue(s: seq<bool>)
    ensures BitsOf(Value(s), |s|) == s
  {
    if |s| > 0 {
      BitsOfValue(s[1..]);
      var v := Value(s);
      assert v % 2 == (if s[0] then 1 else 0) && v / 2 == Value(s[1..]);
      assert BitsOf(v, |s|) == [s[0]] + s[1..];
    }
  }

  /** A value below 2^b has no bit set from b on. */
  lemma {:induction false} HighBitsClear(k: nat, n: nat, b: nat, i: nat)
    requires k < Pow2(b) && b <= i < n
    ensures !BitsOf(k, n)[i]
  {
    if b == 0 {
      assert k == 0;
      ZeroBits(n, i);
    } else {
      HighBitsClear(k / 2, n - 1, b - 1, i - 1);
    }
  }

  lemma {:induction false} ZeroBits(n: nat, i: nat)
    requires i < n
    ensures !BitsOf(0, n)[i]
  {
    if i > 0 {
      ZeroBits(n - 1, i - 1);
    }
  }

  /** A pattern with no bit set from b on has a value below 2^b. */
  lemma {:induction false} ValueBelow(s: seq<bool>, b: nat)
    requires forall i :: b <= i < |s| ==> !s[i]
    ensures Value(s) < Pow2(b)
  {
    if |s| > 0 {
      if b == 0 {
        assert !s[0];
        ValueBelow(s[1..], 0);
      } else {
        ValueBelow(s[1..], b - 1);
      }
    }
  }

  /** Two patterns of one length with one value are equal. */
  lemma ValueInjective(s: seq<bool>, t: seq<bool>)
    requires |s| == |t| && Value(s) == Value(t)
    ensures s == t
  {
    BitsOfValue(s);
    BitsOfValue(t);
  }

  // ---------------------------------------------------------------------
  // The 32-bit operators
  // ---------------------------------------------------------------------

  function And(x: Bits, y: Bits): (r: Bits) { seq(32, i requires 0 <= i < 32 => x[i] && y[i]) }
  function Or(x: Bits, y: Bits): (r: Bits) { seq(32, i requires 0 <= i < 32 => x[i] || y[i]) }

  /** x << k: the bits move up, zeros come in at the bottom. */
  function Shl(x: Bits, k: nat): (r: Bits)
    requires k < 32
  {
    seq(32, i requires 0 <= i < 32 => k <= i && x[i - k])
  }

  /** x >> k: the bits move down, copies of the sign bit come in at the top. */
  function Sar(x: Bits, k: nat): (r: Bits)
    requires k < 32
  {
    seq(32, i requires 0 <= i < 32 => if i + k < 32 then x[i + k] else x[31])
  }

  /** x >>> k: the bits move down, zeros come in at the top. */
  function Shr(x: Bits, k: nat): (r: Bits)
    requires k < 32
  {
    seq(32, i requires 0 <= i < 32 => i + k < 32 && x[i + k])
  }

  /**
   * The masks 0x55555555, 0x33333333, 0x0f0f0f0f, 0x00ff00ff and
   * 0x0000ffff: w set bits, w clear bits, and so on, from bit 0 up.
   */
  function Mask(w: nat): (m: Bits)
    requires w > 0
  {
    seq(32, i requires 0 <= i < 32 => (i / w) % 2 == 0)
  }

  /** `((y & mask) << w) | ((y >> w) & mask)`: the neighbouring blocks of w bits change places. */
  function SwapBlocks(y: Bits, w: nat): (r: Bits)
    requires 0 < w < 32
  {
    Or(Shl(And(y, Mask(w)), w), And(Sar(y, w), Mask(w)))
  }

  /** bit_reverse_32 on the pattern of its argument: swaps of widths 1, 2, 4, 8 and 16, in that order. */
  function ReverseBits(x: Bits): (y: Bits)
  {
    Swaps(x, 1)
  }

  /** The block swaps of width w, 2w, ... up to 16, the narrowest first. */
  function Swaps(y: Bits, w: nat): (r: Bits)
    requires w == 1 || w == 2 || w == 4 || w == 8 || w == 16 || w == 32
    decreases 32 - w
  {
    if w == 32 then y else Swaps(SwapBlocks(y, w), 2 * w)
  }

  /** In a block swap, bit i comes from bit i + w or from bit i - w. */
  lemma SwapBlocksAt(y: Bits, w: nat, i: nat)
    requires (w == 1 || w == 2 || w == 4 || w == 8 || w == 16) && i < 32
    ensures 0 <= Partner(i, w) < 32 && SwapBlocks(y, w)[i] == y[Partner(i, w)]
  {
    var m := Mask(w);
    var low := Shl(And(y, m), w);
    var high := And(Sar(y, w), m);
    if (i / w) % 2 == 1 {
      BlockParity(w, i, i - w);
      assert !m[i] && m[i - w];
      assert low[i] == y[i - w] && !high[i];
    } else {
      BlockParity(w, i + w, i);
      if i >= w {
        BlockParity(w, i, i - w);
      }
      assert m[i] && (i >= w ==> !m[i - w]);
      assert !low[i] && high[i] == y[i + w];
    }
  }

  /** Blocks of w bits next to each other have opposite parities. */
  lemma BlockParity(w: nat, i: nat, j: nat)
    requires (w == 1 || w == 2 || w == 4 || w == 8 || w == 16) && i < 32 + w && i == j + w
    ensures (i / w) % 2 != (j / w) % 2
    ensures (j / w) % 2 == 0 ==> i < 32
  {
    if w == 1 {
    } else if w == 2 {
    } else if w == 4 {
    } else if w == 8 {
    } else {
    }
  }

  /** The index a block swap of width w reads bit i from. */
  function Partner(i: nat, w: nat): (j: int)
    requires w > 0
  {
    if (i / w) % 2 == 0 then i + w else i - w
  }

  /** The five swaps together send bit i to bit 31 - i. */
  lemma PartnersReverse(i: nat)
    requires i < 32
    ensures Partner(i, 16) >= 0 && Partner(Partner(i, 16), 8) >= 0
    ensures Partner(Partner(Partner(i, 16), 8), 4) >= 0
    ensures Partner(Partner(Partner(Partner(i, 16), 8), 4), 2) >= 0
    ensures Partner(Partner(Partner(Partner(Partner(i, 16), 8), 4), 2), 1) == 31 - i
  {
    if i < 16 {
      PartnersReverseLow(i);
    } else {
      PartnersReverseHigh(i);
    }
  }

  lemma PartnersReverseLow(i: nat)
    requires i < 16
    ensures Partner(i, 16) >= 0 && Partner(Partner(i, 16), 8) >= 0
    ensures Partner(Partner(Partner(i, 16), 8), 4) >= 0
    ensures Partner(Partner(Partner(Partner(i, 16), 8), 4), 2) >= 0
    ensures Partner(Partner(Partner(Partner(Partner(i, 16), 8), 4), 2), 1) == 31 - i
  {
    if i == 0 {
    } else if i == 1 {
    } else if i == 2 {
    } else if i == 3 {
    } else if i == 4 {
    } else if i == 5 {
    } else if i == 6 {
    } else if i == 7 {
    } else if i == 8 {
    } else if i == 9 {
    } else if i == 10 {
    } else if i == 11 {
    } else if i == 12 {
    } else if i == 13 {
    } else if i == 14 {
    } else {
    }
  }

  lemma PartnersReverseHigh(i: nat)
    requires 16 <= i < 32
    ensures Partner(i, 16) >= 0 && Partner(Partner(i, 16), 8) >= 0
    ensures Partner(Partner(Partner(i, 16), 8), 4) >= 0
    ensures Partner(Partner(Partner(Partner(i, 16), 8), 4), 2) >= 0
    ensures Partner(Partner(Partner(Partner(Partner(i, 16), 8), 4), 2), 1) == 31 - i
  {
    if i == 16 {
    } else if i == 17 {
    } else if i == 18 {
    } else if i == 19 {
    } else if i == 20 {
    } else if i == 21 {
    } else if i == 22 {
    } else if i == 23 {
    } else if i == 24 {
    } else if i == 25 {
    } else if i == 26 {
    } else if i == 27 {
    } else if i == 28 {
    } else if i == 29 {
    } else if i == 30 {
    } else {
    }
  }

  /** Bit i of the reversed pattern is bit 31 - i of the input. */
  lemma ReverseBitsAt(x: Bits, i: nat)
    requires i < 32
    ensures ReverseBits(x)[i] == x[31 - i]
  {
    var y1 := SwapBlocks(x, 1);
    var y2 := SwapBlocks(y1, 2);
    var y3 := SwapBlocks(y2, 4);
    var y4 := SwapBlocks(y3, 8);
    var y5 := SwapBlocks(y4, 16);
    assert ReverseBits(x) == Swaps(y1, 2);
    assert Swaps(y1, 2) == Swaps(y2, 4);
    assert Swaps(y2, 4) == Swaps(y3, 8);
    assert Swaps(y3, 8) == Swaps(y4, 16);
    assert Swaps(y4, 16) == Swaps(y5, 32) == y5;
    PartnersReverse(i);
    var i4 := Partner(i, 16);
    var i3 := Partner(i4, 8);
    var i2 := Partner(i3, 4);
    var i1 := Partner(i2, 2);
    SwapBlocksAt(y4, 16, i);
    SwapBlocksAt(y3, 8, i4);
    SwapBlocksAt(y2, 4, i3);
    SwapBlocksAt(y1, 2, i2);
    SwapBlocksAt(x, 1, i1);
  }

  /** Reversing twice restores the pattern. */
  lemma ReverseBitsTwice(x: Bits)
    ensures ReverseBits(ReverseBits(x)) == x
  {
    forall i | 0 <= i < 32
      ensures ReverseBits(ReverseBits(x))[i] == x[i]
    {
      ReverseBitsAt(ReverseBits(x), i);
      ReverseBitsAt(x, 31 - i);
    }
  }

  // ---------------------------------------------------------------------
  // bit_reverse_32 and create_bit_reverse_table
  // ---------------------------------------------------------------------

  /**
   * bit_reverse_32(x): `x & 0xffffffff` takes the 32-bit pattern of x, and
   * the result of the last `|` is read as a signed 32-bit integer.
   */
  function BitReverse32(x: int): (y: int)
    ensures -TWO31 <= y < TWO31
  {
    ToInt32(Value(ReverseBits(Pattern(x))))
  }

  /** The pattern of bit_reverse_32(x) is the pattern of x reversed. */
  lemma BitReverse32Pattern(x: int)
    ensures Pattern(BitReverse32(x)) == ReverseBits(Pattern(x))
  {
    var r := ReverseBits(Pattern(x));
    Pow2Of32();
    ValueBound(r);
    PatternOfInt32(Value(r));
    BitsOfValue(r);
  }

  /** Bit k of bit_reverse_32(x) is bit 31 - k of x. */
  lemma BitReverse32At(x: int, k: nat)
    requires k < 32
    ensures Pattern(BitReverse32(x))[k] == Pattern(x)[31 - k]
  {
    BitReverse32Pattern(x);
    ReverseBitsAt(Pattern(x), k);
  }

  /** The pattern of ToInt32(v) is that of v. */
  lemma PatternOfInt32(v: nat)
    requires v < TWO32
    ensures ToUint32(ToInt32(v)) == v
    ensures Pattern(ToInt32(v)) == BitsOf(v, 32)
  {
    if v >= TWO31 {
      assert ToInt32(v) == v - TWO32;
      assert ToUint32(v - TWO32) == v;
    }
  }

  /** Applied twice, bit_reverse_32 gives back x & 0xffffffff. */
  lemma BitReverse32Twice(x: int)
    ensures BitReverse32(BitReverse32(x)) == ToInt32(x)
  {
    var y := BitReverse32(x);
    var z := BitReverse32(y);
    // y's pattern is x's reversed; reversing it again gives x's pattern.
    forall i | 0 <= i < 32
      ensures Pattern(z)[i] == Pattern(x)[i]
    {
      BitReverse32At(y, i);
      BitReverse32At(x, 31 - i);
    }
    assert Pattern(z) == Pattern(x);
    Pow2Of32();
    ValueOfBits(ToUint32(z), 32);
    ValueOfBits(ToUint32(x), 32);
    assert ToUint32(z) == ToUint32(x);
    Int32Fixed(z);
  }

  /** `1 << bit`: one shifted left by bit mod 32 places, read as a signed 32-bit integer. */
  function TableSize(bit: nat): (n: int)
    ensures bit % 32 <= 30 ==> n == Pow2(bit % 32)
    ensures bit % 32 == 31 ==> n < 0
  {
    TableSizeFacts(bit);
    ToInt32(Pow2(bit % 32))
  }

  lemma TableSizeFacts(bit: nat)
    ensures bit % 32 <= 30 ==> Pow2(bit % 32) < TWO31
    ensures bit % 32 == 31 ==> Pow2(bit % 32) == TWO31
  {
    Pow2Facts();
    if bit % 32 <= 30 {
      Pow2Grows(bit % 32, 30);
    }
  }

  lemma Pow2Facts()
    ensures Pow2(30) < TWO31 && Pow2(31) == TWO31 && Pow2(32) == TWO32
  {
    Pow2Of32();
    Pow2Add(31, 1);
    Pow2Add(30, 1);
  }

  /**
   * One entry of the table: `bit_reverse_32(i) >>> (32 - bit)`, where the
   * shift count is taken mod 32, so that bit == 0 shifts by nothing.
   */
  function TableEntry(i: int, bit: nat): (e: nat)
  {
    Value(Shr(Pattern(BitReverse32(i)), (32 - bit) % 32))
  }

  /**
   * create_bit_reverse_table(bit): entries for i = 0 .. (1 << bit) - 1; an
   * empty table when `1 << bit` is negative (bit mod 32 == 31).
   */
  method CreateBitReverseTable(bit: nat) returns (table: seq<nat>)
    ensures |table| == if TableSize(bit) < 0 then 0 else TableSize(bit)
    ensures forall i :: 0 <= i < |table| ==> table[i] == TableEntry(i, bit)
  {
    var size := TableSize(bit);
    table := [];
    var i := 0;
    while i < size
      invariant 0 <= i && (size >= 0 ==> i <= size) && (size < 0 ==> i == 0)
      invariant table == Entries(i, bit)
    {
      table := table + [TableEntry(i, bit)];
      i := i + 1;
    }
    forall k | 0 <= k < i
      ensures table[k] == TableEntry(k, bit)
    {
      EntriesAt(i, bit, k);
    }
  }

  /** The first n entries of the table, in order. */
  function Entries(n: nat, bit: nat): (t: seq<nat>)
    ensures |t| == n
  {
    if n == 0 then [] else Entries(n - 1, bit) + [TableEntry(n - 1, bit)]
  }

  lemma {:induction false} EntriesAt(n: nat, bit: nat, k: nat)
    requires k < n
    ensures Entries(n, bit)[k] == TableEntry(k, bit)
  {
    var t := Entries(n - 1, bit);
    assert Entries(n, bit) == t + [TableEntry(n - 1, bit)];
    if k < n - 1 {
      EntriesAt(n - 1, bit, k);
      assert Entries(n, bit)[k] == t[k];
    }
  }

  /** For 1 to 30 bits the shift count 32 - bit needs no reduction mod 32. */
  lemma EntryValue(i: int, bit: nat)
    requires 1 <= bit <= 30
    ensures TableEntry(i, bit) == Value(Shr(Pattern(BitReverse32(i)), 32 - bit))
  {
    assert (32 - bit) % 32 == 32 - bit;
  }

  /** The bits of an entry are the reversed pattern of i shifted down by 32 - bit. */
  lemma EntryPattern(i: int, bit: nat)
    requires 1 <= bit <= 30
    ensures BitsOf(TableEntry(i, bit), 32) == Shr(ReverseBits(Pattern(i)), 32 - bit)
  {
    EntryValue(i, bit);
    BitReverse32Pattern(i);
    BitsOfValue(Shr(ReverseBits(Pattern(i)), 32 - bit));
  }

  /** The b reversed low bits of i < 2^b, as the table holds them. */
  lemma EntryBits(i: nat, bit: nat, j: nat)
    requires 1 <= bit <= 30 && j < 32
    ensures BitsOf(TableEntry(i, bit), 32)[j] == (j < bit && Pattern(i)[bit - 1 - j])
  {
    if j < bit {
      EntryLowBit(i, bit, j);
    } else {
      EntryHighBit(i, bit, j);
    }
  }

  lemma EntryLowBit(i: int, bit: nat, j: nat)
    requires 1 <= bit <= 30 && j < bit
    ensures BitsOf(TableEntry(i, bit), 32)[j] == Pattern(i)[bit - 1 - j]
  {
    EntryPattern(i, bit);
    ReverseBitsAt(Pattern(i), j + 32 - bit);
  }

  lemma EntryHighBit(i: int, bit: nat, j: nat)
    requires 1 <= bit <= 30 && bit <= j < 32
    ensures !BitsOf(TableEntry(i, bit), 32)[j]
  {
    EntryPattern(i, bit);
  }

  /** An entry of a table of 1 to 30 bits lies below 2^bit. */
  lemma EntryBelow(i: int, bit: nat)
    requires 1 <= bit <= 30
    ensures TableEntry(i, bit) < Pow2(bit)
  {
    EntryValue(i, bit);
    var e := Shr(Pattern(BitReverse32(i)), 32 - bit);
    assert forall j :: bit <= j < 32 ==> !e[j];
    ValueBelow(e, bit);
  }

  /** A value below 2^32 is its own pattern. */
  lemma PatternOfSmall(k: nat)
    requires k < TWO32
    ensures Pattern(k) == BitsOf(k, 32)
  {
    assert ToUint32(k) == k;
  }

  /** Bit j of the entry of an entry is bit j of i itself. */
  lemma EntryEntryBit(i: nat, bit: nat, j: nat)
    requires 1 <= bit <= 30 && i < Pow2(bit) && j < 32
    ensures BitsOf(TableEntry(TableEntry(i, bit), bit), 32)[j] == BitsOf(i, 32)[j]
  {
    var e := TableEntry(i, bit);
    EntryBelow(i, bit);
    Pow2Of32();
    Pow2Grows(bit, 32);
    PatternOfSmall(e);
    EntryBits(e, bit, j);
    if j < bit {
      EntryBits(i, bit, bit - 1 - j);
      PatternOfSmall(i);
    } else {
      HighBitsClear(i, 32, bit, j);
    }
  }

  /**
   * For 1 <= bit <= 30 the table maps [0, 2^bit) into itself and is its own
   * inverse, so it is a permutation of [0, 2^bit).
   */
  lemma TableInvolution(i: nat, bit: nat)
    requires 1 <= bit <= 30 && i < Pow2(bit)
    ensures TableEntry(i, bit) < Pow2(bit)
    ensures TableEntry(TableEntry(i, bit), bit) == i
  {
    EntryBelow(i, bit);
    var f := TableEntry(TableEntry(i, bit), bit);
    EntryBelow(TableEntry(i, bit), bit);
    forall j | 0 <= j < 32
      ensures BitsOf(f, 32)[j] == BitsOf(i, 32)[j]
    {
      EntryEntryBit(i, bit, j);
    }
    assert BitsOf(f, 32) == BitsOf(i, 32);
    Pow2Of32();
    Pow2Grows(bit, 32);
    ValueOfBits(f, 32);
    ValueOfBits(i, 32);
  }

  /** The table of a bit count from 1 to 30 is a permutation of [0, 2^bit) and its own inverse. */
  lemma TablePermutation(table: seq<nat>, bit: nat)
    requires 1 <= bit <= 30
    requires |table| == Pow2(bit) && forall i :: 0 <= i < |table| ==> table[i] == TableEntry(i, bit)
    ensures forall i :: 0 <= i < |table| ==> table[i] < |table| && table[table[i]] == i
    ensures forall i, j :: 0 <= i < j < |table| ==> table[i] != table[j]
  {
    forall i | 0 <= i < |table|
      ensures table[i] < |table| && table[table[i]] == i
    {
      TableInvolution(i, bit);
    }
    forall i, j | 0 <= i < j < |table|
      ensures table[i] != table[j]
    {
      assert table[table[i]] == i && table[table[j]] == j;
    }
  }
}
