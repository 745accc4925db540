/**
 Single bytes of the allocator's region: which bit of a byte a slot lives in,
 the reference population count of a byte, and the nibble-table population
 count that the allocator actually uses (`bits` in bitmap.go).
 */
module Bytes {

  /** Number of slots packed into one byte (`wordSize`). */
  const WordSize: nat := 8

  /** The mask that selects bit `j` of a byte, least-significant bit first. */
  function Mask(j: nat): bv8
    requires j < WordSize
  {
    1 << j
  }

  /** Bit `j` of `b` is 1. */
  predicate BitOf(b: bv8, j: nat)
    requires j < WordSize
  {
    b & Mask(j) != 0
  }

  function Ind(p: bool): nat
  {
    if p then 1 else 0
  }

  /** Number of 1-bits of `b` among bits `0 .. j - 1`, counted one bit at a time. */
  function CountBits(b: bv8, j: nat): nat
    requires j <= WordSize
  {
    if j == 0 then 0 else CountBits(b, j - 1) + Ind(BitOf(b, j - 1))
  }

  /** Reference population count: the number of 1-bits of `b`. */
  function PopCount(b: bv8): nat
  {
    CountBits(b, WordSize)
  }

  /** The reference count written out bit by bit. */
  lemma PopCountSum(b: bv8)
    ensures PopCount(b) ==
      Ind(BitOf(b, 0)) + Ind(BitOf(b, 1)) + Ind(BitOf(b, 2)) + Ind(BitOf(b, 3)) +
      Ind(BitOf(b, 4)) + Ind(BitOf(b, 5)) + Ind(BitOf(b, 6)) + Ind(BitOf(b, 7))
  {
    assert CountBits(b, 1) == CountBits(b, 0) + Ind(BitOf(b, 0));
    assert CountBits(b, 2) == CountBits(b, 1) + Ind(BitOf(b, 1));
    assert CountBits(b, 3) == CountBits(b, 2) + Ind(BitOf(b, 2));
    assert CountBits(b, 4) == CountBits(b, 3) + Ind(BitOf(b, 3));
    assert CountBits(b, 5) == CountBits(b, 4) + Ind(BitOf(b, 4));
    assert CountBits(b, 6) == CountBits(b, 5) + Ind(BitOf(b, 5));
    assert CountBits(b, 7) == CountBits(b, 6) + Ind(BitOf(b, 6));
    assert CountBits(b, 8) == CountBits(b, 7) + Ind(BitOf(b, 7));
  }

  /** Population count of each 4-bit value (`bitmapTable`). */
  const NibbleTable: seq<nat> := [0, 1, 1, 2, 1, 2, 2, 3, 1, 2, 2, 3, 2, 3, 3, 4]

  /** Population count through two nibble lookups, high nibble then low nibble (`bits`). */
  function Bits(n: bv8): nat
  {
    NibbleTable[(n >> 4) as int] + NibbleTable[(n & 0x0F) as int]
  }

  /** The table entry for every 4-bit value is the number of its 1-bits. */
  lemma NibbleTableCounts(x: bv8)
    requires x < 16
    ensures NibbleTable[x as int]
         == Ind(BitOf(x, 0)) + Ind(BitOf(x, 1)) + Ind(BitOf(x, 2)) + Ind(BitOf(x, 3))
  {
  }

  /** The nibble-table count agrees with the bit-by-bit count on every byte. */
  lemma BitsIsPopCount(n: bv8)
    ensures Bits(n) == PopCount(n)
    ensures Bits(n) <= 8
  {
    var hi, lo := n >> 4, n & 0x0F;
    NibbleTableCounts(hi);
    NibbleTableCounts(lo);
    PopCountSum(n);
    assert BitOf(lo, 0) == BitOf(n, 0) && BitOf(hi, 0) == BitOf(n, 4);
    assert BitOf(lo, 1) == BitOf(n, 1) && BitOf(hi, 1) == BitOf(n, 5);
    assert BitOf(lo, 2) == BitOf(n, 2) && BitOf(hi, 2) == BitOf(n, 6);
    assert BitOf(lo, 3) == BitOf(n, 3) && BitOf(hi, 3) == BitOf(n, 7);
  }

  /** At most `j` of the low `j` bits are 1, and all `j` are exactly when each of them is. */
  lemma {:induction false} CountBitsBound(b: bv8, j: nat)
    requires j <= WordSize
    ensures CountBits(b, j) <= j
    ensures CountBits(b, j) == j <==> forall c: nat :: c < j ==> BitOf(b, c)
  {
    if j > 0 {
      CountBitsBound(b, j - 1);
    }
  }

  /** A byte has population count 8 exactly when every one of its bits is 1. */
  lemma FullByte(b: bv8)
    ensures PopCount(b) <= 8
    ensures PopCount(b) == 8 <==> forall j: nat :: j < WordSize ==> BitOf(b, j)
  {
    CountBitsBound(b, WordSize);
  }

  /** Or-ing in the mask of bit `a` turns bit `a` on and leaves every other bit alone. */
  lemma OrMaskBit(b: bv8, a: nat, c: nat)
    requires a < WordSize && c < WordSize
    ensures BitOf(b | Mask(a), c) == (c == a || BitOf(b, c))
  {
  }

  /** And-ing with the complement of the mask of bit `a` turns bit `a` off and leaves every other bit alone. */
  lemma AndNotMaskBit(b: bv8, a: nat, c: nat)
    requires a < WordSize && c < WordSize
    ensures BitOf(b & !Mask(a), c) == (c != a && BitOf(b, c))
  {
  }

  /** A zero byte has no bit set. */
  lemma ZeroByte(j: nat)
    requires j < WordSize
    ensures !BitOf(0, j)
  {
  }

  /** The lowest bit of `b` is 1. */
  predicate LowBit(b: bv8)
  {
    b & 1 == 1
  }

  /** The eight bits of `b`, least-significant first, each read by shifting it down to bit 0. */
  function ByteFlags(b: bv8): (f: seq<bool>)
    ensures |f| == WordSize
  {
    [LowBit(b), LowBit(b >> 1), LowBit(b >> 2), LowBit(b >> 3),
     LowBit(b >> 4), LowBit(b >> 5), LowBit(b >> 6), LowBit(b >> 7)]
  }

  /** Shifting bit `j` down and testing bit 0 agrees with testing it in place under its mask. */
  lemma ShiftIsMask(b: bv8, j: nat)
    requires j < WordSize
    ensures LowBit(b >> j) == BitOf(b, j)
  {
  }

  /** Entry `j` of the shifted reading of `b` is bit `j` of `b`. */
  lemma ByteFlagsBits(b: bv8)
    ensures forall j: nat :: j < WordSize ==> ByteFlags(b)[j] == BitOf(b, j)
  {
    var f := ByteFlags(b);
    forall j: nat | j < WordSize
      ensures f[j] == BitOf(b, j)
    {
      ShiftIsMask(b, j);
    }
  }

  /** Or-ing in the mask of a bit that is already 1 leaves the byte unchanged. */
  lemma OrMaskIdle(b: bv8, a: nat)
    requires a < WordSize && BitOf(b, a)
    ensures b | Mask(a) == b
  {
  }

  /** Clearing a bit that is already 0 leaves the byte unchanged. */
  lemma AndNotMaskIdle(b: bv8, a: nat)
    requires a < WordSize && !BitOf(b, a)
    ensures b & !Mask(a) == b
  {
  }
}
