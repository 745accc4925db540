/**
 The mapped region viewed as a flat bit vector: slot `k` is bit `k % 8`
 (least-significant bit first) of byte `k / 8`. This module holds the
 slot-level reading of the bytes, the reference count of occupied slots,
 and the facts about single-bit updates and zero-filled growth that the
 allocator relies on.
 */
module Region {
  import opened Bytes

  /** Number of slots a region of `|m|` bytes holds. */
  function Slots(m: seq<bv8>): nat
  {
    |m| * 8
  }

  /** Slot `k` is in use: bit `k % 8` of byte `k / 8` is 1. */
  predicate Has(m: seq<bv8>, k: nat)
    requires k < Slots(m)
  {
    BitOf(m[k / WordSize], k % WordSize)
  }

  /** Slot `8 * i + j` is bit `j` of byte `i`. */
  lemma HasInByte(m: seq<bv8>, i: nat, j: nat)
    requires i < |m| && j < WordSize
    ensures 8 * i + j < Slots(m)
    ensures Has(m, 8 * i + j) == BitOf(m[i], j)
  {
  }

  /** The region with slot `k` turned on (the byte update of `Set`). */
  function SetBit(m: seq<bv8>, k: nat): (r: seq<bv8>)
    requires k < Slots(m)
    ensures |r| == |m|
  {
    m[k / WordSize := m[k / WordSize] | Mask(k % WordSize)]
  }

  /** The region with slot `k` turned off (the byte update of `Del`). */
  function ClearBit(m: seq<bv8>, k: nat): (r: seq<bv8>)
    requires k < Slots(m)
    ensures |r| == |m|
  {
    m[k / WordSize := m[k / WordSize] & !Mask(k % WordSize)]
  }

  /** After `SetBit(m, k)` exactly the slots of `m` plus `k` are in use. */
  lemma SetBitSlots(m: seq<bv8>, k: nat)
    requires k < Slots(m)
    ensures forall j: nat :: j < Slots(m) ==> Has(SetBit(m, k), j) == (j == k || Has(m, j))
  {
  }

  /** After `ClearBit(m, k)` exactly the slots of `m` other than `k` are in use. */
  lemma ClearBitSlots(m: seq<bv8>, k: nat)
    requires k < Slots(m)
    ensures forall j: nat :: j < Slots(m) ==> Has(ClearBit(m, k), j) == (j != k && Has(m, j))
  {
  }

  /** `n` zero bytes, the contents the resize primitive gives a file's new extent. */
  function Zeros(n: nat): (z: seq<bv8>)
    ensures |z| == n
  {
    seq(n, _ => 0)
  }

  /** Appending zero bytes keeps every existing slot and adds only free ones. */
  lemma ZerosTail(m: seq<bv8>, n: nat)
    ensures forall j: nat :: j < Slots(m + Zeros(n)) ==>
      Has(m + Zeros(n), j) == (j < Slots(m) && Has(m, j))
  {
  }

  /** Number of occupied slots among the first `n`, counted one slot at a time. */
  function CountHas(m: seq<bv8>, n: nat): nat
    requires n <= Slots(m)
  {
    if n == 0 then 0 else CountHas(m, n - 1) + Ind(Has(m, n - 1))
  }

  /** The true population count of the region. */
  function Occupied(m: seq<bv8>): nat
  {
    CountHas(m, Slots(m))
  }

  /** At most `n` of the first `n` slots are occupied, and all `n` are exactly when none is free. */
  lemma {:induction false} CountHasBound(m: seq<bv8>, n: nat)
    requires n <= Slots(m)
    ensures CountHas(m, n) <= n
    ensures CountHas(m, n) == n <==> forall j: nat :: j < n ==> Has(m, j)
  {
    if n > 0 {
      CountHasBound(m, n - 1);
    }
  }

  /** Two regions whose first `n` slots agree everywhere except possibly at slot `k`
      have counts that differ only by what slot `k` contributes. */
  lemma {:induction false} CountHasExcept(m: seq<bv8>, m': seq<bv8>, k: nat, n: nat)
    requires n <= Slots(m) && n <= Slots(m')
    requires forall j: nat :: j < n && j != k ==> Has(m', j) == Has(m, j)
    ensures CountHas(m', n) + Ind(k < n && Has(m, k)) == CountHas(m, n) + Ind(k < n && Has(m', k))
  {
    if n > 0 {
      CountHasExcept(m, m', k, n - 1);
    }
  }

  /** Turning on a free slot raises the population count by one; turning on a used slot changes nothing. */
  lemma SetBitOccupied(m: seq<bv8>, k: nat)
    requires k < Slots(m)
    ensures Occupied(SetBit(m, k)) == Occupied(m) + Ind(!Has(m, k))
  {
    SetBitSlots(m, k);
    CountHasExcept(m, SetBit(m, k), k, Slots(m));
  }

  /** Turning off a used slot lowers the population count by one; turning off a free slot changes nothing. */
  lemma ClearBitOccupied(m: seq<bv8>, k: nat)
    requires k < Slots(m)
    ensures Occupied(ClearBit(m, k)) + Ind(Has(m, k)) == Occupied(m)
  {
    ClearBitSlots(m, k);
    CountHasExcept(m, ClearBit(m, k), k, Slots(m));
  }

  /** Every slot in the appended zero bytes is free, so they leave the population count as it was. */
  lemma {:induction false} CountHasZerosTail(m: seq<bv8>, z: nat, n: nat)
    requires Slots(m) <= n <= Slots(m + Zeros(z))
    ensures CountHas(m + Zeros(z), n) == CountHas(m, Slots(m))
  {
    ZerosTail(m, z);
    if n == Slots(m) {
      CountHasExcept(m, m + Zeros(z), n, n);
    } else {
      CountHasZerosTail(m, z, n - 1);
    }
  }

  /** Growing a region by zero bytes keeps its population count. */
  lemma ZerosOccupied(m: seq<bv8>, z: nat)
    ensures Occupied(m + Zeros(z)) == Occupied(m)
  {
    CountHasZerosTail(m, z, Slots(m + Zeros(z)));
  }

  /** Sum of the population counts of the first `i` bytes. */
  function PopPrefix(m: seq<bv8>, i: nat): nat
    requires i <= |m|
  {
    if i == 0 then 0 else PopPrefix(m, i - 1) + PopCount(m[i - 1])
  }

  /** The slots of byte `i` below `8 * i + j` add the low `j` bits of that byte to the running count. */
  lemma {:induction false} ByteCountUpTo(m: seq<bv8>, i: nat, j: nat)
    requires i < |m| && j <= WordSize
    ensures CountHas(m, 8 * i + j) == CountHas(m, 8 * i) + CountBits(m[i], j)
  {
    if j > 0 {
      ByteCountUpTo(m, i, j - 1);
      HasInByte(m, i, j - 1);
    }
  }

  /** The eight slots of byte `i` contribute its population count. */
  lemma ByteCount(m: seq<bv8>, i: nat)
    requires i < |m|
    ensures CountHas(m, 8 * i + 8) == CountHas(m, 8 * i) + PopCount(m[i])
  {
    ByteCountUpTo(m, i, WordSize);
  }

  /** Summing byte population counts over the first `i` bytes counts the occupied slots among them. */
  lemma {:induction false} PopPrefixCounts(m: seq<bv8>, i: nat)
    requires i <= |m|
    ensures PopPrefix(m, i) == CountHas(m, 8 * i)
  {
    if i > 0 {
      PopPrefixCounts(m, i - 1);
      ByteCount(m, i - 1);
    }
  }

  /** The least free slot at or above `from`, found one slot at a time, or -1 when there is none. */
  function FirstFree(m: seq<bv8>, from: nat): (r: int)
    requires from <= Slots(m)
    ensures r == -1 <==> forall j: nat :: from <= j < Slots(m) ==> Has(m, j)
    ensures r != -1 ==> from <= r < Slots(m) && !Has(m, r)
    ensures r != -1 ==> forall j: nat :: from <= j < r ==> Has(m, j)
    decreases Slots(m) - from
  {
    if from == Slots(m) then -1
    else if !Has(m, from) then from
    else FirstFree(m, from + 1)
  }

  /** A region whose population count is below its slot count has a free slot. */
  lemma FreeSlotExists(m: seq<bv8>)
    requires Occupied(m) < Slots(m)
    ensures FirstFree(m, 0) != -1
  {
    CountHasBound(m, Slots(m));
  }

  /** The region as the flat, least-significant-bit-first sequence of slot flags. */
  function Flags(m: seq<bv8>): (f: seq<bool>)
    ensures |f| == Slots(m)
  {
    if |m| == 0 then [] else ByteFlags(m[0]) + Flags(m[1..])
  }

  /** The flat flag sequence has one entry per slot, and entry `k` is whether slot `k` is in use. */
  lemma {:induction false} FlagsAreSlots(m: seq<bv8>)
    ensures forall k: nat :: k < Slots(m) ==> Flags(m)[k] == Has(m, k)
  {
    if |m| > 0 {
      FlagsAreSlots(m[1..]);
      ByteFlagsBits(m[0]);
      forall k: nat | k < Slots(m)
        ensures Flags(m)[k] == Has(m, k)
      {
        if k >= WordSize {
          assert Has(m, k) == Has(m[1..], k - WordSize);
        }
      }
    }
  }
}
