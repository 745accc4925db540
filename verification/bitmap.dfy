/**
 The slot allocator `BitMmap`: a mapped byte region read as a flat bit
 vector plus a cached count of occupied slots. The file and mapping
 primitives are replaced by the region's bytes themselves: opening takes the
 file's current contents, and growing appends one chunk of zero bytes.
 Every operation returns the new allocator instead of mutating it.
 */
module Bitmap {
  import opened Bytes
  import Region

  /** Slots in one growth chunk (`bitmapSize`, 1 << 19). */
  const BitmapSize: nat := 0x8_0000

  /** Bytes in one growth chunk (`bitmapSize / wordSize`), 65536. */
  const Chunk: nat := BitmapSize / WordSize

  /** The allocator state: the mapped bytes and the cached count of occupied slots.
      The length of the mapping is the `size` field of the Go `BitMmap` struct. */
  datatype BitMmap = BitMmap(mmap: seq<bv8>, used: int)

  /** Length of the mapped region in bytes. */
  function Size(bm: BitMmap): nat
  {
    |bm.mmap|
  }

  /** Number of slots the region holds. */
  function Capacity(bm: BitMmap): nat
  {
    Region.Slots(bm.mmap)
  }

  /** The cached counter equals the true population count of the region. */
  predicate Consistent(bm: BitMmap)
  {
    bm.used == Region.Occupied(bm.mmap)
  }

  /** The region is a positive whole number of growth chunks. */
  predicate WellSized(bm: BitMmap)
  {
    Size(bm) > 0 && Size(bm) % Chunk == 0
  }

  /** Opens an allocator over a file whose current contents are `contents`.
      An empty file is first resized to one chunk of zero bytes; the cached
      counter is then initialised by a full scan. */
  method Open(contents: seq<bv8>) returns (bm: BitMmap)
    ensures |contents| == 0 ==> bm.mmap == Region.Zeros(Chunk) && bm.used == 0
    ensures |contents| > 0 ==> bm.mmap == contents
    ensures Consistent(bm)
    ensures |contents| % Chunk == 0 ==> WellSized(bm)
  {
    var region := contents;
    if |region| == 0 {
      region := Region.Zeros(Chunk);
      assert Chunk == 65536 && |region| % Chunk == 0;
      assert region == [] + Region.Zeros(Chunk);
      Region.ZerosOccupied([], Chunk);
    }
    var used := Used(BitMmap(region, 0));
    bm := BitMmap(region, used);
  }

  /** Whether slot `k` is in use. */
  predicate Has(bm: BitMmap, k: nat)
    requires k < Capacity(bm)
  {
    Region.Has(bm.mmap, k)
  }

  /** `Has` reads entry `k` of the flat, least-significant-bit-first flag sequence of the region. */
  lemma HasReadsFlags(bm: BitMmap, k: nat)
    requires k < Capacity(bm)
    ensures Has(bm, k) == Region.Flags(bm.mmap)[k]
  {
    Region.FlagsAreSlots(bm.mmap);
  }

  /** Marks slot `k` in use and increments the counter, without checking that it was free. */
  function Set(bm: BitMmap, k: nat): (r: BitMmap)
    requires k < Capacity(bm)
    ensures Size(r) == Size(bm)
    ensures Has(r, k)
    ensures forall j: nat :: j < Capacity(bm) && j != k ==> Has(r, j) == Has(bm, j)
    ensures r.used == bm.used + 1
    ensures Has(bm, k) ==> r.mmap == bm.mmap
  {
    Region.SetBitSlots(bm.mmap, k);
    var r := BitMmap(Region.SetBit(bm.mmap, k), bm.used + 1);
    assert Has(bm, k) ==> r.mmap == bm.mmap by {
      if Has(bm, k) {
        OrMaskIdle(bm.mmap[k / WordSize], k % WordSize);
      }
    }
    r
  }

  /** Marks slot `k` free and decrements the counter, without checking that it was in use. */
  function Del(bm: BitMmap, k: nat): (r: BitMmap)
    requires k < Capacity(bm)
    ensures Size(r) == Size(bm)
    ensures !Has(r, k)
    ensures forall j: nat :: j < Capacity(bm) && j != k ==> Has(r, j) == Has(bm, j)
    ensures r.used == bm.used - 1
    ensures !Has(bm, k) ==> r.mmap == bm.mmap
  {
    Region.ClearBitSlots(bm.mmap, k);
    var r := BitMmap(Region.ClearBit(bm.mmap, k), bm.used - 1);
    assert !Has(bm, k) ==> r.mmap == bm.mmap by {
      if !Has(bm, k) {
        AndNotMaskIdle(bm.mmap[k / WordSize], k % WordSize);
      }
    }
    r
  }

  /** `Set` keeps the counter consistent exactly when the slot was free: setting
      a slot already in use leaves the bytes alone but still counts it. */
  lemma SetConsistent(bm: BitMmap, k: nat)
    requires Consistent(bm) && k < Capacity(bm)
    ensures Consistent(Set(bm, k)) <==> !Has(bm, k)
  {
    Region.SetBitOccupied(bm.mmap, k);
  }

  /** `Del` keeps the counter consistent exactly when the slot was in use:
      deleting a free slot leaves the bytes alone but still uncounts it. */
  lemma DelConsistent(bm: BitMmap, k: nat)
    requires Consistent(bm) && k < Capacity(bm)
    ensures Consistent(Del(bm, k)) <==> Has(bm, k)
  {
    Region.ClearBitOccupied(bm.mmap, k);
  }

  /** Grows the region by one chunk of zero bytes when the counter leaves no
      room for one more slot; otherwise leaves the allocator as it is. */
  function CheckGrow(bm: BitMmap): (r: BitMmap)
    ensures r.used == bm.used
    ensures bm.mmap <= r.mmap
    ensures Size(r) == Size(bm) <==> bm.used + 1 < Capacity(bm)
    ensures Size(r) != Size(bm) ==> Size(r) == Size(bm) + Chunk
    ensures forall j: nat :: j < Capacity(bm) ==> Has(r, j) == Has(bm, j)
    ensures forall j: nat :: Capacity(bm) <= j < Capacity(r) ==> !Has(r, j)
  {
    if bm.used + 1 < Capacity(bm) then bm
    else
      Region.ZerosTail(bm.mmap, Chunk);
      BitMmap(bm.mmap + Region.Zeros(Chunk), bm.used)
  }

  /** Growth keeps the counter consistent, and cannot make an inconsistent one consistent. */
  lemma CheckGrowConsistent(bm: BitMmap)
    ensures Consistent(CheckGrow(bm)) <==> Consistent(bm)
  {
    if Size(CheckGrow(bm)) != Size(bm) {
      Region.ZerosOccupied(bm.mmap, Chunk);
    }
  }

  /** Growth keeps the region a positive whole number of chunks. */
  lemma CheckGrowWellSized(bm: BitMmap)
    requires WellSized(bm)
    ensures WellSized(CheckGrow(bm))
    ensures Size(bm) <= Size(CheckGrow(bm))
  {
  }

  /** As long as the counter does not undercount, a free slot exists after growth. */
  lemma {:induction false} CheckGrowLeavesRoom(bm: BitMmap)
    requires Region.Occupied(bm.mmap) <= bm.used
    ensures Region.FirstFree(CheckGrow(bm).mmap, 0) != -1
  {
    var g := CheckGrow(bm);
    if Size(g) == Size(bm) {
      Region.FreeSlotExists(bm.mmap);
    } else {
      assert !Has(g, Capacity(bm));
    }
  }

  /** Finds the lowest free slot after the growth check, skipping full bytes
      by their population count, or -1 when every slot is in use. */
  method Next(bm: BitMmap) returns (g: BitMmap, k: int)
    ensures g == CheckGrow(bm)
    ensures k == -1 <==> forall j: nat :: j < Capacity(g) ==> Has(g, j)
    ensures k != -1 ==> 0 <= k < Capacity(g) && !Has(g, k)
    ensures k != -1 ==> forall j: nat :: j < k ==> Has(g, j)
    ensures k == Region.FirstFree(g.mmap, 0)
    ensures Region.Occupied(bm.mmap) <= bm.used ==> k != -1
  {
    g := CheckGrow(bm);
    var m := g.mmap;
    var i := 0;
    while i < |m|
      invariant 0 <= i <= |m|
      invariant forall c: nat :: c < 8 * i ==> Region.Has(m, c)
    {
      BitsIsPopCount(m[i]);
      FullByte(m[i]);
      if Bits(m[i]) < 8 {
        var j := 0;
        while j < 8
          invariant 0 <= j <= 8
          invariant forall c: nat :: c < 8 * i + j ==> Region.Has(m, c)
        {
          var cur := i * WordSize + j;
          if !Has(g, cur) {
            k := cur;
            SameFirstFree(m, k);
            return;
          }
          j := j + 1;
        }
      } else {
        forall c: nat | 8 * i <= c < 8 * i + 8
          ensures Region.Has(m, c)
        {
          Region.HasInByte(m, i, c - 8 * i);
        }
      }
      i := i + 1;
    }
    k := -1;
    if Region.Occupied(bm.mmap) <= bm.used {
      CheckGrowLeavesRoom(bm);
    }
  }

  /** The lowest free slot is the one the slot-by-slot search finds. */
  lemma SameFirstFree(m: seq<bv8>, k: nat)
    requires k < Region.Slots(m) && !Region.Has(m, k)
    requires forall c: nat :: c < k ==> Region.Has(m, c)
    ensures Region.FirstFree(m, 0) == k
  {
  }

  /** Allocates the lowest free slot (after the growth check) and returns it,
      or returns -1 and allocates nothing when no slot is free. */
  method Add(bm: BitMmap) returns (r: BitMmap, k: int)
    ensures k == Region.FirstFree(CheckGrow(bm).mmap, 0)
    ensures k == -1 ==> r == CheckGrow(bm)
    ensures k != -1 ==> 0 <= k < Capacity(r) && Size(r) == Size(CheckGrow(bm))
    ensures k != -1 ==> !Has(CheckGrow(bm), k) && Has(r, k)
    ensures k != -1 ==> forall j: nat :: j < Capacity(r) && j != k ==> Has(r, j) == Has(CheckGrow(bm), j)
    ensures k != -1 ==> r.used == bm.used + 1
    ensures Consistent(bm) ==> k != -1 && Consistent(r)
    ensures WellSized(bm) ==> WellSized(r)
    ensures Size(bm) <= Size(r)
  {
    var g;
    g, k := Next(bm);
    CheckGrowConsistent(bm);
    if WellSized(bm) {
      CheckGrowWellSized(bm);
    }
    if k != -1 {
      r := Set(g, k);
      if Consistent(bm) {
        SetConsistent(g, k);
      }
    } else {
      r := g;
    }
  }

  /** Recomputes the population count of the whole region, byte by byte through the nibble table. */
  method Used(bm: BitMmap) returns (n: int)
    ensures n == Region.Occupied(bm.mmap)
  {
    n := 0;
    var i := 0;
    while i < Size(bm)
      invariant 0 <= i <= Size(bm)
      invariant n == Region.PopPrefix(bm.mmap, i)
    {
      BitsIsPopCount(bm.mmap[i]);
      n := n + Bits(bm.mmap[i]);
      i := i + 1;
    }
    Region.PopPrefixCounts(bm.mmap, Size(bm));
  }

  /** Appends, in ascending order, the slots of byte `i` that are in use. */
  method AllInByte(bm: BitMmap, i: nat, prefix: seq<int>) returns (all: seq<int>)
    requires i < Size(bm)
    requires forall a, b :: 0 <= a < b < |prefix| ==> prefix[a] < prefix[b]
    requires forall x :: x in prefix <==> 0 <= x < 8 * i && Has(bm, x)
    requires |prefix| == Region.CountHas(bm.mmap, 8 * i)
    ensures forall a, b :: 0 <= a < b < |all| ==> all[a] < all[b]
    ensures forall x :: x in all <==> 0 <= x < 8 * i + 8 && Has(bm, x)
    ensures |all| == Region.CountHas(bm.mmap, 8 * i + 8)
  {
    all := prefix;
    assert forall a :: 0 <= a < |all| ==> all[a] in all;
    var j := 0;
    while j < 8
      invariant 0 <= j <= 8
      invariant forall a, b :: 0 <= a < b < |all| ==> all[a] < all[b]
      invariant forall a :: 0 <= a < |all| ==> all[a] < 8 * i + j
      invariant forall x :: x in all <==> 0 <= x < 8 * i + j && Has(bm, x)
      invariant |all| == Region.CountHas(bm.mmap, 8 * i + j)
    {
      var cur := i * WordSize + j;
      if Has(bm, cur) {
        all := all + [cur];
      }
      j := j + 1;
    }
  }

  /** Lists every slot in use, in strictly ascending order. Its byte guard,
      a population count of at most 8, holds for every byte. */
  method All(bm: BitMmap) returns (all: seq<int>)
    ensures forall a, b :: 0 <= a < b < |all| ==> all[a] < all[b]
    ensures forall x :: x in all <==> 0 <= x < Capacity(bm) && Has(bm, x)
    ensures |all| == Region.Occupied(bm.mmap)
  {
    all := [];
    var i := 0;
    while i < Size(bm)
      invariant 0 <= i <= Size(bm)
      invariant forall a, b :: 0 <= a < b < |all| ==> all[a] < all[b]
      invariant forall x :: x in all <==> 0 <= x < 8 * i && Has(bm, x)
      invariant |all| == Region.CountHas(bm.mmap, 8 * i)
    {
      BitsIsPopCount(bm.mmap[i]);
      if Bits(bm.mmap[i]) <= 8 {
        all := AllInByte(bm, i, all);
      }
      i := i + 1;
    }
  }

  /** A slot in use is never handed out again: `Add` returns some other slot
      (or -1), and the used slot stays in use. */
  method AddSkipsUsed(bm: BitMmap, s: nat) returns (r: BitMmap, k: int)
    requires s < Capacity(bm) && Has(bm, s)
    ensures k != s
    ensures s < Capacity(r) && Has(r, s)
  {
    r, k := Add(bm);
  }

  /** `Next` can report no free slot without any growth failure: a full byte
      whose counter says 6 passes the growth check unchanged, and then every
      slot is found in use. */
  method NextUndercounted() returns (bm: BitMmap, k: int)
    ensures bm.used < Region.Occupied(bm.mmap)
    ensures CheckGrow(bm) == bm
    ensures k == -1
  {
    bm := BitMmap([0xFF], 6);
    PopCountSum(0xFF);
    FullByte(0xFF);
    Region.ByteCount(bm.mmap, 0);
    forall j: nat | j < Capacity(bm)
      ensures Has(bm, j)
    {
      Region.HasInByte(bm.mmap, 0, j);
    }
    var g;
    g, k := Next(bm);
  }

  /** Opening a fresh file, allocating three slots, freeing the middle one and
      allocating again reuses the freed slot. */
  method FreshScenario() returns (ks: seq<int>, bm: BitMmap)
    ensures ks == [0, 1, 2, 1]
    ensures Size(bm) == Chunk && Consistent(bm) && bm.used == 3
    ensures Has(bm, 0) && Has(bm, 1) && Has(bm, 2) && !Has(bm, 3)
  {
    var b0 := Open([]);
    assert Chunk == 65536 && b0.mmap[0] == 0;
    forall j: nat | j < 4
      ensures !Has(b0, j)
    {
      ZeroByte(j);
    }
    assert CheckGrow(b0) == b0;
    var b1, k1 := Add(b0);
    assert k1 == 0;
    assert Has(b1, 0) && !Has(b1, 1) && !Has(b1, 2) && !Has(b1, 3);
    assert CheckGrow(b1) == b1;
    var b2, k2 := Add(b1);
    assert k2 == 1;
    assert Has(b2, 0) && Has(b2, 1) && !Has(b2, 2) && !Has(b2, 3);
    assert CheckGrow(b2) == b2;
    var b3, k3 := Add(b2);
    assert k3 == 2;
    assert Has(b3, 0) && Has(b3, 1) && Has(b3, 2) && !Has(b3, 3);
    var b4 := Del(b3, 1);
    DelConsistent(b3, 1);
    assert CheckGrow(b4) == b4;
    assert Has(b4, 0) && !Has(b4, 1) && Has(b4, 2) && !Has(b4, 3);
    var b5, k5 := Add(b4);
    assert k5 == 1;
    ks := [k1, k2, k3, k5];
    bm := b5;
  }
}
