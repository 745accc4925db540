# BitMmap slot allocator, modelled in Dafny

This project models `BitMmap` from bitmap.go. `BitMmap` is a persistent slot allocator. It reads a memory-mapped byte region as a flat bit vector. Slot `k` is bit `k % 8` of byte `k / 8`, least-significant bit first. A bit set to 1 means the slot is in use. The allocator keeps a cached count `used` of occupied slots. It hands out the lowest free slot, and it grows the region by one chunk of 65536 zero bytes when the counter says it is nearly full.

The model is a set of pure functions and methods over an immutable value `BitMmap(mmap: seq<bv8>, used: int)`. An operation that mutates the Go struct returns the new state instead. The length of `mmap` plays the role of the Go field `size`. The mapping always covers exactly `size` bytes, so the two cannot differ.

Modules:

- `Bytes` (bytes.dfy) covers single bytes. It defines the bit mask `1 << j` and a bit-by-bit reference population count. It also defines the nibble table `bitmapTable` and the two-lookup count `bits` that the code uses. A lemma proves that the two counts agree.
- `Region` (region.dfy) covers the region as slots. It defines `Has` and the single-bit updates that `Set` and `Del` perform, and it proves what each update does to every slot. It defines the true population count `Occupied`, counted one slot at a time. It defines `FirstFree`, a slot-by-slot reference search for the lowest free slot. It also defines the flat flag sequence `Flags`, built by shifting each byte down bit by bit.
- `Bitmap` (bitmap.dfy) covers the allocator itself: `Open`, `Has`, `Set`, `Del`, `CheckGrow`, `Next`, `Add`, `Used` and `All`. It states two invariants. `Consistent` says the cached counter equals `Occupied`. `WellSized` says the region is a positive whole number of chunks.

Main results:

- The nibble-table count equals the bit count, so it is at most 8.
- `Set` and `Del` change exactly one slot and move `used` by one. They keep `Consistent` if and only if the caller respected the precondition: `Set` on a free slot, `Del` on a used slot.
- `Next` returns exactly the slot that the slot-by-slot reference search finds, even though it skips full bytes by their population count. It returns -1 only when every slot of the region after growth is in use. It never returns -1 unless the counter undercounts.
- `Used` and `All` agree with the slot-by-slot count. `All` returns exactly the used slots, in strictly ascending order.
- The fresh-file scenario gives the allocations 0, 1, 2. After freeing slot 1, the next allocation reuses 1.

## Model

| member | source | states |
|---|---|---|
| `Bytes.NibbleTableCounts` | bitmap.go:10 | Each of the 16 `bitmapTable` entries equals the number of 1-bits in its 4-bit index. |
| `Bytes.BitsIsPopCount` | bitmap.go:59-61 | `bits(n)`, two table lookups for the high and low nibble, equals the bit-by-bit population count of byte `n`, so it lies in 0..8. |
| `Bytes.FullByte` | bitmap.go:73 | A byte's population count is at most 8, and it is exactly 8 iff every bit is 1. This is why `Next` may skip a byte whose count is not below 8. |
| `Region.SetBitSlots` | bitmap.go:49 | Or-ing `1 << (k % 8)` into byte `k / 8` turns slot `k` on and leaves every other slot of the region as it was. |
| `Region.ClearBitSlots` | bitmap.go:55 | And-ing byte `k / 8` with the complement of `1 << (k % 8)` turns slot `k` off and leaves every other slot as it was. |
| `Region.PopPrefixCounts` | bitmap.go:85-91 | Summing per-byte population counts over the first `i` bytes gives the number of used slots among the first `8 * i` slots. |
| `Bitmap.HasReadsFlags` | bitmap.go:35-37 | `Has(k)` is entry `k` of the region read as one flat sequence of flags, bit 0 of byte 0 first, each bit read by shifting it down. |
| `Bitmap.Set` | bitmap.go:47-51 | Afterwards slot `k` is in use, every other slot is unchanged, the size is unchanged, and `used` is one higher. If `k` was already in use, the bytes are unchanged and `used` still goes up. |
| `Bitmap.SetConsistent` | bitmap.go:47-51 | From a consistent state, `Set(k)` leaves the counter equal to the true population count iff slot `k` was free. On a used slot it overcounts. |
| `Bitmap.Del` | bitmap.go:53-57 | Afterwards slot `k` is free, every other slot is unchanged, the size is unchanged, and `used` is one lower. If `k` was already free, the bytes are unchanged and `used` still goes down. |
| `Bitmap.DelConsistent` | bitmap.go:53-57 | From a consistent state, `Del(k)` leaves the counter equal to the true population count iff slot `k` was in use. On a free slot it undercounts. |
| `Bitmap.CheckGrow` | bitmap.go:108-115 | The state is left as it is exactly when `used + 1 < size * 8`. Otherwise the region grows by exactly one chunk: the old bytes are kept as a prefix, every new slot is free, and `used` is unchanged. |
| `Bitmap.CheckGrowConsistent` | bitmap.go:108-115 | Growing keeps the counter consistent, and cannot make an inconsistent counter consistent, because the appended zero bytes add no used slot. |
| `Bitmap.CheckGrowWellSized` | bitmap.go:108-115 | Growing never shrinks the region, and a region that is a positive whole number of 65536-byte chunks stays one. |
| `Bitmap.CheckGrowLeavesRoom` | bitmap.go:108-111 | If the counter does not undercount the used slots, then after the growth check some slot is free. |
| `Bitmap.Next` | bitmap.go:70-83 | After the growth check, returns the lowest free slot, the same one as the slot-by-slot reference search. It returns -1 iff every slot of the grown region is in use, and never when the counter does not undercount. |
| `Bitmap.Add` | bitmap.go:39-45 | Returns -1 exactly when `Next` does, and then only grows. Otherwise it returns the lowest free slot `k`: `k` was free before and is used after, all other slots are unchanged, and `used` is one higher. It keeps `Consistent` and never returns -1 from a consistent state. It keeps the size a positive whole number of chunks, and the size never shrinks. |
| `Bitmap.AddSkipsUsed` | bitmap.go:39-45 | For every state and every slot `s` in use, `Add` does not return `s`, and `s` is still in use afterwards. So a slot is never handed out twice without a `Del` between the two allocations. |
| `Bitmap.NextUndercounted` | bitmap.go:70-83 | A single full byte whose counter says 6 passes the growth check unchanged, because 6 + 1 < 8. `Next` then returns -1 with no growth failure, since the counter undercounts. |
| `Bitmap.Used` | bitmap.go:85-91 | The byte-by-byte nibble-table sum equals the slot-by-slot population count of the whole region. |
| `Bitmap.AllInByte` | bitmap.go:97-103 | Scanning the 8 bits of byte `i` extends an ascending list of the used slots below `8 * i` to an ascending list of exactly the used slots below `8 * i + 8`. |
| `Bitmap.All` | bitmap.go:93-106 | Returns the used slots in strictly ascending order, with no duplicates. A value is in the list iff it is a used slot. The length of the list is the population count. The guard `bits(..) <= 8` holds for every byte. |
| `Bitmap.Open` | bitmap.go:20-33 | An empty file becomes one chunk of zero bytes with `used == 0`. A non-empty file is mapped as it is. Either way `used` starts equal to the true population count, and the region is a positive whole number of chunks when the file length was a whole number of chunks. |
| `Bitmap.FreshScenario` | bitmap.go:20-57 | On a fresh file, three allocations return 0, 1, 2. Deleting slot 1 and allocating again returns 1. The final state has slots 0, 1, 2 used and slot 3 free, with `used == 3` and a consistent counter. |

## Left out

- `OpenFile`, `resize`, `Mmap`, `Sync`, `Munmap`, `file.Close` and `CloseBitMmap` are file and mapping primitives. The region is an in-memory byte sequence. Opening takes the file's current contents as a parameter. `resize` is modelled as appending zero bytes and is assumed to return the requested length.
- Persistence across close and reopen is left out, because it depends on how the operating system flushes mappings. What can be modelled is covered by `Open`: reopening over the same bytes maps them unchanged and recomputes a consistent counter.
- The `.idx` path suffix and the `path` and `file` fields are left out, because they are string and handle plumbing.
- Concurrency is left out. The code has no locking, and the model is sequential.
- `Bitmap.Has`, `Bitmap.Set`, `Bitmap.Del`: slot indices are natural numbers below the capacity, and negative indices are not modelled. In the Go code, `k <= -8` and `k >= size * 8` make the byte index go out of range, which panics. Indices -7..-1 do not panic. `k / wordSize` truncates to byte 0, and `uint(k % wordSize)` wraps to a huge shift, so the byte mask is 0. `Has(k)` then returns false, and `Set(k)` and `Del(k)` leave the bytes unchanged while still moving `used` up or down.
- `Bitmap.Open`: a non-empty file whose length is not a whole number of chunks is mapped as it is, as in the code. The model only promises `WellSized` when the length is a whole number of chunks.
- `used`, `size` and slot indices are unbounded integers. The Go `int` is 64 bits wide, and no region that fits in memory comes close to overflowing it.

Behaviour of the code worth knowing:

- `Next` can return -1 with no growth failure when the counter undercounts, for example after `Del` on a free slot. `checkGrow` (bitmap.go:109) then sees room that does not exist. `NextUndercounted` exhibits this. `Next` promises a free slot only when the counter does not undercount.
- `checkGrow` grows once `used + 1 >= size * 8`, which is already true while one slot is still free.
