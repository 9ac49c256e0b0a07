# Segmented struct pool, modelled in Dafny

The repository implements `FastPool<TObject>`, a slab allocator for value
records. Records live in segments of 16, 16, 32, 64, ... slots. An occupancy
`Bitmap` records which handles are in use. A watermark `_count` is the next
handle never handed out. A LIFO stack `_holes` holds freed handles that a
sweep (`RunGC`) found.

`Create` proceeds in order:

1. It pops a hole if there is one.
2. Otherwise, when the watermark has reached capacity (`Log2(_count) > _size`),
   it sweeps the bitmap. If the sweep finds holes it retries. If it finds none,
   it adds one segment.
3. It hands out the watermark.

`Get` checks the handle's flag and resolves the handle to a segment and an
offset in closed form. `Free` clears the flag, and `AllocatedAt` reads it.
`Pool.cs` is a line-for-line copy of `FastPool.cs`, so one model covers both.
The table cites `FastPool.cs`; `Pool.cs` has the same code without some of
the comments (for example, `Create` is `Pool.cs:35-75`).

Files:

- `powers_of_two.dfy` (module `PowersOfTwo`): `Pow2` models `1 << n` and
  `Log2` models `BitOperations.Log2`, with `Log2(0) == 0`. Alongside them are
  lemmas on monotonicity, uniqueness, and the test `Log2(x) > s` read as
  `x >= 2^(s+1)`.
- `bitmap.dfy` (module `Bitmaps`): the `Bitmap` class over a `seq<bool>`.
  Its methods are proved against the value functions `Extend` (growth to the
  least power of two above the index), `Store` and `FalseIndices` (the
  ascending enumeration of clear flags).
- `addressing.dfy` (module `Addressing`): the pure arithmetic of `Get`, which
  maps a handle to its segment and offset. It is proved injective, in range
  and onto every slot.
- `pool.dfy` (module `Pools`): the `Pool<T>` class.
  - Its fields are a `seq` of `array<T>` segments, the bitmap, `count`, `size`
    and the hole stack as a `seq<nat>` whose top is the last element.
  - `zero` stands for `new TObject()`.
  - Invariants: the segment table has the documented lengths, no flag at or
    above the watermark is set, and the holes are distinct, below the
    watermark and clear.
  - The twostate predicate `Allocated` states what one allocation does. The
    handle handed out (`NextHandle`) was free before the call and is set after
    it. It comes off the pending stack without moving `count` or `size`, or
    else it is the old watermark and `count` grows by one. `size` grows only
    when the watermark was at its limit and a sweep found nothing.
- `scenarios.dfy` (module `Scenarios`): client sequences that work out the
  documented behaviour on a concrete `Pool<int>`.

## Model

| member | source | states |
|---|---|---|
| PowersOfTwo.Pow2 | FastPool.cs:45 | `1 << n` is positive |
| PowersOfTwo.Log2 | FastPool.cs:42 | for x >= 1, 2^r <= x < 2^(r+1), which is the highest set bit |
| PowersOfTwo.Pow2Monotone | FastPool.cs:45 | a <= b implies 2^a <= 2^b |
| PowersOfTwo.Log2Unique | FastPool.cs:111 | Log2(x) is the k with 2^k <= x < 2^(k+1) |
| PowersOfTwo.Log2Exceeds | FastPool.cs:71 | the growth test `Log2(_count) > _size` holds exactly when _count >= 2^(_size+1), also when _count is 0 |
| PowersOfTwo.Log2Between | FastPool.cs:42 | Log2 of a value in [2^lo, 2^hi) lies in [lo, hi) |
| Bitmaps.Extend | Bitmap.cs:18-21 | an index below the length leaves the vector as it is; otherwise the length becomes 2^(Log2(i)+1), the old flags are kept and the new flags are false; the length never decreases and no observed flag changes |
| Bitmaps.Store | Bitmap.cs:25-32 | after a store the flag at i reads v and every other index reads as before |
| Bitmaps.ExtendIsLeastPowerAbove | Bitmap.cs:20 | growth lands on the least power of two strictly above the index: half the new length is at most i |
| Bitmaps.GetAfterSet | Bitmap.cs:16-32 | `Get(i)` after `Set(i, v)` does not grow the vector and returns v |
| Bitmaps.SetIdempotent | Bitmap.cs:25-32 | setting the same flag twice equals setting it once (so `Free` twice equals `Free` once) |
| Bitmaps.FalseBelowExact | Bitmap.cs:34-43 | the enumeration is strictly increasing and contains exactly the indices below n whose flag is clear |
| Bitmaps.FalseBelowSkipsSetRun | Bitmap.cs:36-42 | a run of set flags adds nothing to the enumeration |
| Bitmaps.Bitmap.constructor | Bitmap.cs:11-14 | a new bitmap has length `capacity`, every flag false |
| Bitmaps.Bitmap.Get | Bitmap.cs:16-23 | returns the observed flag; the vector becomes `Extend(old, index)`, so only its length may change; the frame is empty when no growth happens |
| Bitmaps.Bitmap.Set | Bitmap.cs:25-32 | the vector becomes `Store(old, index, value)` |
| Bitmaps.Bitmap.EnumerateFalse | Bitmap.cs:34-43 | the loop yields `FalseIndices(bits)`, made exact and ascending by FalseBelowExact |
| Addressing.SegmentOf | FastPool.cs:106-114 | segment 0 exactly for handles below 16 |
| Addressing.OffsetOf | FastPool.cs:106-114 | the offset lies within its segment's length, and segment start plus offset is the handle |
| Addressing.Locate | FastPool.cs:106-114 | the (segment, offset) pair that `Get` resolves a handle to lies within that segment, and segment start plus offset gives the handle back; the segment is 0 exactly for handles below 16 |
| Addressing.HighHandle | FastPool.cs:111-114 | for handles of 16 and above, `poolIdx - 3` is at least 1 and the subtracted `1 << poolIdx` is the segment's start and length |
| Addressing.LocateInjective | FastPool.cs:106-114 | two handles at the same segment and offset are equal |
| Addressing.HandleRoundTrip | FastPool.cs:106-114 | every slot of every segment is reached by its handle, so the map is onto |
| Addressing.LocateWithinPool | FastPool.cs:106-114 | a handle below 2^(size+1) lands in one of segments 0..size-3 |
| Addressing.LocateSegmentRange | FastPool.cs:81 | the handles [2^k, 2^(k+1)) are exactly the slots of segment k-3, the one allocated as `new TObject[1 << k]` |
| Addressing.LocateExamples | FastPool.cs:106-114 | 15 maps to (0,15), 16 to (1,0), 31 to (1,15) and 32 to (2,0) |
| Pools.Clamp | FastPool.cs:39 | capacities below 16 become 16; the rest are unchanged |
| Pools.DistinctBelowPrefix | FastPool.cs:58 | distinctness of the stack's bottom entries survives popping the top |
| Pools.IncreasingIsDistinct | FastPool.cs:131-140 | an ascending sweep pushes no handle twice |
| Pools.CapacityFitsBitmap | FastPool.cs:13 | with at most 12 segments every handle with storage is a bitmap index the source can grow to |
| Pools.SweepYieldsFreeHoles | FastPool.cs:131-140 | at the watermark's limit a sweep builds a valid hole stack: distinct, clear, below the watermark |
| Pools.PopKeepsHolesFree | FastPool.cs:58-60 | the popped hole is clear and below the watermark; after marking it, the rest of the stack and the watermark invariant still hold |
| Pools.MintKeepsInvariant | FastPool.cs:85-87 | the watermark handle is clear; marking it and advancing `_count` keeps both invariants |
| Pools.TopSegmentBounds | FastPool.cs:39-47 | for capacities 16..2^15, `_size = Log2(capacity-1)` lies in 3..14 and 2^(_size+1) covers the capacity, less than twice over |
| Pools.NewSegment | FastPool.cs:81 | `new TObject[n]` is a fresh array of n zero records |
| Pools.NewSegments | FastPool.cs:40-47 | the constructor's loop yields segments 0..top-3 of lengths 16, 16, 32, ..., 2^top, distinct, fresh and zeroed |
| Pools.FreeKeepsInvariant | FastPool.cs:120 | clearing any flag with storage keeps the hole and watermark invariants |
| Pools.Pool.NextHandleIsFree | FastPool.cs:56-96 | the handle the next `Create` hands out has a clear flag; it lies past the storage exactly when a segment must be added, and then it is the first handle of that segment |
| Pools.Pool.constructor | FastPool.cs:35-50 | clamps the capacity to 16, sets `_size = Log2(capacity-1)` (at least 3), covers the capacity with fewer than twice the slots, sizes the bitmap 2^(_size+1) with every flag clear, and zeroes every record |
| Pools.Pool.SlotsOfFilledSegments | FastPool.cs:40-45 | zeroed segments give zeroed records at every handle |
| Pools.Pool.Reference | FastPool.cs:101-115 | fails with InvalidOperation when the flag is clear; otherwise returns `Locate(h)`, which lies in an allocated segment; changes nothing |
| Pools.Pool.Get | FastPool.cs:101-115 | returns the record of h when its flag is set, otherwise fails with InvalidOperation; no flag changes |
| Pools.Pool.Write | FastPool.cs:101-115 | an assignment through the returned reference changes the record of h and no other record; it fails when the flag is clear |
| Pools.Pool.Free | FastPool.cs:120 | clears exactly the flag of h and keeps the pool valid |
| Pools.Pool.AllocatedAt | FastPool.cs:125 | returns the flag of h and changes nothing |
| Pools.Pool.RunGC | FastPool.cs:131-140 | the hole stack becomes the ascending list of clear handles; the result tells whether it is non-empty |
| Pools.Pool.PopHole | FastPool.cs:58-60 | pops the top hole, whose flag was clear, marks it and keeps the pool valid |
| Pools.Pool.Grow | FastPool.cs:80-81 | `_size` grows by one, capacity doubles, existing records are kept and the new segment's records are zero |
| Pools.Pool.SlotsOfTopSegment | FastPool.cs:81 | a zeroed top segment gives zeroed records at handles [2^size, 2^(size+1)) |
| Pools.Pool.Mint | FastPool.cs:85-87 | hands out the old `_count`, marks it and increments `_count` by one |
| Pools.Pool.Acquire | FastPool.cs:58-87 | the allocation part of `Create`: the handed-out handle is `NextHandle`, whose flag was clear and is now set; the hole path leaves `_count` and `_size` alone; the fresh path returns the old `_count`; growth only at the limit after an empty sweep; no record changes but the new segment's |
| Pools.Pool.Sweep | FastPool.cs:71-82 | at the limit with no holes: retry from the sweep's holes, or grow by one segment and mint |
| Pools.Pool.Create | FastPool.cs:56-96 | as written: the result was free and is now allocated; on the hole path `init` zeroes the returned handle; on the fresh path `init` zeroes record 0, or fails when flag 0 is clear |
| Pools.Pool.CreateCorrected | FastPool.cs:56-96 | `Create` with `init` applied to the returned handle: never fails, and the handle was free and is now set; with `init` it zeroes that handle's record and no other; without `init` no record changes, so a reused handle keeps its stale content |
| Scenarios.SweepOfFullSegmentIsEmpty | Bitmap.cs:34-43 | a full first segment has no clear flag |
| Scenarios.SweepFindsTwoFiveSeven | Bitmap.cs:34-43 | after freeing 2, 5 and 7 the enumeration is [2, 5, 7] |
| Scenarios.NewDefaultPool | FastPool.cs:33-50 | `new FastPool()`: one segment, capacity 16, every flag clear |
| Scenarios.FillFirstSegment | FastPool.cs:85-87 | the sixteen `Create(false)` calls return 0, 1, ..., 15 in that order, and afterwards every flag of the first segment is set |
| Scenarios.SeventeenthCreateGrows | FastPool.cs:71-82 | from default capacity with no frees the 17th `Create` returns 16 with `_size` 4 |
| Scenarios.FreeTwoFiveSeven | FastPool.cs:120 | freeing 2, 5 and 7 clears exactly those flags |
| Scenarios.FirstCreateAfterSweep | FastPool.cs:131-140 | at watermark 16 the sweep pushes 2, 5, 7 and the first handle handed out is 7 |
| Scenarios.SweepReissuesInDescendingOrder | FastPool.cs:58-75 | the next three `Create`s return 7, 5, 2 |
| Scenarios.FreeThenGetFails | FastPool.cs:101-125 | after `Free(4)`, `AllocatedAt(4)` is false and `Get(4)` fails; a second `Free(4)` changes nothing |
| Scenarios.FreeTwoFiveSevenHolding42 | FastPool.cs:120 | `Free` keeps the record it clears |
| Scenarios.ReuseKeepsRecordUnlessInit | FastPool.cs:58-68 | a reissued handle keeps its stale record unless `init` is given, which zeroes it |
| Scenarios.FirstHandleInUse | FastPool.cs:85-87 | the first `Create` on a default pool marks handle 0 |
| Scenarios.FirstHandleHolding42 | FastPool.cs:101-115 | writing 42 through handle 0 changes record 0 only |
| Scenarios.InitOnWatermarkPathZeroesSlotZero | FastPool.cs:89-93 | as written, `Create(true)` on the fresh path returns 1 but zeroes record 0 |
| Scenarios.InitOnWatermarkPathFailsWhenSlotZeroFree | FastPool.cs:89-93 | as written, `Create(true)` on the fresh path fails when handle 0 is free, and the handle it marked stays marked |
| Scenarios.CorrectedInitLeavesSlotZero | FastPool.cs:89-93 | with the correction, handle 0 keeps 42 and the new handle 1 reads 0 |

## Left out

- Program.cs: a demo driver that prints to the console and has no logic of its own.
- The static `Default` instance (FastPool.cs:31): process-global state. Pools are explicit objects here, and `new FastPool()` is `new Pool(0, zero)`.
- `ref` aliasing: `Get` returns a reference in the source. Here it is a read, `Pools.Pool.Get`, plus an assignment through that reference, `Pools.Pool.Write`. Both go through the same `Pools.Pool.Reference`. References kept past a later call are not modelled.
- `TObject` is a type parameter whose `new TObject()` value is `zero`. Struct layout and default construction are not modelled.
- `BitArray` internals are a `seq<bool>`. The `Stack<uint>` is a `seq<nat>` whose top is its last element. `TryPop`, `Push` and the stack's initial capacity are sequence operations.
- The segment table `TObject[12][]` is a sequence of its allocated entries, segment k at index k. Its unallocated `null` tail is not modelled.
- `Create` is split into `Acquire` (the pop, the size test and the watermark), `Sweep`, `PopHole`, `Grow` and `Mint`, plus the `init` step. The recursive `return Create(init)` is the call from `Sweep` back to `Acquire`. That call always takes the hole path.
- Integer widths: `_count` is a `uint` and `_size` a `ushort`. With at most 12 segments neither can wrap, so `nat` is used.
- Bitmaps.Bitmap.Get: requires an index below the current length or below 2^30, because from 2^30 on the growth step fails at run time. For indices below 2^31, `1 << 31` is a negative length. From 2^31 on, the shift count wraps to 0, the vector is cut to length 1 and `(int)index` is negative. An index below the current length needs no growth and is accepted at any size.
- Bitmaps.Bitmap.Set: requires an index below the current length or below 2^30, for the same reason.
- Pools.Pool.Get: requires h < 2^(_size+1). On a handle past the storage the source's `_bitmap.Get` first grows the bitmap past the storage, as `AllocatedAt` does, and then fails with InvalidOperationException, since the flag there is clear. The model keeps the bitmap exactly as long as the storage, so it leaves this case out.
- Pools.Pool.Reference: requires h < 2^(_size+1), for the same reason as `Get`.
- Pools.Pool.Write: requires h < 2^(_size+1), for the same reason as `Get`.
- Pools.Pool.Free: requires h < 2^(_size+1). The source would otherwise extend the bitmap past the storage, and a later sweep would push handles with no segment.
- Pools.Pool.AllocatedAt: requires h < 2^(_size+1), for the same reason.
- Pools.Pool.constructor: requires capacity <= 2^15. Larger capacities overflow the 12-entry table, which the source reports as a run-time index error.
- Pools.Pool.Create: requires that a call which must add a segment finds `_size` below 14. Past that the 12-entry table overflows.
- Pools.Pool.CreateCorrected: requires the same bound as `Create`.
- Pools.Pool.RunGC: requires an empty hole stack with the watermark at its limit. That is the only state `Create` calls it in, where the stack starts empty.
- Pools.Pool.Create: the init step on the fresh path is modelled as the code writes it, `Get(hole)` with `hole == 0`. The documented behaviour, zeroing the new handle, is `CreateCorrected` (see Findings).
- Bitmaps.Bitmap.EnumerateFalse: the source's lazy enumerator is a loop that returns the whole ascending list. The allocator never changes the bitmap while it iterates.
- Touching index 0 of an empty bitmap grows it to length 2, because `Log2(0) == 0`. The model keeps this, but the pool always starts with at least 16 flags, so it never arises there.

## Findings

| source | as written | input that shows it | evidently intended | confidence | as-written member | corrected member |
|---|---|---|---|---|---|---|
| FastPool.cs:89-93 (Pool.cs:68-72) | on the watermark path, `init` zeroes `Get(hole)`, where `hole` is 0 from the failed `TryPop` | default pool; `Create(false)` returns 0; write 42 to handle 0; `Create(true)` returns 1 and record 0 becomes 0 | zero the record of the new handle `obj` | high, not executed | Scenarios.InitOnWatermarkPathZeroesSlotZero | Scenarios.CorrectedInitLeavesSlotZero |
| FastPool.cs:89-93 (Pool.cs:68-72) | the same `Get(hole)` fails when handle 0 is free, after the new handle was already marked in use | default pool; `Create(false)`; `Free(0)`; `Create(true)` fails and handle 1 stays marked | `Create(true)` succeeds and returns 1 | high, not executed | Scenarios.InitOnWatermarkPathFailsWhenSlotZeroFree | Pools.Pool.CreateCorrected |
