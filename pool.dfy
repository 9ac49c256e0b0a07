/**
  The segmented pool: records live in segments of 16, 16, 32, 64, ... slots,
  an occupancy bitmap says which handles are in use, a watermark `count` is
  the next never-used handle, and a stack of holes found by a sweep of the
  bitmap is drained before the watermark moves.
 */
module Pools {
  import opened PowersOfTwo
  import opened Bitmaps
  import opened Addressing

  /** The one error the pool raises: access through a handle whose flag is clear. */
  datatype PoolError = InvalidOperation

  datatype Result<R> = Ok(value: R) | Err(error: PoolError)

  /** Segment 0 alone covers the handles below 2^(MinSize + 1) = 16. */
  const MinSize: nat := 3

  /** The segment table has 12 entries, segments 0..MaxSize-3. */
  const MaxSize: nat := 14

  /** The largest requested capacity whose segments fit the table: Log2(MaxCapacity - 1) == MaxSize. */
  const MaxCapacity: nat := 0x8000

  /** The constructor never allocates fewer than 16 slots. */
  function Clamp(capacity: nat): (c: nat)
    ensures c >= FirstSegmentLength
    ensures capacity < FirstSegmentLength ==> c == FirstSegmentLength
    ensures capacity >= FirstSegmentLength ==> c == capacity
  {
    if capacity < FirstSegmentLength then FirstSegmentLength else capacity
  }

  /** Every flag at or above the watermark is clear: those handles were never handed out. */
  ghost predicate ClearFrom(bits: seq<bool>, count: nat)
  {
    forall i :: count <= i < |bits| ==> !bits[i]
  }

  /** No handle occurs twice among the first `n` entries of the stack. */
  ghost predicate DistinctBelow(s: seq<nat>, n: nat)
    requires n <= |s|
  {
    n == 0 || ((forall p :: 0 <= p < n - 1 ==> s[p] != s[n - 1]) && DistinctBelow(s, n - 1))
  }

  /** `DistinctBelow` depends only on the first `n` entries. */
  lemma {:induction false} DistinctBelowPrefix(s: seq<nat>, t: seq<nat>, n: nat)
    requires n <= |s| && n <= |t| && s[..n] == t[..n]
    requires DistinctBelow(s, n)
    ensures DistinctBelow(t, n)
  {
    if n > 0 {
      assert forall p :: 0 <= p < n ==> s[p] == s[..n][p] == t[..n][p] == t[p];
      assert s[..n - 1] == s[..n][..n - 1] == t[..n][..n - 1] == t[..n - 1];
      DistinctBelowPrefix(s, t, n - 1);
    }
  }

  lemma {:induction false} IncreasingIsDistinct(s: seq<nat>, n: nat)
    requires n <= |s| && StrictlyIncreasing(s)
    ensures DistinctBelow(s, n)
  {
    if n > 0 {
      IncreasingIsDistinct(s, n - 1);
    }
  }

  /** The holes are distinct handles below the watermark whose flags are clear. */
  ghost predicate HolesFree(holes: seq<nat>, bits: seq<bool>, count: nat)
  {
    && (forall p :: 0 <= p < |holes| ==> holes[p] < count && holes[p] < |bits| && !bits[holes[p]])
    && DistinctBelow(holes, |holes|)
  }

  /** The powers of two the pool's bounds are written in. */
  lemma Pow2Table()
    ensures Pow2(3) == 8 && Pow2(4) == FirstSegmentLength && Pow2(15) == MaxCapacity
  {
    assert Pow2(1) == 2;
    assert Pow2(2) == 4;
    assert Pow2(3) == 8;
    assert Pow2(4) == 16;
    assert Pow2(5) == 32;
    assert Pow2(6) == 64;
    assert Pow2(7) == 128;
    assert Pow2(8) == 256;
    assert Pow2(9) == 512;
    assert Pow2(10) == 1024;
    assert Pow2(11) == 2048;
    assert Pow2(12) == 4096;
    assert Pow2(13) == 8192;
    assert Pow2(14) == 16384;
  }

  /** Each handle below the table's limit is a valid bitmap index. */
  lemma CapacityFitsBitmap(size: nat)
    requires size <= MaxSize
    ensures Pow2(size + 1) <= MaxCapacity < IndexLimit
  {
    Pow2Table();
    Pow2Monotone(size + 1, MaxSize + 1);
  }

  /** A sweep at the watermark's limit yields a valid hole stack. */
  lemma SweepYieldsFreeHoles(bits: seq<bool>)
    ensures HolesFree(FalseIndices(bits), bits, |bits|)
  {
    var s := FalseIndices(bits);
    FalseBelowExact(bits, |bits|);
    forall p | 0 <= p < |s| ensures s[p] < |bits| && !bits[s[p]] {
      assert s[p] in s;
    }
    IncreasingIsDistinct(s, |s|);
  }

  /** Popping a hole and marking it in use keeps the rest of the stack valid. */
  lemma PopKeepsHolesFree(holes: seq<nat>, bits: seq<bool>, count: nat)
    requires HolesFree(holes, bits, count) && ClearFrom(bits, count) && holes != []
    ensures var h := holes[|holes| - 1];
      && h < count && h < |bits| && !bits[h]
      && HolesFree(holes[..|holes| - 1], bits[h := true], count)
      && ClearFrom(bits[h := true], count)
  {
    var h := holes[|holes| - 1];
    var rest := holes[..|holes| - 1];
    assert holes[..|rest|] == rest[..|rest|];
    DistinctBelowPrefix(holes, rest, |rest|);
    forall p | 0 <= p < |rest| ensures rest[p] != h {
      assert rest[p] == holes[p];
    }
  }

  /** Handing out the watermark and advancing it keeps both invariants. */
  lemma MintKeepsInvariant(bits: seq<bool>, count: nat)
    requires ClearFrom(bits, count) && count < |bits|
    ensures !bits[count]
    ensures ClearFrom(bits[count := true], count + 1)
    ensures HolesFree([], bits[count := true], count + 1)
  {
  }

  /** The constructor's segment count: segments 0..Log2(c - 1) - 3 cover at least `c` handles and fewer than 2c. */
  lemma TopSegmentBounds(c: nat)
    requires FirstSegmentLength <= c <= MaxCapacity
    ensures MinSize <= Log2(c - 1) <= MaxSize
    ensures c <= Pow2(Log2(c - 1) + 1) < 2 * c
  {
    Pow2Table();
    Log2Between(c - 1, MinSize, MaxSize + 1);
  }

  /** Every record of `a` is `z`. */
  ghost predicate Filled<T>(a: array<T>, z: T)
    reads a
  {
    forall o :: 0 <= o < a.Length ==> a[o] == z
  }

  /** A new segment of `length` records, each `z` (`new TObject[length]`). */
  method NewSegment<T>(length: nat, z: T) returns (a: array<T>)
    ensures fresh(a) && a.Length == length && Filled(a, z)
  {
    a := new T[length](_ => z);
  }

  /**
    The constructor's loop: segment 0 of 16 records, then segments 1..top-3 of
    2^(k+3) records, every record `z`.
   */
  method NewSegments<T>(top: nat, z: T) returns (segs: seq<array<T>>)
    requires MinSize <= top
    ensures |segs| == top - 2
    ensures forall k :: 0 <= k < |segs| ==> segs[k].Length == SegmentLength(k)
    ensures forall k :: 0 <= k < |segs| ==> fresh(segs[k]) && Filled(segs[k], z)
    ensures forall j, k :: 0 <= j < k < |segs| ==> segs[j] != segs[k]
  {
    var first := NewSegment(FirstSegmentLength, z);
    segs := [first];
    var i := MinSize + 1;
    while i <= top
      invariant MinSize + 1 <= i <= top + 1
      invariant |segs| == i - 3
      invariant forall k :: 0 <= k < |segs| ==> segs[k].Length == SegmentLength(k)
      invariant forall k :: 0 <= k < |segs| ==> fresh(segs[k]) && Filled(segs[k], z)
      invariant forall j, k :: 0 <= j < k < |segs| ==> segs[j] != segs[k]
    {
      var segment := NewSegment(Pow2(i), z);
      segs := segs + [segment];
      i := i + 1;
    }
  }

  /** Clearing a flag keeps both invariants. */
  lemma FreeKeepsInvariant(holes: seq<nat>, bits: seq<bool>, count: nat, h: nat)
    requires HolesFree(holes, bits, count) && ClearFrom(bits, count) && h < |bits|
    ensures HolesFree(holes, bits[h := false], count) && ClearFrom(bits[h := false], count)
  {
  }

  class Pool<T> {
    /** The value of a freshly constructed record (`new TObject()`). */
    const zero: T

    /** The allocated entries of the segment table, segment k at index k. */
    var segments: seq<array<T>>
    var bitmap: Bitmap
    /** The watermark: the next handle never handed out. */
    var count: nat
    /** Exponent of the highest segment: handles below 2^(size+1) have storage. */
    var size: nat
    /** The hole stack; its top is the last element. */
    var holes: seq<nat>

    ghost var Repr: set<object>

    /** The segment table: segments 0..size-3, distinct, of lengths 16, 16, 32, 64, ... */
    ghost predicate SegmentsValid()
      reads this`size, this`segments
    {
      && MinSize <= size <= MaxSize
      && |segments| == size - 2
      && (forall k :: 0 <= k < |segments| ==> segments[k].Length == SegmentLength(k))
      && (forall j, k :: 0 <= j < k < |segments| ==> segments[j] != segments[k])
    }

    /** The bitmap and the segments belong to the pool's footprint. */
    ghost predicate Owned()
      reads this`Repr, this`bitmap, this`segments
    {
      && bitmap in Repr
      && (forall k :: 0 <= k < |segments| ==> segments[k] in Repr)
    }

    /** One flag per handle with storage; no flag at or above the watermark set; the holes are free. */
    ghost predicate FlagsValid()
      reads this`size, this`count, this`holes, this`bitmap, bitmap`bits
    {
      && |bitmap.bits| == Capacity()
      && count <= Capacity()
      && ClearFrom(bitmap.bits, count)
      && HolesFree(holes, bitmap.bits, count)
    }

    ghost predicate Valid()
      reads this, bitmap`bits
    {
      SegmentsValid() && Owned() && FlagsValid()
    }

    /** Number of handles that have storage. */
    function Capacity(): nat
      reads this`size
    {
      Pow2(size + 1)
    }

    /** The record stored for handle `h`. */
    ghost function Slot(h: nat): T
      reads this`size, this`segments, segments
      requires SegmentsValid() && h < Capacity()
    {
      LocateWithinPool(h, size);
      segments[SegmentOf(h)][OffsetOf(h)]
    }

    /** The stack `Create` pops from: the hole stack, or, when it is empty at the watermark's limit, the one a sweep builds. */
    ghost function Pending(): seq<nat>
      reads this, bitmap`bits
    {
      if holes == [] && count == Capacity() then FalseIndices(bitmap.bits) else holes
    }

    /** The handle the next `Create` hands out. */
    ghost function NextHandle(): nat
      reads this, bitmap`bits
    {
      var pending := Pending();
      if pending != [] then pending[|pending| - 1] else count
    }

    /**
      The handle the next `Create` hands out is free: it has storage and a
      clear flag, unless no handle is free, in which case it is the first
      handle of the segment that `Create` adds.
     */
    lemma NextHandleIsFree()
      requires Valid()
      ensures NextHandle() < Capacity() ==> !bitmap.bits[NextHandle()]
      ensures NextHandle() >= Capacity() <==> MustGrow()
      ensures MustGrow() ==> NextHandle() == Capacity()
    {
      var pending := Pending();
      if pending != [] && pending != holes {
        SweepYieldsFreeHoles(bitmap.bits);
      }
    }

    /** The next `Create` has to add a segment. */
    ghost predicate MustGrow()
      reads this, bitmap`bits
    {
      holes == [] && count == Capacity() && FalseIndices(bitmap.bits) == []
    }

    /**
      A pool with the segments that cover `capacity` (at least 16) handles, every
      record `zero`, every flag clear, no holes and watermark 0.
     */
    constructor (capacity: nat, zero: T)
      requires capacity <= MaxCapacity
      ensures Valid() && fresh(Repr)
      ensures this.zero == zero
      ensures size == Log2(Clamp(capacity) - 1)
      ensures Clamp(capacity) <= Capacity() < 2 * Clamp(capacity)
      ensures count == 0 && holes == []
      ensures bitmap.bits == seq(Capacity(), _ => false)
      ensures forall g: nat :: g < Capacity() ==> Slot(g) == zero
    {
      var c := Clamp(capacity);
      var top := Log2(c - 1);
      TopSegmentBounds(c);
      var segs := NewSegments(top, zero);
      this.zero := zero;
      segments := segs;
      size := top;
      count := 0;
      holes := [];
      bitmap := new Bitmap(Pow2(top + 1));
      Repr := set s | s in segs;
      Repr := Repr + {bitmap};
      new;
      SlotsOfFilledSegments(zero);
    }

    /** When every segment is filled with `z`, so is every slot. */
    lemma SlotsOfFilledSegments(z: T)
      requires SegmentsValid() && forall k :: 0 <= k < |segments| ==> Filled(segments[k], z)
      ensures forall g: nat :: g < Capacity() ==> Slot(g) == z
    {
      forall g: nat | g < Capacity() ensures Slot(g) == z {
        LocateWithinPool(g, size);
        assert Filled(segments[SegmentOf(g)], z);
      }
    }

    /**
      The handle-resolving core of `Get`: fails when the flag of `h` is clear,
      otherwise the slot of `h`.
     */
    method Reference(h: nat) returns (r: Result<Address>)
      requires Valid() && h < Capacity()
      ensures Valid() && bitmap.bits == old(bitmap.bits)
      ensures r == if bitmap.bits[h] then Ok(Locate(h)) else Err(InvalidOperation)
      ensures r.Ok? ==> r.value.segment < |segments| && r.value.offset < segments[r.value.segment].Length
    {
      CapacityFitsBitmap(size);
      var inUse := bitmap.Get(h);
      if !inUse {
        return Err(InvalidOperation);
      }
      LocateWithinPool(h, size);
      return Ok(Locate(h));
    }

    /** Reads the record of `h` through the reference `Get` returns. */
    method Get(h: nat) returns (r: Result<T>)
      requires Valid() && h < Capacity()
      ensures Valid() && bitmap.bits == old(bitmap.bits)
      ensures r == if bitmap.bits[h] then Ok(Slot(h)) else Err(InvalidOperation)
    {
      var target := Reference(h);
      if target.Err? {
        return Err(target.error);
      }
      return Ok(segments[target.value.segment][target.value.offset]);
    }

    /** Assigns `v` to the record of `h` through the reference `Get` returns; no other record changes. */
    method Write(h: nat, v: T) returns (r: Result<()>)
      requires Valid() && h < Capacity()
      modifies segments
      ensures Valid() && bitmap.bits == old(bitmap.bits)
      ensures r == if bitmap.bits[h] then Ok(()) else Err(InvalidOperation)
      ensures forall g: nat :: g < Capacity() ==> Slot(g) == if r.Ok? && g == h then v else old(Slot(g))
    {
      var target := Reference(h);
      if target.Err? {
        return Err(target.error);
      }
      var a := target.value;
      segments[a.segment][a.offset] := v;
      forall g: nat | g < Capacity() ensures Slot(g) == if g == h then v else old(Slot(g)) {
        LocateWithinPool(g, size);
        var b := Locate(g);
        if g != h {
          assert b != a;
          assert b.segment != a.segment ==> segments[b.segment] != segments[a.segment];
        }
      }
      return Ok(());
    }

    /** Clears the flag of `h`; the record stays as it is. */
    method Free(h: nat)
      requires Valid() && h < Capacity()
      modifies bitmap
      ensures Valid() && bitmap.bits == old(bitmap.bits)[h := false]
    {
      CapacityFitsBitmap(size);
      FreeKeepsInvariant(holes, bitmap.bits, count, h);
      bitmap.Set(h, false);
    }

    /** The flag of `h`. */
    method AllocatedAt(h: nat) returns (b: bool)
      requires Valid() && h < Capacity()
      ensures Valid() && bitmap.bits == old(bitmap.bits)
      ensures b == bitmap.bits[h]
    {
      CapacityFitsBitmap(size);
      b := bitmap.Get(h);
    }

    /** The sweep: pushes every clear index of the bitmap, ascending, onto the (empty) hole stack. */
    method RunGC() returns (found: bool)
      requires Valid() && holes == [] && count == Capacity()
      modifies this`holes
      ensures Valid()
      ensures holes == FalseIndices(bitmap.bits)
      ensures found == (holes != [])
    {
      found := false;
      var free := bitmap.EnumerateFalse();
      var k := 0;
      while k < |free|
        invariant k <= |free|
        invariant holes == free[..k]
        invariant found == (k > 0)
      {
        found := true;
        holes := holes + [free[k]];
        k := k + 1;
      }
      assert free[..k] == free;
      SweepYieldsFreeHoles(bitmap.bits);
    }

    /** The hole path of `Create`: pops the top hole and marks it in use. */
    method PopHole() returns (h: nat)
      requires Valid() && holes != []
      modifies this`holes, bitmap
      ensures Valid()
      ensures holes + [h] == old(holes)
      ensures h < Capacity() && !old(bitmap.bits)[h]
      ensures bitmap.bits == Store(old(bitmap.bits), h, true)
    {
      PopKeepsHolesFree(holes, bitmap.bits, count);
      h := holes[|holes| - 1];
      holes := holes[..|holes| - 1];
      CapacityFitsBitmap(size);
      bitmap.Set(h, true);
    }

    /**
      The growth path of `Create`: allocates segment `size - 2`, every record
      `zero`; the bitmap catches up when the watermark is marked.
     */
    method Grow()
      requires SegmentsValid() && Owned() && size < MaxSize
      modifies this`size, this`segments, this`Repr
      ensures SegmentsValid() && Owned() && fresh(Repr - old(Repr))
      ensures size == old(size) + 1 && Capacity() == 2 * old(Capacity()) && old(segments) <= segments
      ensures forall g: nat :: g < old(Capacity()) ==> Slot(g) == old(Slot(g))
      ensures forall g: nat :: old(Capacity()) <= g < Capacity() ==> Slot(g) == zero
    {
      var segment := NewSegment(Pow2(size + 1), zero);
      ghost var oldSegments := segments;
      size := size + 1;
      segments := segments + [segment];
      Repr := Repr + {segment};
      assert SegmentsValid();
      forall g: nat | g < old(Capacity()) ensures Slot(g) == old(Slot(g)) {
        LocateWithinPool(g, old(size));
        assert segments[SegmentOf(g)] == oldSegments[SegmentOf(g)];
      }
      assert segments[size - 3] == segment;
      SlotsOfTopSegment(zero);
    }

    /** When the top segment is filled with `z`, so are the slots of the handles [2^size, 2^(size+1)). */
    lemma SlotsOfTopSegment(z: T)
      requires SegmentsValid() && size > MinSize && Filled(segments[size - 3], z)
      ensures forall g: nat :: Pow2(size) <= g < Capacity() ==> Slot(g) == z
    {
      forall g: nat | Pow2(size) <= g < Capacity() ensures Slot(g) == z {
        LocateSegmentRange(g, size);
      }
    }

    /** The watermark path of `Create`: hands out `count`, marks it and advances the watermark. */
    method Mint() returns (h: nat)
      requires SegmentsValid() && Owned() && holes == []
      requires count < Capacity() && ClearFrom(bitmap.bits, count)
      requires |bitmap.bits| == Capacity() || (|bitmap.bits| == count && 2 * count == Capacity())
      modifies this`count, bitmap
      ensures Valid()
      ensures h == old(count) && count == old(count) + 1
      ensures bitmap.bits == Store(old(bitmap.bits), h, true)
    {
      CapacityFitsBitmap(size);
      if |bitmap.bits| < Capacity() {
        Log2Unique(count, size);
      }
      h := count;
      MintKeepsInvariant(Extend(bitmap.bits, h), h);
      bitmap.Set(h, true);
      count := count + 1;
    }

    /**
      What one allocation does to the bookkeeping: the handle it hands out is
      the one `NextHandle` named, a handle that was free; it comes off the
      pending stack, or else the watermark moves past it, adding a segment
      when the watermark was at its limit; its flag is set and no other flag
      changes.
     */
    twostate predicate Allocated()
      reads this, bitmap`bits
    {
      && Valid()
      && old(NextHandle()) < Capacity() && !BitAt(old(bitmap.bits), old(NextHandle()))
      && bitmap.bits == Store(old(bitmap.bits), old(NextHandle()), true)
      && (old(Pending()) != [] ==> holes + [old(NextHandle())] == old(Pending()) && count == old(count) && size == old(size))
      && (old(Pending()) == [] ==> holes == [] && count == old(count) + 1)
      && (old(Pending()) == [] ==> size == old(if count == Capacity() then size + 1 else size))
      && bitmap == old(bitmap) && old(segments) <= segments
    }

    /**
      The allocation step of `Create`: pops a hole; failing that, at the
      watermark's limit, sweeps; then hands out the watermark. `reused` tells
      whether the handle came off the hole stack.
     */
    method Acquire() returns (h: nat, reused: bool)
      requires Valid()
      requires size < MaxSize || !MustGrow()
      modifies this, bitmap
      decreases if holes == [] then 2 else 0
      ensures Allocated() && fresh(Repr - old(Repr))
      ensures h == old(NextHandle()) && reused == (old(Pending()) != [])
      ensures forall g: nat :: g < old(Capacity()) ==> Slot(g) == old(Slot(g))
      ensures forall g: nat :: old(Capacity()) <= g < Capacity() ==> Slot(g) == zero
    {
      if holes != [] {
        h := PopHole();
        reused := true;
        return;
      }
      Log2Exceeds(count, size);
      if Log2(count) > size {
        h, reused := Sweep();
        return;
      }
      h := Mint();
      reused := false;
    }

    /**
      `Create` at the watermark's limit with no holes: sweeps and allocates
      again from the holes it finds, or adds a segment when it finds none and
      hands out the watermark.
     */
    method Sweep() returns (h: nat, reused: bool)
      requires Valid() && holes == [] && count == Capacity()
      requires size < MaxSize || !MustGrow()
      modifies this, bitmap
      decreases 1
      ensures Allocated() && fresh(Repr - old(Repr))
      ensures h == old(NextHandle()) && reused == (old(Pending()) != [])
      ensures forall g: nat :: g < old(Capacity()) ==> Slot(g) == old(Slot(g))
      ensures forall g: nat :: old(Capacity()) <= g < Capacity() ==> Slot(g) == zero
    {
      var found := RunGC();
      if found {
        h, reused := Acquire();
        return;
      }
      Grow();
      h := Mint();
      reused := false;
    }

    /**
      `Create` as the source writes it. On the fresh path the `init` step
      zeroes the slot of `hole`, which the failed pop left at 0, instead of the
      new handle: slot 0 is zeroed, or, when handle 0 is free, the call fails
      after the new handle has been marked in use.
     */
    method Create(init: bool) returns (r: Result<nat>)
      requires Valid()
      requires size < MaxSize || !MustGrow()
      modifies this, Repr
      ensures Allocated() && fresh(Repr - old(Repr))
      ensures r == if init && old(Pending()) == [] && !bitmap.bits[0] then Err(InvalidOperation) else Ok(old(NextHandle()))
      ensures r.Ok? ==> r.value < Capacity() && !BitAt(old(bitmap.bits), r.value) && bitmap.bits[r.value]
      ensures var zeroed := if old(Pending()) != [] then old(NextHandle()) else 0;
        forall g: nat :: g < old(Capacity()) ==> Slot(g) == if init && r.Ok? && g == zeroed then zero else old(Slot(g))
      ensures forall g: nat :: old(Capacity()) <= g < Capacity() ==> Slot(g) == zero
    {
      var h, reused := Acquire();
      label acquired:
      if init {
        var hole := if reused then h else 0;
        var w := Write(hole, zero);
        assert unchanged@acquired(this, bitmap);
        if w.Err? {
          return Err(w.error);
        }
      }
      return Ok(h);
    }

    /** `Create` with the `init` step applied to the handle it hands out. */
    method CreateCorrected(init: bool) returns (h: nat)
      requires Valid()
      requires size < MaxSize || !MustGrow()
      modifies this, Repr
      ensures Allocated() && fresh(Repr - old(Repr))
      ensures h == old(NextHandle())
      ensures h < Capacity() && !BitAt(old(bitmap.bits), h) && bitmap.bits[h]
      ensures init ==> Slot(h) == zero
      ensures forall g: nat :: g < old(Capacity()) && (!init || g != h) ==> Slot(g) == old(Slot(g))
      ensures forall g: nat :: old(Capacity()) <= g < Capacity() ==> Slot(g) == zero
    {
      var reused;
      h, reused := Acquire();
      label acquired:
      if init {
        var w := Write(h, zero);
        assert unchanged@acquired(this, bitmap);
      }
    }
  }
}
