/**
  Client sequences over a pool of `int` records that pin down the allocator's
  observable behaviour on concrete handles: growth, sweep order, reuse of a
  freed record, and the two outcomes of `init` on the watermark path.
 */
module Scenarios {
  import opened PowersOfTwo
  import opened Bitmaps
  import opened Pools

  /** The flags after freeing handles 2, 5 and 7 of a full first segment. */
  function TwoFiveSevenFreed(): seq<bool>
  {
    seq(16, j => j != 2 && j != 5 && j != 7)
  }

  /** A sweep of a full segment finds nothing. */
  lemma SweepOfFullSegmentIsEmpty()
    ensures FalseIndices(seq(16, _ => true)) == []
  {
    FalseBelowSkipsSetRun(seq(16, _ => true), 0, 16);
  }

  /** A sweep after freeing 2, 5 and 7 finds them, ascending. */
  lemma SweepFindsTwoFiveSeven()
    ensures FalseIndices(TwoFiveSevenFreed()) == [2, 5, 7]
  {
    var bits := TwoFiveSevenFreed();
    FalseBelowSkipsSetRun(bits, 8, 16);
    FalseBelowSkipsSetRun(bits, 6, 7);
    FalseBelowSkipsSetRun(bits, 3, 5);
    FalseBelowSkipsSetRun(bits, 0, 2);
    assert FalseBelow(bits, 8) == FalseBelow(bits, 7) + [7];
    assert FalseBelow(bits, 6) == FalseBelow(bits, 5) + [5];
    assert FalseBelow(bits, 3) == FalseBelow(bits, 2) + [2];
  }

  /** What is left of a stack after popping its top. */
  lemma Popped(rest: seq<nat>, top: nat, stack: seq<nat>)
    requires rest + [top] == stack
    ensures rest == stack[..|stack| - 1] && top == stack[|stack| - 1]
  {
    assert stack[..|stack| - 1] == (rest + [top])[..|rest|];
  }

  /** A default pool (capacity 0, clamped to 16): one segment, 16 clear flags. */
  method NewDefaultPool() returns (p: Pool<int>)
    ensures fresh(p) && fresh(p.Repr) && p.Valid()
    ensures p.size == 3 && p.Capacity() == 16 && p.count == 0 && p.holes == [] && p.zero == 0
    ensures p.bitmap.bits == seq(16, _ => false)
    ensures forall g: nat :: g < 16 ==> p.Slot(g) == 0
  {
    assert Pow2(3) == 8 && Pow2(4) == 16;
    Log2Unique(15, 3);
    p := new Pool(0, 0);
  }

  /** Sixteen `Create(false)` calls on a default pool hand out 0..15, in order, and fill the first segment. */
  method FillFirstSegment() returns (p: Pool<int>, handed: seq<Result<nat>>)
    ensures fresh(p) && fresh(p.Repr) && p.Valid()
    ensures p.size == 3 && p.Capacity() == 16 && p.count == 16 && p.holes == [] && p.zero == 0
    ensures p.bitmap.bits == seq(16, _ => true)
    ensures forall g: nat :: g < 16 ==> p.Slot(g) == 0
    ensures |handed| == 16 && forall j :: 0 <= j < 16 ==> handed[j] == Ok(j)
  {
    p := NewDefaultPool();
    handed := [];
    var i := 0;
    while i < 16
      invariant i <= 16
      invariant fresh(p) && fresh(p.Repr) && p.Valid()
      invariant p.size == 3 && p.Capacity() == 16 && p.count == i && p.holes == [] && p.zero == 0
      invariant p.bitmap.bits == seq(16, j => j < i)
      invariant forall g: nat :: g < 16 ==> p.Slot(g) == 0
      invariant |handed| == i && forall j :: 0 <= j < i ==> handed[j] == Ok(j)
    {
      var r := p.Create(false);
      assert p.bitmap.bits == seq(16, j => j < i + 1);
      handed := handed + [r];
      i := i + 1;
    }
  }

  /** With no frees, the 17th `Create` adds segment 1 and hands out 16. */
  method SeventeenthCreateGrows() returns (r: Result<nat>, size: nat)
    ensures r == Ok(16) && size == 4
  {
    var p, _ := FillFirstSegment();
    SweepOfFullSegmentIsEmpty();
    r := p.Create(false);
    size := p.size;
  }

  /** Frees 2, 5 and 7 of a full first segment. */
  method FreeTwoFiveSeven() returns (p: Pool<int>)
    ensures fresh(p) && fresh(p.Repr) && p.Valid()
    ensures p.size == 3 && p.Capacity() == 16 && p.count == 16 && p.holes == [] && p.zero == 0
    ensures p.bitmap.bits == TwoFiveSevenFreed()
  {
    var handed;
    p, handed := FillFirstSegment();
    p.Free(2);
    p.Free(5);
    p.Free(7);
    assert p.bitmap.bits == TwoFiveSevenFreed();
  }

  /** The first `Create` after freeing 2, 5 and 7 sweeps, pushes 2, 5, 7 and pops 7. */
  method FirstCreateAfterSweep() returns (p: Pool<int>, a: Result<nat>)
    ensures fresh(p) && fresh(p.Repr) && p.Valid()
    ensures p.size == 3 && p.Capacity() == 16 && p.count == 16 && p.holes == [2, 5]
    ensures a == Ok(7)
  {
    p := FreeTwoFiveSeven();
    SweepFindsTwoFiveSeven();
    assert p.Pending() == [2, 5, 7] && p.NextHandle() == 7;
    a := p.Create(false);
    Popped(p.holes, 7, [2, 5, 7]);
  }

  /** The sweep pushes 2, 5, 7 in ascending order, so the next three `Create`s return 7, 5, 2. */
  method SweepReissuesInDescendingOrder() returns (a: Result<nat>, b: Result<nat>, c: Result<nat>)
    ensures a == Ok(7) && b == Ok(5) && c == Ok(2)
  {
    var p;
    p, a := FirstCreateAfterSweep();
    b := p.Create(false);
    Popped(p.holes, 5, [2, 5]);
    assert p.holes == [2];
    c := p.Create(false);
  }

  /** A freed handle reads as unallocated and `Get` on it fails; freeing it again changes nothing. */
  method FreeThenGetFails() returns (inUse: bool, r: Result<int>, once: seq<bool>, twice: seq<bool>)
    ensures !inUse && r == Err(InvalidOperation)
    ensures once == twice
  {
    var p, _ := FillFirstSegment();
    p.Free(4);
    once := p.bitmap.bits;
    p.Free(4);
    twice := p.bitmap.bits;
    inUse := p.AllocatedAt(4);
    r := p.Get(4);
  }

  /** Stores 42 in handle 7 of a full first segment, then frees 2, 5 and 7. */
  method FreeTwoFiveSevenHolding42() returns (p: Pool<int>)
    ensures fresh(p) && fresh(p.Repr) && p.Valid()
    ensures p.size == 3 && p.Capacity() == 16 && p.count == 16 && p.holes == [] && p.zero == 0
    ensures p.bitmap.bits == TwoFiveSevenFreed()
    ensures p.Slot(7) == 42
  {
    var handed;
    p, handed := FillFirstSegment();
    var w := p.Write(7, 42);
    p.Free(2);
    p.Free(5);
    p.Free(7);
    assert p.bitmap.bits == TwoFiveSevenFreed();
  }

  /**
    A reissued handle keeps the record it held before `Free` unless `init`
    is given: on the hole path `init` zeroes the handle that is handed out.
   */
  method ReuseKeepsRecordUnlessInit(init: bool) returns (h: Result<nat>, v: Result<int>)
    ensures h == Ok(7) && v == Ok(if init then 0 else 42)
  {
    var p := FreeTwoFiveSevenHolding42();
    SweepFindsTwoFiveSeven();
    h := p.Create(init);
    v := p.Get(7);
  }

  /** A default pool after one `Create(false)`: handle 0 is in use. */
  method FirstHandleInUse() returns (p: Pool<int>)
    ensures fresh(p) && fresh(p.Repr) && p.Valid()
    ensures p.size == 3 && p.Capacity() == 16 && p.count == 1 && p.holes == [] && p.zero == 0
    ensures p.bitmap.bits[0]
    ensures forall g: nat :: g < 16 ==> p.Slot(g) == 0
  {
    p := NewDefaultPool();
    var first := p.Create(false);
  }

  /** A default pool whose first handle, 0, is in use and holds 42. */
  method FirstHandleHolding42() returns (p: Pool<int>)
    ensures fresh(p) && fresh(p.Repr) && p.Valid()
    ensures p.size == 3 && p.Capacity() == 16 && p.count == 1 && p.holes == [] && p.zero == 0
    ensures p.bitmap.bits[0]
    ensures p.Slot(0) == 42 && forall g: nat :: 1 <= g < 16 ==> p.Slot(g) == 0
  {
    p := FirstHandleInUse();
    var w := p.Write(0, 42);
  }

  /** As written, `Create(true)` on the watermark path zeroes handle 0's record, not the new handle's. */
  method InitOnWatermarkPathZeroesSlotZero() returns (r: Result<nat>, v: Result<int>)
    ensures r == Ok(1) && v == Ok(0)
  {
    var p := FirstHandleHolding42();
    r := p.Create(true);
    assert p.Capacity() == 16;
    v := p.Get(0);
  }

  /**
    As written, `Create(true)` on the watermark path fails when handle 0 is
    free, and the handle it marked in use before failing stays marked.
   */
  method InitOnWatermarkPathFailsWhenSlotZeroFree() returns (r: Result<nat>, leaked: bool)
    ensures r == Err(InvalidOperation) && leaked
  {
    var p := NewDefaultPool();
    var first := p.Create(false);
    p.Free(0);
    r := p.Create(true);
    leaked := p.AllocatedAt(1);
  }

  /** With the `init` step applied to the new handle, handle 0 keeps its record and the new one is zero. */
  method CorrectedInitLeavesSlotZero() returns (h: nat, v: Result<int>, u: Result<int>)
    ensures h == 1 && v == Ok(42) && u == Ok(0)
  {
    var p := FirstHandleHolding42();
    h := p.CreateCorrected(true);
    assert p.Capacity() == 16 && p.bitmap.bits[0];
    v := p.Get(0);
    u := p.Get(1);
  }
}
