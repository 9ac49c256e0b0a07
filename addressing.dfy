/**
  Handle addressing: a handle names a slot in one of the pool's segments.
  Segment 0 holds handles 0..15; segment k >= 1 holds the 2^(k+3) handles
  [2^(k+3), 2^(k+4)), so a handle's segment is given by its highest set bit.
 */
module Addressing {
  import opened PowersOfTwo

  /** Handles below this live in segment 0. */
  const FirstSegmentLength: nat := 16

  /** A slot: which segment, and the offset inside it. */
  datatype Address = Address(segment: nat, offset: nat)

  /** Number of slots of segment `k`. */
  function SegmentLength(k: nat): nat
  {
    if k == 0 then FirstSegmentLength else Pow2(k + 3)
  }

  /** The first handle of segment `k`. */
  function SegmentStart(k: nat): nat
  {
    if k == 0 then 0 else Pow2(k + 3)
  }

  /** The handle that names offset `offset` of segment `k`: the inverse of `SegmentOf`/`OffsetOf`. */
  function Handle(k: nat, offset: nat): nat
  {
    SegmentStart(k) + offset
  }

  /** The segment handle `h` lives in: 0 below 16, else the position of its highest set bit less 3. */
  function SegmentOf(h: nat): (k: nat)
    ensures k == 0 <==> h < FirstSegmentLength
  {
    if h < FirstSegmentLength then 0 else HighHandle(h); Log2(h) - 3
  }

  /** The offset of handle `h` in its segment: `h` itself below 16, else `h` less its highest set bit. */
  function OffsetOf(h: nat): (offset: nat)
    ensures offset < SegmentLength(SegmentOf(h))
    ensures SegmentStart(SegmentOf(h)) + offset == h
  {
    if h < FirstSegmentLength then h else HighHandle(h); h - Pow2(Log2(h))
  }

  /** Where handle `h` lives, as one value: a slot of its segment from which the handle is recovered. */
  function Locate(h: nat): (a: Address)
    ensures a.offset < SegmentLength(a.segment) && SegmentStart(a.segment) + a.offset == h
    ensures a.segment == 0 <==> h < FirstSegmentLength
    ensures a.segment == SegmentOf(h) && a.offset == OffsetOf(h)
  {
    Address(SegmentOf(h), OffsetOf(h))
  }

  /** A handle past segment 0 has its highest set bit at position 4 or above. */
  lemma HighHandle(h: nat)
    requires h >= FirstSegmentLength
    ensures 4 <= Log2(h)
    ensures Pow2(Log2(h)) <= h < 2 * Pow2(Log2(h))
    ensures SegmentStart(Log2(h) - 3) == Pow2(Log2(h)) == SegmentLength(Log2(h) - 3)
  {
    assert Pow2(4) == FirstSegmentLength;
    Log2Exceeds(h, 3);
  }

  /** Distinct handles never share a slot. */
  lemma LocateInjective(x: nat, y: nat)
    requires SegmentOf(x) == SegmentOf(y) && OffsetOf(x) == OffsetOf(y)
    ensures x == y
  {
  }

  /** Every slot of every segment is named by exactly one handle. */
  lemma HandleRoundTrip(k: nat, offset: nat)
    requires offset < SegmentLength(k)
    ensures SegmentOf(Handle(k, offset)) == k && OffsetOf(Handle(k, offset)) == offset
  {
    if k > 0 {
      assert Pow2(4) == FirstSegmentLength;
      Pow2Monotone(4, k + 3);
      Log2Unique(Handle(k, offset), k + 3);
    }
  }

  /** A handle below 2^(size+1) lives in one of the segments 0..size-3. */
  lemma LocateWithinPool(h: nat, size: nat)
    requires 3 <= size && h < Pow2(size + 1)
    ensures SegmentOf(h) <= size - 3
  {
    Log2Exceeds(h, size);
  }

  /** The handles [2^k, 2^(k+1)), k >= 4, are exactly the slots of segment k - 3. */
  lemma LocateSegmentRange(h: nat, k: nat)
    requires 4 <= k && Pow2(k) <= h < Pow2(k + 1)
    ensures SegmentOf(h) == k - 3 && OffsetOf(h) == h - Pow2(k)
  {
    Log2Unique(h, k);
    Log2Exceeds(h, 3);
  }

  /** The boundary handles of the first two segments. */
  lemma LocateExamples()
    ensures SegmentOf(15) == 0 && OffsetOf(15) == 15
    ensures SegmentOf(16) == 1 && OffsetOf(16) == 0
    ensures SegmentOf(31) == 1 && OffsetOf(31) == 15
    ensures SegmentOf(32) == 2 && OffsetOf(32) == 0
  {
    assert Pow2(4) == 16 && Pow2(5) == 32 && Pow2(6) == 64;
    Log2Unique(16, 4);
    Log2Unique(31, 4);
    Log2Unique(32, 5);
  }
}
