/**
  The occupancy bitmap: a growable vector of flags that extends itself to the
  next power of two whenever an index at or past its length is touched.
 */
module Bitmaps {
  import opened PowersOfTwo

  /**
    Growth to an index from here on fails at run time. Below 2^31 the new
    length `1 << 31` is a negative `int`; from 2^31 on the shift count wraps
    to 0, the vector is cut to length 1 and the index cast to `int` is
    negative. An index below the current length needs no growth.
   */
  const IndexLimit: nat := 0x4000_0000

  /** The flag a read at `i` observes: indices past the length read as false. */
  function BitAt(bits: seq<bool>, i: nat): bool
  {
    i < |bits| && bits[i]
  }

  /** The vector after index `i` has been touched by `Get` or `Set`. */
  function Extend(bits: seq<bool>, i: nat): (r: seq<bool>)
    ensures i < |r|
    ensures |bits| <= |r| && r[..|bits|] == bits
    ensures forall j :: |bits| <= j < |r| ==> !r[j]
    ensures forall j :: BitAt(r, j) == BitAt(bits, j)
    ensures i < |bits| ==> r == bits
    ensures |bits| <= i ==> |r| == Pow2(Log2(i) + 1)
  {
    if i < |bits| then bits else bits + seq(Pow2(Log2(i) + 1) - |bits|, _ => false)
  }

  /** The vector after `Set(i, v)`. */
  function Store(bits: seq<bool>, i: nat, v: bool): (r: seq<bool>)
    ensures |r| == |Extend(bits, i)|
    ensures BitAt(r, i) == v
    ensures forall j :: j != i ==> BitAt(r, j) == BitAt(bits, j)
  {
    Extend(bits, i)[i := v]
  }

  /** Growth never lands on a power of two smaller than needed: half the new length is at most `i`. */
  lemma ExtendIsLeastPowerAbove(bits: seq<bool>, i: nat)
    requires 1 <= i && |bits| <= i
    ensures |Extend(bits, i)| == 2 * Pow2(Log2(i))
    ensures Pow2(Log2(i)) <= i < |Extend(bits, i)|
  {
  }

  /** Reading back after a write: `Get(i)` after `Set(i, v)` neither grows the vector nor returns anything but `v`. */
  lemma GetAfterSet(bits: seq<bool>, i: nat, v: bool)
    ensures Extend(Store(bits, i, v), i) == Store(bits, i, v)
    ensures Store(bits, i, v)[i] == v
  {
  }

  /** Writing the same flag twice is writing it once. */
  lemma SetIdempotent(bits: seq<bool>, i: nat, v: bool)
    ensures Store(Store(bits, i, v), i, v) == Store(bits, i, v)
  {
  }

  predicate StrictlyIncreasing(s: seq<nat>)
  {
    forall p, q :: 0 <= p < q < |s| ==> s[p] < s[q]
  }

  /** The indices below `n` whose flag is clear, in ascending order. */
  function FalseBelow(bits: seq<bool>, n: nat): seq<nat>
    requires n <= |bits|
  {
    if n == 0 then [] else FalseBelow(bits, n - 1) + (if bits[n - 1] then [] else [n - 1])
  }

  lemma {:induction false} FalseBelowExact(bits: seq<bool>, n: nat)
    requires n <= |bits|
    ensures StrictlyIncreasing(FalseBelow(bits, n))
    ensures forall i: nat :: i in FalseBelow(bits, n) <==> i < n && !bits[i]
  {
    if n > 0 {
      FalseBelowExact(bits, n - 1);
      var prev := FalseBelow(bits, n - 1);
      forall p | 0 <= p < |prev| ensures prev[p] < n - 1 {
        assert prev[p] in prev;
      }
    }
  }

  /** A run of set flags adds nothing to the enumeration. */
  lemma {:induction false} FalseBelowSkipsSetRun(bits: seq<bool>, lo: nat, hi: nat)
    requires lo <= hi <= |bits|
    requires forall j :: lo <= j < hi ==> bits[j]
    ensures FalseBelow(bits, hi) == FalseBelow(bits, lo)
  {
    if lo < hi {
      FalseBelowSkipsSetRun(bits, lo, hi - 1);
    }
  }

  /** Every clear index of the vector, ascending: what `EnumerateFalse` yields. */
  function FalseIndices(bits: seq<bool>): seq<nat>
  {
    FalseBelow(bits, |bits|)
  }

  class Bitmap {
    var bits: seq<bool>

    constructor (capacity: nat)
      ensures bits == seq(capacity, _ => false)
    {
      bits := seq(capacity, _ => false);
    }

    /** The flag at `index`, growing the vector first when `index` is past its end. */
    method Get(index: nat) returns (b: bool)
      requires index < |bits| || index < IndexLimit
      modifies if |bits| <= index then {this} else {}
      ensures bits == Extend(old(bits), index)
      ensures b == BitAt(old(bits), index) && b == bits[index]
    {
      if |bits| <= index {
        bits := bits + seq(Pow2(Log2(index) + 1) - |bits|, _ => false);
      }
      b := bits[index];
    }

    /** Stores `value` at `index`, growing the vector first when `index` is past its end. */
    method Set(index: nat, value: bool)
      requires index < |bits| || index < IndexLimit
      modifies this
      ensures bits == Store(old(bits), index, value)
    {
      if |bits| <= index {
        bits := bits + seq(Pow2(Log2(index) + 1) - |bits|, _ => false);
      }
      bits := bits[index := value];
    }

    /** The indices of clear flags, ascending; the bitmap is not changed. */
    method EnumerateFalse() returns (s: seq<nat>)
      ensures s == FalseIndices(bits)
    {
      s := [];
      var idx := 0;
      while idx < |bits|
        invariant idx <= |bits|
        invariant s == FalseBelow(bits, idx)
      {
        if !bits[idx] {
          s := s + [idx];
        }
        idx := idx + 1;
      }
    }
  }
}
