/** Extents: the unit of ownership of a block array (xoz/ext/extent.h, xoz/ext/extent.cpp). */
module Extents {
  import opened Outcomes

  const SUBBLK_CNT_PER_BLK := 16
  const MAX_BLK_CNT := 0xffff
  const MAX_BLK_NR := 0x3ff_ffff

  /** The bitmap of a block for suballocation: the set of its one bits, bit 15 being the most significant. */
  type Bitmap = s: set<nat> | forall i :: i in s ==> i < 16

  const ALL_BITS: Bitmap := set i: nat | i < 16

  lemma {:induction false} RangeSize(s: set<nat>, n: nat)
    requires forall i: nat :: i in s <==> i < n
    ensures |s| == n
  {
    if n == 0 {
      assert s == {};
    } else {
      RangeSize(s - {n - 1}, n - 1);
    }
  }

  lemma {:induction false} SubsetSize(a: set<nat>, b: set<nat>)
    ensures a <= b ==> |a| <= |b|
    ensures a < b ==> |a| < |b|
  {
    if a <= b {
      assert b == a + (b - a);
    }
  }

  lemma {:induction false} BitsBounded(bits: Bitmap)
    ensures |bits| <= 16
    ensures |bits| == 16 <==> bits == ALL_BITS
  {
    RangeSize(ALL_BITS, 16);
    SubsetSize(bits, ALL_BITS);
  }

  /** Either cnt contiguous blocks from nr on, or the sub-blocks of block nr that the bitmap selects. */
  datatype Extent = Full(nr: nat, cnt: nat) | Sub(nr: nat, bits: Bitmap) {
    predicate Empty() {
      if Full? then cnt == 0 else bits == {}
    }

    /** How many blocks the extent spans; a suballocated extent spans one. */
    function Span(): nat {
      if Full? then cnt else 1
    }

    function PastEnd(): nat {
      nr + Span()
    }

    /** How many times (0 or 1) the extent owns sub-block `bit` of block `blk`. */
    function Cover(blk: nat, bit: nat): nat {
      match this
      case Full(n, c) => if n <= blk < n + c then 1 else 0
      case Sub(n, bs) => if n == blk && bit in bs then 1 else 0
    }
  }

  // ---------------------------------------------------------------------------------------------
  // Distances and overlaps
  // ---------------------------------------------------------------------------------------------

  datatype Distance = Distance(blkCnt: nat, backwards: bool, near: bool)

  const MAX_NEAR_JUMP := 0x1ff

  /** Blocks between the two extents, or ExtentOverlap; two disjoint bitmaps of one block are never near. */
  function DistanceInBlks(ref: Extent, target: Extent): Outcome<Distance> {
    if ref.nr < target.nr then
      var forward := target.nr - ref.nr;
      if forward < ref.Span() then Throws(ExtentOverlap)
      else Ok(Distance(forward - ref.Span(), false, forward - ref.Span() <= MAX_NEAR_JUMP))
    else if target.nr < ref.nr then
      var backward := ref.nr - target.nr;
      if backward < target.Span() then Throws(ExtentOverlap)
      else Ok(Distance(backward - target.Span(), true, backward - target.Span() <= MAX_NEAR_JUMP))
    else if ref.Span() == 0 then Ok(Distance(0, false, true))
    else if ref.Sub? && target.Sub? && ref.bits !! target.bits then Ok(Distance(0, false, false))
    else Throws(ExtentOverlap)
  }

  /** Two extents that are not empty overlap exactly if they share a sub-block. */
  lemma {:induction false} OverlapIsShared(a: Extent, b: Extent)
    requires !a.Empty() && !b.Empty()
    ensures DistanceInBlks(a, b).Throws? <==>
            (exists blk, bit :: bit < 16 && a.Cover(blk, bit) == 1 && b.Cover(blk, bit) == 1)
  {
    if DistanceInBlks(a, b).Throws? {
      var blk := if a.nr < b.nr then b.nr else a.nr;
      if a.Full? && b.Full? {
        assert a.Cover(blk, 0) == 1 && b.Cover(blk, 0) == 1;
      } else if a.Sub? && b.Sub? {
        var bit :| bit in a.bits && bit in b.bits;
        assert a.Cover(blk, bit) == 1 && b.Cover(blk, bit) == 1;
      } else {
        var bit :| bit in (if a.Sub? then a.bits else b.bits);
        assert a.Cover(blk, bit) == 1 && b.Cover(blk, bit) == 1;
      }
    }
  }
}
