/** How the array is grown until a request fits, and why that ends (xoz/alloc/segment_allocator.cpp). */
module Growth {
  import opened Extents
  import opened FreeMaps

  /** The blocks of the last free chunk if it lies at the end of the array. */
  function TailCnt(free: seq<Chunk>, pastEnd: nat): nat {
    if free != [] && free[|free| - 1].PastEnd() == pastEnd then free[|free| - 1].cnt else 0
  }

  /** How many blocks are asked from the tail so that a free chunk of n blocks may come up. */
  function GrowCnt(free: seq<Chunk>, pastEnd: nat, coalescing: bool, n: nat): nat {
    var e := if coalescing then TailCnt(free, pastEnd) else 0;
    if e == 0 then n else if n <= e then 1 else n - e
  }

  ghost predicate Below(free: seq<Chunk>, pastEnd: nat) {
    forall i :: 0 <= i < |free| ==> free[i].PastEnd() <= pastEnd
  }

  /** How often a request for n blocks may still fail while the array grows. */
  ghost function Rank(free: seq<Chunk>, pastEnd: nat, coalescing: bool, splitAbove: nat, n: nat): nat {
    if !NoneUsable(free, n, splitAbove) then 0
    else if !coalescing || TailCnt(free, pastEnd) < n then 1
    else if TailCnt(free, pastEnd) >= MAX_BLK_CNT || n + splitAbove < TailCnt(free, pastEnd) then 2
    else 3 + (n + splitAbove - TailCnt(free, pastEnd))
  }

  /** The freed tail becomes, or joins, the last chunk. */
  lemma {:induction false} FreedAtEnd(free: seq<Chunk>, pastEnd: nat, coalescing: bool, g: nat)
    requires WellSized(free) && Ascending(free) && Below(free, pastEnd) && 0 < g
    ensures var e := if coalescing then TailCnt(free, pastEnd) else 0;
            var free' := Freed(free, Chunk(pastEnd, g), coalescing);
            && free' != [] && free'[|free'| - 1] in free'
            && free'[|free'| - 1].PastEnd() == pastEnd + g
            && free'[|free'| - 1].cnt == if 0 < e && e + g <= MAX_BLK_CNT then e + g else g
  {
    var c := Chunk(pastEnd, g);
    var i := LowerBoundNr(free, pastEnd);
    assert i < |free| ==> free[i].PastEnd() <= pastEnd;
    assert i == |free| && !MergesNext(free, c);
    var free' := Freed(free, c, coalescing);
    assert free'[|free'| - 1] == FreedChunk(free, c, coalescing);
  }

  /** A request that fails grows the array; then it succeeds or comes closer to it. */
  lemma {:induction false} GrowthServes(free: seq<Chunk>, pastEnd: nat, coalescing: bool, splitAbove: nat, n: nat)
    requires WellSized(free) && Ascending(free) && Below(free, pastEnd) && 0 < n <= MAX_BLK_CNT
    requires NoneUsable(free, n, splitAbove)
    ensures var g := GrowCnt(free, pastEnd, coalescing, n);
            && 0 < g <= n
            && Rank(Freed(free, Chunk(pastEnd, g), coalescing), pastEnd + g, coalescing, splitAbove, n)
               < Rank(free, pastEnd, coalescing, splitAbove, n)
  {
    var e := if coalescing then TailCnt(free, pastEnd) else 0;
    var g := GrowCnt(free, pastEnd, coalescing, n);
    FreedAtEnd(free, pastEnd, coalescing, g);
    var free' := Freed(free, Chunk(pastEnd, g), coalescing);
    var last := free'[|free'| - 1];
    hide Freed;
    if 0 < e { assert !Usable(free[|free| - 1], n, splitAbove); }
    assert last.cnt == n ==> Usable(last, n, splitAbove);
    assert last.cnt > n + splitAbove ==> Usable(last, n, splitAbove);
  }

  /** The most blocks by which the array grows until a free chunk serves n blocks. */
  ghost function Lacking(free: seq<Chunk>, pastEnd: nat, coalescing: bool, splitAbove: nat, n: nat): nat {
    var e := if coalescing then TailCnt(free, pastEnd) else 0;
    if !NoneUsable(free, n, splitAbove) then 0
    else if e < n then n - e
    else if e < MAX_BLK_CNT && e <= n + splitAbove then n + splitAbove + 1 - (e - n)
    else n
  }

  /** Each growth is paid out of what is lacking. */
  lemma {:induction false} GrowthPays(free: seq<Chunk>, pastEnd: nat, coalescing: bool, splitAbove: nat, n: nat)
    requires WellSized(free) && Ascending(free) && Below(free, pastEnd) && 0 < n <= MAX_BLK_CNT
    requires NoneUsable(free, n, splitAbove)
    ensures var g := GrowCnt(free, pastEnd, coalescing, n);
            g + Lacking(Freed(free, Chunk(pastEnd, g), coalescing), pastEnd + g, coalescing, splitAbove, n)
            <= Lacking(free, pastEnd, coalescing, splitAbove, n)
  {
    var e := if coalescing then TailCnt(free, pastEnd) else 0;
    var g := GrowCnt(free, pastEnd, coalescing, n);
    FreedAtEnd(free, pastEnd, coalescing, g);
    var free' := Freed(free, Chunk(pastEnd, g), coalescing);
    var last := free'[|free'| - 1];
    hide Freed;
    if 0 < e { assert !Usable(free[|free| - 1], n, splitAbove); }
    assert last.cnt == n ==> Usable(last, n, splitAbove);
    assert last.cnt > n + splitAbove ==> Usable(last, n, splitAbove);
  }

  /**
   * So the array grows by no more than the blocks asked for, and one more than chunks may be left too short to split.
   */
  lemma {:induction false} LackingBound(free: seq<Chunk>, pastEnd: nat, coalescing: bool, splitAbove: nat, n: nat)
    ensures Lacking(free, pastEnd, coalescing, splitAbove, n) <= n + splitAbove + 1
  {
  }

  /** The number of failures is bounded by the split threshold and a constant. */
  lemma {:induction false} RankBound(free: seq<Chunk>, pastEnd: nat, coalescing: bool, splitAbove: nat, n: nat)
    requires 0 < n
    ensures Rank(free, pastEnd, coalescing, splitAbove, n) <= splitAbove + 2
  {
    if free != [] && NoneUsable(free, n, splitAbove) {
      assert !Usable(free[|free| - 1], n, splitAbove);
    }
  }

  /** A request for the most blocks that an extent counts fails at most once. */
  lemma {:induction false} LargestRank(free: seq<Chunk>, pastEnd: nat, coalescing: bool, splitAbove: nat)
    requires WellSized(free)
    ensures Rank(free, pastEnd, coalescing, splitAbove, MAX_BLK_CNT) <= 1
  {
    if free != [] && NoneUsable(free, MAX_BLK_CNT, splitAbove) {
      assert !Usable(free[|free| - 1], MAX_BLK_CNT, splitAbove);
    }
  }
}
