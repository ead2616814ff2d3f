/** Byte requests answered with segments: full blocks, sub-blocks and inline bytes (xoz/alloc/segment_allocator.cpp). */
module SegmentAllocators {
  import opened Outcomes
  import opened Extents
  import opened Layout
  import opened Products
  import opened BlockArrays
  import opened TailAllocators
  import opened Requests
  import opened Segments
  import opened SegmentIo
  import opened Ownership
  import opened Ledger
  import opened Growth
  import opened Complement
  import opened Reuse
  import opened Splitting
  import FreeMaps
  import SubBlockFreeMaps

  /** The free chunks end where the array ends or before. */
  lemma {:induction false} BalancedBelow(sp: Space, owned: seq<Extent>)
    requires Balanced(sp, owned)
    ensures FreeMaps.WellSized(sp.free) && FreeMaps.Ascending(sp.free) && Below(sp.free, sp.pastEnd)
  {
    forall i | 0 <= i < |sp.free|
      ensures sp.free[i].PastEnd() <= sp.pastEnd
    {
      SizeBound(sp.free, i);
      ChunkUnowned(sp, owned, sp.free[i], sp.free[i].PastEnd() - 1);
    }
  }

  /** Growing by what the plan says keeps the balance and serves the request, or brings it closer. */
  lemma {:induction false} GrowthPlan(sp: Space, owned: seq<Extent>, n: nat, coalescing: bool, splitAbove: nat)
    requires Balanced(sp, owned) && 0 < n <= MAX_BLK_CNT && FreeMaps.NoneUsable(sp.free, n, splitAbove)
    ensures var cnt := GrowCnt(sp.free, sp.pastEnd, coalescing, n);
            && 0 < cnt <= n && FreeMaps.Clear(sp.free, FreeMaps.Chunk(sp.pastEnd, cnt))
            && Balanced(Grown(sp, cnt, coalescing), owned)
            && Rank(Grown(sp, cnt, coalescing).free, sp.pastEnd + cnt, coalescing, splitAbove, n)
               < Rank(sp.free, sp.pastEnd, coalescing, splitAbove, n)
            && cnt + Lacking(Grown(sp, cnt, coalescing).free, sp.pastEnd + cnt, coalescing, splitAbove, n)
               <= Lacking(sp.free, sp.pastEnd, coalescing, splitAbove, n)
  {
    hide Rank, Lacking, FreeMaps.NoneUsable, FreeMaps.Freed, FreeMaps.Clear, Below;
    BalancedBelow(sp, owned);
    GrowthServes(sp.free, sp.pastEnd, coalescing, splitAbove, n);
    GrowthPays(sp.free, sp.pastEnd, coalescing, splitAbove, n);
    GrowTail(sp, owned, GrowCnt(sp.free, sp.pastEnd, coalescing, n), coalescing);
  }

  /** The most blocks that n blocks in extents as long as possible make the array grow by. */
  function MostGrown(n: nat, splitAbove: nat): nat {
    n + Times(Pieces(n), splitAbove + 1)
  }

  /** How many extents n blocks need. */
  function Pieces(n: nat): nat {
    (n + MAX_BLK_CNT - 1) / MAX_BLK_CNT
  }

  lemma {:induction false} OnePieceMore(n: nat, splitAbove: nat)
    requires 0 < n
    ensures MostGrown(n, splitAbove)
         == Least(n, n) + splitAbove + 1 + MostGrown(n - Least(n, n), splitAbove)
  {
    assert Pieces(n) == 1 + Pieces(n - Least(n, n));
    OneUnit(Pieces(n - Least(n, n)), splitAbove + 1);
  }

  lemma {:induction false} MoreGrown(n: nat, m: nat, splitAbove: nat)
    requires n <= m
    ensures MostGrown(n, splitAbove) <= MostGrown(m, splitAbove) && MostGrown(0, splitAbove) == 0
  {
    LessEqual(Pieces(n), Pieces(m), splitAbove + 1);
    assert Pieces(0) == 0;
  }

  /** The most blocks that n blocks in extents as long as possible make the array grow by, given what is free. */
  ghost function Needed(free: seq<FreeMaps.Chunk>, pastEnd: nat, coalescing: bool, splitAbove: nat, n: nat): nat {
    if n == 0 then 0
    else Lacking(free, pastEnd, coalescing, splitAbove, Least(n, n)) + MostGrown(n - Least(n, n), splitAbove)
  }

  lemma {:induction false} NeededBound(free: seq<FreeMaps.Chunk>, pastEnd: nat, coalescing: bool, splitAbove: nat,
      n: nat, m: nat)
    requires n <= m
    ensures Needed(free, pastEnd, coalescing, splitAbove, n) <= MostGrown(m, splitAbove)
  {
    MoreGrown(n, m, splitAbove);
    if n != 0 {
      LackingBound(free, pastEnd, coalescing, splitAbove, Least(n, n));
      OnePieceMore(n, splitAbove);
    }
  }

  lemma {:induction false} SomeUsable(s: seq<FreeMaps.Chunk>)
    ensures 0 < FreeMaps.Total(s) ==> !FreeMaps.NoneUsable(s, 1, 0)
  {
    if s != [] {
      assert s[0] in s && (0 < s[0].cnt ==> FreeMaps.Usable(s[0], 1, 0));
      SomeUsable(s[1..]);
      assert forall c :: c in s[1..] ==> c in s;
    }
  }

  /** How many extents after the first a segment has. */
  function FragOf(exts: seq<Extent>): nat {
    if |exts| <= 1 then 0 else |exts| - 1
  }

  /** One block of those tracked has n free bits or more. */
  ghost predicate Fits(m: SubBlockFreeMaps.BitsOf, n: nat) {
    exists nr :: nr in m && n <= |m[nr]|
  }

  /** No block has all its sub-blocks free. */
  ghost predicate NoneWhole(m: SubBlockFreeMaps.BitsOf) {
    forall nr :: nr in m ==> m[nr] != ALL_BITS
  }

  /** One block has all its sub-blocks free, the others have fewer than n. */
  ghost predicate OneWhole(m: SubBlockFreeMaps.BitsOf, n: nat) {
    exists nr :: nr in m && m[nr] == ALL_BITS && forall o :: o in m && o != nr ==> |m[o]| < n && m[o] != ALL_BITS
  }

  lemma {:induction false} BecomesWhole(m: SubBlockFreeMaps.BitsOf, nr: nat, n: nat)
    requires NoneWhole(m) && !Fits(m, n) && nr !in m && n <= 16
    ensures var m' := SubBlockFreeMaps.Put(m, nr, ALL_BITS); OneWhole(m', n) && Fits(m', n)
  {
    BitsBounded(ALL_BITS);
    var m' := SubBlockFreeMaps.Put(m, nr, ALL_BITS);
    assert nr in m' && m'[nr] == ALL_BITS;
  }

  lemma {:induction false} NoLongerWhole(m: SubBlockFreeMaps.BitsOf, n: nat, nr: nat, bits: Bitmap)
    requires NoneWhole(m) || OneWhole(m, n)
    requires nr in m && 0 < n <= |m[nr]| && bits <= m[nr] && bits != {}
    ensures NoneWhole(SubBlockFreeMaps.Without(m, nr, bits))
  {
    if !NoneWhole(m) {
      var w :| w in m && m[w] == ALL_BITS && forall o :: o in m && o != w ==> |m[o]| < n && m[o] != ALL_BITS;
      assert nr == w;
    }
    var b :| b in bits;
    assert b in ALL_BITS && b !in m[nr] - bits;
  }

  /** One extent of as many blocks as an extent can count. */
  ghost predicate OneLargest(exts: seq<Extent>) {
    |exts| == 1 && exts[0].Full? && exts[0].cnt == MAX_BLK_CNT
  }

  /** The bytes of a list of extents, by their blocks and sub-blocks. */
  lemma {:induction false} DataSizesBlks(exts: seq<Extent>, blkSz: nat)
    ensures DataSizes(exts, blkSz) == Times(FullBlks(exts), blkSz) + Times(SubBlks(exts), SubSz(blkSz))
  {
    if exts != [] {
      DataSizesBlks(exts[1..], blkSz);
      var e := exts[0];
      if e.Full? {
        Distribute(e.cnt, FullBlks(exts[1..]), blkSz);
      } else {
        Distribute(|e.bits|, SubBlks(exts[1..]), SubSz(blkSz));
      }
    }
  }

  /** Extents of blocks, then one of sub-blocks, as many of both as planned. */
  ghost predicate Shaped(exts: seq<Extent>, plan: Plan) {
    && FullBlks(exts) == plan.blks && SubBlks(exts) == plan.subs
    && (forall i :: 0 <= i < |exts| - 1 ==> exts[i].Full?)
    && (exts != [] ==> (exts[|exts| - 1].Sub? <==> 0 < plan.subs))
  }

  lemma {:induction false} ShapedWithout(exts: seq<Extent>, plan: Plan)
    requires FullBlks(exts) == plan.blks && SubBlks(exts) == plan.subs == 0 && forall e :: e in exts ==> e.Full?
    ensures Shaped(exts, plan)
  {
    assert forall i :: 0 <= i < |exts| ==> exts[i] in exts;
  }

  lemma {:induction false} ShapedWith(exts0: seq<Extent>, exts: seq<Extent>, plan: Plan)
    requires FullBlks(exts0) == plan.blks && SubBlks(exts0) == 0 && forall e :: e in exts0 ==> e.Full?
    requires |exts| == |exts0| + 1 && exts[..|exts0|] == exts0 && exts[|exts0|].Sub?
    requires |exts[|exts0|].bits| == plan.subs && 0 < plan.subs
    ensures Shaped(exts, plan)
  {
    var e := exts[|exts0|];
    assert exts == exts0 + [e];
    BlksAppend(exts0, [e]);
    OneExtent(e);
    forall i | 0 <= i < |exts0|
      ensures exts[i].Full?
    {
      assert exts[i] == exts0[i] && exts0[i] in exts0;
    }
  }

  /** The request for a single extent. */
  const SINGLE_EXTENT := Req(1, 0, false, true)

  /** What was in the buffer is still at its front. */
  ghost predicate Extends(buf0: seq<Byte>, buf: seq<Byte>) {
    buf0 <= buf
  }

  lemma {:induction false} ExtendsIs(buf0: seq<Byte>, buf: seq<Byte>)
    ensures Extends(buf0, buf) <==> buf0 <= buf
  {
  }

  lemma {:induction false} ExtendsThen(buf0: seq<Byte>, buf1: seq<Byte>, buf2: seq<Byte>)
    ensures Extends(buf0, buf0) && (Extends(buf0, buf1) && Extends(buf1, buf2) ==> Extends(buf0, buf2))
  {
  }

  /** The most blocks that a request for sz bytes makes an array grow by, whatever is free. */
  function WorstGrown(sz: nat, req: Req, blkSz: nat, splitAbove: nat): nat
    requires 0 < blkSz
  {
    var plan := PlanOf(sz, req, blkSz);
    MostGrown(plan.blks, splitAbove) + if plan.subs == 0 then 0 else splitAbove + 2
  }

  /** It is bounded by the blocks that sz bytes fill. */
  lemma {:induction false} WorstBound(sz: nat, req: Req, blkSz: nat, splitAbove: nat)
    requires GoodBlkSz(blkSz) && !req.Bad(blkSz)
    ensures WorstGrown(sz, req, blkSz, splitAbove) <= MostGrown(sz / blkSz + 1, splitAbove) + splitAbove + 2
  {
    hide MostGrown, Times, AllocSize, InlinePart;
    var plan := PlanOf(sz, req, blkSz);
    var rest := AllocSize(sz, req, blkSz) - InlinePart(sz, req, blkSz);
    DivModBack(sz, blkSz);
    DivModBack(rest, blkSz);
    OneUnit(sz / blkSz, blkSz);
    OneUnit(sz / blkSz + 1, blkSz);
    assert plan.blks <= sz / blkSz + 1 by {
      if sz / blkSz + 2 <= plan.blks { LessEqual(sz / blkSz + 2, plan.blks, blkSz); }
    }
    MoreGrown(plan.blks, sz / blkSz + 1, splitAbove);
  }

  lemma {:induction false} WholeSplit(e: Extent, n: nat, front: Extent, back: Extent)
    requires IsSplit(e, n, front, back) && front.Empty()
    ensures back == e
  {
    if e.Sub? { assert front.bits + back.bits == back.bits; }
  }

  class SegmentAllocator {
    const arr: BlockArray
    const tail: TailAllocator
    const fr: FreeMaps.FreeMap
    const sub: SubBlockFreeMaps.SubBlockFreeMap

    var inUseByUserSz: int
    var inUseBlkCnt: int
    var inUseBlkForSuballocCnt: nat
    var inUseSubblkCnt: int
    var inUseExtCnt: int
    var inUseInlinedSz: int

    /** The holdings handed out and not yet taken back. */
    ghost var live: seq<Holding>
    /** The extents of requests that failed half way; the allocator never frees them. */
    ghost var lost: seq<Extent>
    /**
     * How many extents in use were cut in two and lost one part: by a block array on a segment, as Geometry.SplitsOne
     * foretells, or by DeallocSingleExtent. The count of extents in use misses the parts that stay.
     */
    ghost var splits: nat

    /** Manages the array; no space is free and none is in use before one of the initializers was called. */
    constructor (arr: BlockArray, coalescing: bool, splitAbove: nat)
      requires arr.Valid() && 2 <= arr.blkSz && splitAbove <= 0xffff
      ensures this.arr == arr && tail.arr == arr && fresh(fr) && fresh(sub)
      ensures fr.Valid() && sub.Valid() && fr.coalescing == coalescing && fr.splitAbove == splitAbove
      ensures fr.byNr == [] && sub.frByNr == map[]
      ensures 0 == inUseByUserSz == inUseBlkCnt == inUseBlkForSuballocCnt == inUseSubblkCnt == inUseExtCnt
          == inUseInlinedSz
      ensures live == [] && lost == [] && splits == 0
    {
      this.arr := arr;
      this.tail := new TailAllocator(arr);
      this.fr := new FreeMaps.FreeMap(coalescing, splitAbove);
      this.sub := new SubBlockFreeMaps.SubBlockFreeMap();
      inUseByUserSz, inUseBlkCnt, inUseBlkForSuballocCnt, inUseSubblkCnt, inUseExtCnt, inUseInlinedSz := 0, 0, 0, 0, 0,
          0;
      live, lost, splits := [], [], 0;
    }

    // -- initialization --

    /** The bitmaps in use of the blocks for suballocation; throws if two extents share a bit. */
    method CollectBits(sorted: seq<Extent>) returns (r: Outcome<SubBlockFreeMaps.BitsOf>)
      requires Proper(sorted)
      ensures r.Ok? ==> IsTaken(r.value, sorted)
      ensures r.Throws? ==> !Disjoint(sorted)
    {
      hide IsTaken, Disjoint, Covers, SubBlockFreeMaps.With;
      var taken: SubBlockFreeMaps.BitsOf := map[];
      TakenNone(sorted);
      for i := 0 to |sorted|
        invariant IsTaken(taken, sorted[..i])
      {
        var e := sorted[i];
        assert e in sorted;
        TakenNext(taken, sorted, i);
        if e.Sub? {
          if e.nr in taken && taken[e.nr] * e.bits != {} {
            SharedBit(taken, sorted, i);
            return Throws(ExtentOverlap);
          }
          if e.nr in taken { NoSharedBit(taken[e.nr], e.bits); }
          taken := SubBlockFreeMaps.With(taken, e.nr, e.bits);
        }
      }
      assert sorted[..|sorted|] == sorted;
      r := Ok(taken);
    }

    /** Provides the free bits of the blocks that have bits in use, and counts these blocks. */
    method ProvideBits(taken: SubBlockFreeMaps.BitsOf) returns (cuts: seq<Extent>)
      requires sub.Valid() && sub.frByNr == map[] && inUseBlkForSuballocCnt == 0
      modifies this`inUseBlkCnt, this`inUseBlkForSuballocCnt, sub
      ensures sub.Valid() && IsFreeOf(sub.frByNr, taken, taken.Keys)
      ensures AreBlocks(cuts, taken.Keys) && forall nr :: nr in taken ==> Full(nr, 1) in cuts
      ensures inUseBlkForSuballocCnt == |taken| && inUseBlkCnt - inUseBlkForSuballocCnt == old(inUseBlkCnt)
    {
      hide IsFreeOf, AreBlocks, TodoAndDone;
      cuts := [];
      var todo, done := taken.Keys, {};
      NothingMoved(todo);
      FreeOfNone(taken);
      NoBlocks();
      while todo != {}
        invariant sub.Valid() && IsFreeOf(sub.frByNr, taken, done) && AreBlocks(cuts, done)
            && TodoAndDone(todo, done, taken.Keys)
        invariant forall nr :: nr in done ==> Full(nr, 1) in cuts
        invariant inUseBlkForSuballocCnt == |done| && inUseBlkCnt - inUseBlkForSuballocCnt == old(inUseBlkCnt)
      {
        var nr := SubBlockFreeMaps.First(todo);
        MoveOver(todo, done, taken.Keys, nr);
        ProvideFree(taken, done, nr);
        OneBlockMore(cuts, done, nr);
        inUseBlkForSuballocCnt := inUseBlkForSuballocCnt + 1;
        inUseBlkCnt := inUseBlkCnt + 1;
        cuts := cuts + [Full(nr, 1)];
        todo, done := todo - {nr}, done + {nr};
      }
    }

    method ProvideFree(taken: SubBlockFreeMaps.BitsOf, ghost done: set<nat>, nr: nat)
      requires sub.Valid() && nr in taken && nr !in done && IsFreeOf(sub.frByNr, taken, done)
      modifies sub
      ensures sub.Valid() && IsFreeOf(sub.frByNr, taken, done + {nr})
    {
      FreeOfNext(sub.frByNr, taken, done, nr);
      BitsBounded(taken[nr]);
      var free := ALL_BITS - taken[nr];
      if free != {} {
        var r := sub.Provide(Sub(nr, free));
      } else {
        assert taken[nr] == ALL_BITS;
      }
    }

    /** Provides gap blocks from block cur on, in chunks of at most 0xffff. */
    method ProvideGap(cur: nat, gap: nat, ghost owned: seq<Extent>)
      requires fr.Valid() && Covered(fr.byNr, arr.begin, cur, owned) && ChoppedTo(fr.byNr, cur)
      modifies fr
      ensures fr.Valid() && Covered(fr.byNr, arr.begin, cur + gap, owned)
      ensures Chopped(fr.byNr) && forall next: nat :: cur + gap < next ==> ChoppedTo(fr.byNr, next)
    {
      hide Covered, FreeMaps.Freed, FreeMaps.Clear, FreeMaps.InOrder, Chopped, ChoppedTo, FreeMaps.WellSized,
          FreeMaps.Ascending;
      ChoppedLater(cur);
      var at: nat, remain: nat := cur, gap;
      while 0 < remain
        invariant Chopped(fr.byNr) && (0 < remain ==> ChoppedTo(fr.byNr, at))
        invariant remain == 0 ==> forall next: nat :: cur + gap < next ==> ChoppedTo(fr.byNr, next)
        invariant fr.Valid() && at + remain == cur + gap && Covered(fr.byNr, arr.begin, at, owned)
      {
        var len: nat := if remain < MAX_BLK_CNT then remain else MAX_BLK_CNT;
        GapChopped(fr.byNr, at, len, fr.coalescing);
        CoveredGap(fr.byNr, arr.begin, at, owned, len, fr.coalescing);
        var r := fr.Provide(Full(at, len));
        remain := remain - len;
        at := at + len;
      }
    }

    lemma {:induction false} ChoppedLater(at: nat)
      requires ChoppedTo(fr.byNr, at)
      ensures Chopped(fr.byNr) && forall next: nat :: at < next ==> ChoppedTo(fr.byNr, next)
    {
    }

    /** Provides the gaps between the extents of blocks, in their order; compares each extent with the one before. */
    method ProvideGaps(all: seq<Extent>, ghost inUse: seq<Extent>,
        ghost taken: SubBlockFreeMaps.BitsOf) returns (r: Outcome<()>)
      requires arr.Valid() && fr.Valid() && fr.byNr == [] && Proper(all)
      requires IsMerged(all, inUse, taken) && IsTaken(taken, inUse)
      modifies fr
      ensures fr.Valid()
      ensures r.Ok? ==> Covered(fr.byNr, arr.begin, arr.pastEnd, Fulls(all)) && Chopped(fr.byNr)
      ensures r.Throws? ==> !Placeable(inUse, arr.begin, arr.pastEnd)
    {
      hide Covered, Fulls, IsMerged, IsTaken, Placeable, Disjoint, FreeMaps.FreeMap.Valid, Chopped, ChoppedTo;
      var cur: nat := arr.begin;
      var prev := Full(0, 0);
      CoveredNothing(arr.begin);
      ChoppedNothing(arr.begin);
      FullsNone(all);
      for i := 0 to |all|
        invariant fr.Valid() && Covered(fr.byNr, arr.begin, cur, Fulls(all[..i])) && cur <= arr.pastEnd
        invariant ChoppedTo(fr.byNr, cur)
        invariant prev.Full? && (prev.cnt == 0 ==> prev.nr == 0 && cur == arr.begin)
        invariant 0 < prev.cnt ==> cur == prev.PastEnd() && prev in Fulls(all[..i])
      {
        var e := all[i];
        FullsNext(all, i);
        if e.Full? {
          assert e in all;
          if !arr.WithinBoundaries(e) {
            OutOfBounds(all, inUse, taken, e, arr.begin, arr.pastEnd);
            return Throws(ExtentOutOfBounds);
          }
          InOrder(all, inUse, taken, i, prev);
          if DistanceInBlks(prev, e).Throws? {
            MeetingFulls(all, inUse, taken, i, prev);
            DisjointOfPlaceable(inUse, arr.begin, arr.pastEnd);
            return Throws(ExtentOverlap);
          }
          prev := e;
          ProvideGap(cur, e.nr - cur, Fulls(all[..i]));
          CoveredExtent(fr.byNr, arr.begin, e.nr, Fulls(all[..i]), e);
          cur := e.PastEnd();
        }
      }
      assert all[..|all|] == all;
      ProvideGap(cur, arr.pastEnd - cur, Fulls(all));
      r := Ok(());
    }

    /** The free space becomes what the extents in use leave; throws if they do not lie in the array or overlap. */
    method InitializeFromExtents(inUse: seq<Extent>) returns (r: Outcome<()>)
      requires arr.Valid() && fr.Valid() && sub.Valid() && tail.arr == arr && Proper(inUse)
      requires fr.byNr == [] && sub.frByNr == map[] && inUseBlkForSuballocCnt == 0
      modifies this`inUseBlkCnt, this`inUseBlkForSuballocCnt, fr, sub
      ensures r.Ok? <==> Placeable(inUse, arr.begin, arr.pastEnd)
      ensures r.Ok? ==>
                && Holds(inUse) && NoneWhole(sub.frByNr) && inUseBlkCnt - inUseBlkForSuballocCnt == old(inUseBlkCnt)
                && Chopped(fr.byNr)
    {
      hide Covered, Fulls, IsMerged, IsTaken, IsFreeOf, AreBlocks, Placeable, Disjoint, Proper, SortByNr, Balanced,
          Chopped;
      var sorted := SortByNr(inUse);
      SortedSame(inUse, arr.begin, arr.pastEnd);
      var bits := CollectBits(sorted);
      if bits.Throws? { return Throws(bits.error); }
      SortedTaken(bits.value, inUse);
      var cuts := ProvideBits(bits.value);
      MergedBySort(inUse, bits.value, cuts);
      MergedProper(sorted, cuts, bits.value);
      var all := SortByNr(sorted + cuts);
      r := ProvideGaps(all, inUse, bits.value);
      if r.Throws? { return; }
      ComplementBalanced(fr.byNr, arr.begin, arr.pastEnd, all, inUse, bits.value, sub.frByNr);
      FreeOfNotEmpty(sub.frByNr, bits.value);
      TakenNotEmpty(bits.value, inUse);
      BalancedPlaceable(Sp(), inUse);
    }

    /** Takes over an array in which the segments are in use already. */
    method InitializeFromAllocated(segms: seq<Holding>) returns (r: Outcome<()>)
      requires arr.Valid() && fr.Valid() && sub.Valid() && tail.arr == arr && Proper(Exts(segms))
      requires fr.byNr == [] && sub.frByNr == map[] && live == [] && lost == [] && splits == 0
      requires 0 == inUseByUserSz == inUseBlkCnt == inUseBlkForSuballocCnt == inUseSubblkCnt == inUseExtCnt
          == inUseInlinedSz
      modifies this, fr, sub
      ensures r.Ok? <==>
              && Placeable(Exts(segms), arr.begin, arr.pastEnd)
              && forall h :: h in segms ==> h.inlineSz <= MAX_INLINE_SIZE
      ensures r.Ok? ==> Valid() && live == segms && lost == [] && splits == 0 && Chopped(fr.byNr)
    {
      hide Placeable, Tally, Balanced, Proper, NoneWhole, Exts, Chopped;
      var inUse := CountSegments(segms);
      if inUse.Throws? { return Throws(inUse.error); }
      r := InitializeFromExtents(inUse.value);
      live, lost := segms, [];
      assert Exts(segms) + [] == Exts(segms);
    }

    /** Counts the segments and collects their extents; throws if one has too many inline bytes. */
    method CountSegments(segms: seq<Holding>) returns (r: Outcome<seq<Extent>>)
      requires splits == 0
      requires 0 == inUseByUserSz == inUseBlkCnt == inUseBlkForSuballocCnt == inUseSubblkCnt == inUseExtCnt
          == inUseInlinedSz
      modifies this`inUseByUserSz, this`inUseBlkCnt, this`inUseSubblkCnt, this`inUseExtCnt, this`inUseInlinedSz
      ensures r.Ok? <==> forall h :: h in segms ==> h.inlineSz <= MAX_INLINE_SIZE
      ensures r.Ok? ==> r.value == Exts(segms) && InUse() == Tally(segms, arr.blkSz)
    {
      hide Tally, DataSizes, FullBlks, SubBlks, Exts;
      var inUse: seq<Extent> := [];
      TallyNone(segms, arr.blkSz);
      for i := 0 to |segms|
        invariant inUse == Exts(segms[..i]) && InUse() == Tally(segms[..i], arr.blkSz)
        invariant forall h :: h in segms[..i] ==> h.inlineSz <= MAX_INLINE_SIZE
      {
        var h := segms[i];
        assert segms[..i + 1] == segms[..i] + [h];
        if h.inlineSz > MAX_INLINE_SIZE { return Throws(BadRequest); }
        TallyNext(segms, i, arr.blkSz);
        inUse := inUse + h.exts;
        inUseByUserSz := inUseByUserSz + DataSizes(h.exts, arr.blkSz) + h.inlineSz;
        inUseExtCnt := inUseExtCnt + |h.exts|;
        inUseInlinedSz := inUseInlinedSz + h.inlineSz;
        inUseBlkCnt := inUseBlkCnt + FullBlks(h.exts);
        inUseSubblkCnt := inUseSubblkCnt + SubBlks(h.exts);
      }
      assert segms[..|segms|] == segms;
      r := Ok(inUse);
    }

    ghost function Sp(): Space
      reads this`inUseBlkForSuballocCnt, fr, sub, arr
    {
      Space(fr.byNr, sub.frByNr, inUseBlkForSuballocCnt, arr.begin, arr.pastEnd)
    }

    /** Each sub-block of the array is free, or is owned by exactly one of the extents. */
    ghost predicate Holds(owned: seq<Extent>)
      reads this`inUseBlkForSuballocCnt, fr, sub, arr
    {
      && arr.Valid() && fr.Valid() && sub.Valid() && tail.arr == arr
      && Balanced(Sp(), owned)
    }

    ghost function Owned(): seq<Extent>
      reads this`live, this`lost
    {
      Exts(live) + lost
    }

    /** What the counters show; the blocks cut into sub-blocks are counted apart. */
    ghost function InUse(): Sums
      reads this
    {
      Sums(inUseByUserSz, inUseBlkCnt - inUseBlkForSuballocCnt, inUseSubblkCnt, inUseExtCnt + splits, inUseInlinedSz)
    }

    /** Between calls: one owner for each sub-block, no wholly free block cut into sub-blocks, exact counters. */
    ghost predicate Valid()
      reads this, fr, sub, arr
    {
      && Holds(Owned()) && NoneWhole(sub.frByNr)
      && InUse() == Tally(live, arr.blkSz)
      && forall h :: h in live ==> h.inlineSz <= MAX_INLINE_SIZE
    }

    /** How often a request for n blocks may still fail while the array grows. */
    ghost function FailRank(n: nat): nat
      reads fr, arr
    {
      Rank(fr.byNr, arr.pastEnd, fr.coalescing, fr.splitAbove, n)
    }

    /** The most blocks by which the array grows until a free chunk serves n blocks. */
    ghost function Lack(n: nat): nat
      reads fr, arr`pastEnd
    {
      Lacking(fr.byNr, arr.pastEnd, fr.coalescing, fr.splitAbove, n)
    }

    // -- where space comes from --

    lemma {:induction false} LargestFails(owned: seq<Extent>)
      requires Holds(owned)
      ensures FailRank(MAX_BLK_CNT) <= 1
    {
      LargestRank(fr.byNr, arr.pastEnd, fr.coalescing, fr.splitAbove);
    }

    /** Grows the array, by less if its last blocks are free already. */
    method ProvideMoreToFr(n: nat, ghost owned: seq<Extent>) returns (r: Outcome<()>)
      requires Holds(owned) && 0 < n <= MAX_BLK_CNT && FreeMaps.NoneUsable(fr.byNr, n, fr.splitAbove)
      modifies fr, arr
      ensures Holds(owned) && old(arr.buf) <= arr.buf
      ensures old(arr.pastEnd) <= arr.pastEnd && old(arr.realEnd) <= arr.realEnd
      ensures arr.pastEnd + Lack(n) <= old(arr.pastEnd + Lack(n))
      ensures r.Throws? ==> unchanged(fr) && unchanged(arr) && r.error == BlockNumbersExhausted && !arr.CanGrow(n)
      ensures r.Throws? ==> !arr.CanReach(arr.pastEnd + Lack(n))
      ensures r.Ok? ==> FailRank(n) < old(FailRank(n)) && (n == MAX_BLK_CNT ==> FailRank(n) == 0)
      ensures r.Ok? ==> old(arr.pastEnd) < arr.pastEnd
    {
      hide Balanced, Rank, Lacking, FreeMaps.NoneUsable, FreeMaps.Freed, FreeMaps.Clear, FreeMaps.WellSized,
          FreeMaps.Ascending, FreeMaps.InOrder, BlockArray.CanReach;
      ghost var sp := Sp();
      var cnt := GrowthFor(n, owned);
      GrowthPlan(sp, owned, n, fr.coalescing, fr.splitAbove);
      if n == MAX_BLK_CNT { LargestFails(owned); }
      var ext := tail.Alloc(cnt);
      if ext.Throws? {
        CannotGrowMore(cnt, n);
        CannotReach(cnt, arr.pastEnd + Lack(n));
        return Throws(ext.error);
      }
      r := fr.Provide(ext.value);
      assert Sp() == Grown(sp, cnt, fr.coalescing);
    }

    lemma {:induction false} CannotReach(cnt: nat, end: nat)
      requires arr.Valid() && cnt <= MAX_BLK_CNT && arr.pastEnd + cnt <= end && !arr.CanGrow(cnt)
      ensures !arr.CanReach(end)
    {
      if arr.CanReach(end) { arr.CanReachGrows(cnt, end); }
    }

    lemma {:induction false} CannotGrowMore(cnt: nat, more: nat)
      requires cnt <= more && !arr.CanGrow(cnt)
      ensures !arr.CanGrow(more)
    {
      if arr.CanGrow(more) { arr.CanGrowLess(cnt, more); }
    }

    method GrowthFor(n: nat, ghost owned: seq<Extent>) returns (cnt: nat)
      requires Holds(owned) && 0 < n
      ensures cnt == GrowCnt(fr.byNr, arr.pastEnd, fr.coalescing, n)
    {
      cnt := n;
      if fr.coalescing && |fr.byNr| > 0 {
        LastChunkWithin(Sp(), owned);
        var last := fr.byNr[|fr.byNr| - 1];
        var atEnd := tail.IsAtTheEnd(Full(last.nr, last.cnt));
        if atEnd.value {
          cnt := if n <= last.cnt then 0 else n - last.cnt;
          if cnt == 0 { cnt := 1; }
        }
      }
    }

    /** Cuts one free block into sub-blocks. */
    method ProvideMoreToSub(ghost owned: seq<Extent>, ghost n: nat) returns (ok: bool)
      requires Holds(owned) && NoneWhole(sub.frByNr) && !Fits(sub.frByNr, n) && n <= 16
      modifies this`inUseBlkCnt, this`inUseBlkForSuballocCnt, fr, sub
      ensures Holds(owned)
      ensures inUseBlkCnt - inUseBlkForSuballocCnt == old(inUseBlkCnt - inUseBlkForSuballocCnt)
      ensures ok ==> OneWhole(sub.frByNr, n) && Fits(sub.frByNr, n)
      ensures !ok ==>
                unchanged(this) && unchanged(fr) && unchanged(sub) && FreeMaps.NoneUsable(fr.byNr, 1, fr.splitAbove)
    {
      hide Balanced, OneWhole, Fits, NoneWhole, FreeMaps.NoneUsable, FreeMaps.Taken, FreeMaps.IsServed;
      ghost var sp := Sp();
      var r := fr.Alloc(1);
      if r.value.Closest? { return false; }
      var ext := r.value.ext;
      ghost var i := ServedFrom(sp.free, 1, fr.splitAbove, ext, fr.byNr);
      CutBlock(sp, owned, i);
      BecomesWhole(sub.frByNr, ext.nr, n);
      var p := sub.Provide(ext);
      inUseBlkForSuballocCnt := inUseBlkForSuballocCnt + ext.cnt;
      inUseBlkCnt := inUseBlkCnt + ext.cnt;
      assert Sp() == Cut(sp, i);
      ok := true;
    }

    // -- extents for one segment --

    /** Adds one extent of n blocks to the segment if a free chunk serves it. */
    method AddBlocks(segm: Segment, n: nat, ghost owned: seq<Extent>) returns (r: FreeMaps.AllocResult)
      requires Holds(owned + segm.exts) && !segm.inlinePresent && 0 < n <= MAX_BLK_CNT
      modifies fr, segm`exts
      ensures Holds(owned + segm.exts)
      ensures r.Allocated? ==> r.ext.Full? && r.ext.cnt == n && segm.exts == old(segm.exts) + [r.ext]
      ensures r.Allocated? <==> !old(FreeMaps.NoneUsable(fr.byNr, n, fr.splitAbove))
      ensures r.Closest? ==> unchanged(fr) && unchanged(segm) && r.cnt < n && 0 < FailRank(n)
      ensures FreeMaps.IsServed(old(fr.byNr), old(fr.byCnt), n, fr.splitAbove, r, fr.byNr, fr.byCnt)
    {
      hide Balanced, FreeMaps.Taken, FreeMaps.Usable, FreeMaps.IsServed;
      ghost var sp := Sp();
      var a := fr.Alloc(n);
      r := a.value;
      if r.Closest? { return; }
      ghost var i := ServedFrom(sp.free, n, fr.splitAbove, r.ext, fr.byNr);
      assert !FreeMaps.NoneUsable(sp.free, n, fr.splitAbove) by { ServedIsUsable(sp.free, n, fr.splitAbove, r.ext,
          fr.byNr); }
      assert owned + segm.exts + [] == owned + segm.exts;
      TakeBlocks(sp, owned + segm.exts, [], i, n);
      var added := segm.AddExtent(r.ext);
      assert owned + old(segm.exts) + [r.ext] + [] == owned + segm.exts;
      assert Sp() == sp.(free := FreeMaps.Taken(sp.free, i, n));
    }

    /** Adds one extent, one of those that remain blocks are cut into if the array may grow for them. */
    method AddPiece(segm: Segment, n: nat, ghost owned: seq<Extent>, ghost useParent: bool, ghost goal: nat,
        ghost remain: nat) returns (r: FreeMaps.AllocResult)
      requires Holds(owned + segm.exts) && !segm.inlinePresent && 0 < n <= MAX_BLK_CNT && n <= remain
      requires useParent ==> n == Least(remain, remain) && Within(goal, remain)
      modifies fr, segm`exts
      ensures Holds(owned + segm.exts)
      ensures r.Allocated? ==> r.ext.Full? && r.ext.cnt == n && segm.exts == old(segm.exts) + [r.ext]
      ensures r.Allocated? <==> !old(FreeMaps.NoneUsable(fr.byNr, n, fr.splitAbove))
      ensures r.Closest? ==> unchanged(fr) && unchanged(segm) && r.cnt < n && 0 < FailRank(n)
      ensures useParent ==> Within(goal, if r.Allocated? then remain - n else remain)
      ensures FreeMaps.IsServed(old(fr.byNr), old(fr.byCnt), n, fr.splitAbove, r, fr.byNr, fr.byCnt)
    {
      hide Holds, Within, Lack, MostGrown, FreeMaps.NoneUsable, FreeMaps.IsServed;
      WithinIs(goal, remain);
      r := AddBlocks(segm, n, owned);
      if r.Allocated? { WithinStart(remain - n); }
    }

    /** Grows the array for the next of the extents that remain blocks are cut into. */
    method GrowForPiece(n: nat, ghost owned: seq<Extent>, ghost goal: nat, ghost remain: nat) returns (r: Outcome<()>)
      requires Holds(owned) && 0 < n && n == Least(remain, remain) && FreeMaps.NoneUsable(fr.byNr, n, fr.splitAbove)
      requires Within(goal, remain)
      modifies fr, arr
      ensures Holds(owned) && Extends(old(arr.buf), arr.buf)
      ensures old(arr.pastEnd) <= arr.pastEnd && old(arr.realEnd) <= arr.realEnd && Within(goal, remain)
      ensures r.Throws? ==> unchanged(fr) && unchanged(arr) && r.error == BlockNumbersExhausted && !arr.CanGrow(n)
      ensures r.Throws? ==> !arr.CanReach(goal)
      ensures r.Ok? ==> FailRank(n) < old(FailRank(n)) && (n == MAX_BLK_CNT ==> FailRank(n) == 0)
      ensures r.Ok? ==> old(arr.pastEnd) < arr.pastEnd
    {
      hide Holds, Within, Lack, MostGrown, FailRank, BlockArray.CanReach, BlockArray.CanGrow, FreeMaps.NoneUsable;
      WithinIs(goal, remain);
      r := ProvideMoreToFr(n, owned);
      WithinIs(goal, remain);
      if r.Throws? { arr.CanReachLess(arr.pastEnd + Lack(n), goal); }
    }

    /** Adds one extent, or grows the array for it if it may. */
    method TryPiece(segm: Segment, n: nat, useParent: bool, ghost owned: seq<Extent>, ghost goal: nat,
        ghost remain: nat) returns (r: Outcome<()>, result: FreeMaps.AllocResult)
      requires Holds(owned + segm.exts) && !segm.inlinePresent && 0 < n <= MAX_BLK_CNT && n <= remain
      requires useParent ==> n == Least(remain, remain) && Within(goal, remain)
      modifies fr, arr, segm`exts
      ensures Holds(owned + segm.exts)
      ensures Extends(old(arr.buf), arr.buf) && old(arr.pastEnd) <= arr.pastEnd && old(arr.realEnd) <= arr.realEnd
      ensures arr.pastEnd == old(arr.pastEnd) ==> unchanged(arr)
      ensures result.Allocated? <==> !old(FreeMaps.NoneUsable(fr.byNr, n, fr.splitAbove))
      ensures result.Allocated? ==>
                && r.Ok? && unchanged(arr) && result.ext.Full? && result.ext.cnt == n
                && segm.exts == old(segm.exts) + [result.ext]
      ensures result.Closest? ==> segm.exts == old(segm.exts) && result.cnt < n && 0 < old(FailRank(n))
      ensures !useParent ==>
                && r.Ok? && unchanged(arr)
                && FreeMaps.IsServed(old(fr.byNr), old(fr.byCnt), n, fr.splitAbove, result, fr.byNr, fr.byCnt)
      ensures useParent ==> Within(goal, if result.Allocated? then remain - n else remain)
      ensures r.Throws? ==>
                unchanged(arr) && r.error == BlockNumbersExhausted && !arr.CanGrow(n) && !arr.CanReach(goal)
      ensures r.Ok? && result.Closest? && useParent ==>
                FailRank(n) < old(FailRank(n)) && (n == MAX_BLK_CNT ==> FailRank(n) == 0)
    {
      hide Holds, Within, FailRank, Extends, BlockArray.CanReach, BlockArray.CanGrow, FreeMaps.NoneUsable,
          FreeMaps.IsServed;
      ExtendsThen(arr.buf, arr.buf, arr.buf);
      result := AddPiece(segm, n, owned, useParent, goal, remain);
      r := Ok(());
      if result.Closest? && useParent {
        r := GrowForPiece(n, owned + segm.exts, goal, remain);
      }
    }

    /** Whether one free chunk serves a request for n blocks. */
    ghost predicate ServedAtOnce(n: nat)
      reads fr
    {
      0 < n <= MAX_BLK_CNT && !FreeMaps.NoneUsable(fr.byNr, n, fr.splitAbove)
    }

    /** Whether n blocks need an extent as long as possible, and the array has room for one. */
    ghost predicate Wide(n: nat)
      reads arr
    {
      MAX_BLK_CNT <= n && arr.CanGrow(MAX_BLK_CNT)
    }

    /** The array will not grow beyond block `goal` while n blocks are allocated in extents as long as possible. */
    ghost predicate Within(goal: nat, n: nat)
      reads fr, arr`pastEnd
    {
      arr.pastEnd + Need(n) <= goal
    }

    /** The most blocks that n blocks in extents as long as possible make the array grow by. */
    ghost function Need(n: nat): nat
      reads fr, arr`pastEnd
    {
      Needed(fr.byNr, arr.pastEnd, fr.coalescing, fr.splitAbove, n)
    }

    /** What a pass over the free chunks takes for n blocks and leaves. */
    ghost function FreePass(n: nat, frag: nat, threshold: nat): Pass
      reads fr
    {
      if fr.Valid() then Reused(fr.byNr, fr.byCnt, n, frag, threshold, fr.splitAbove, MAX_BLK_CNT)
      else Pass([], fr.byNr, fr.byCnt, n, frag, MAX_BLK_CNT)
    }

    /** The segment has got what a pass takes, and the rest is left. */
    ghost predicate AsPassed(p: Pass, exts0: seq<Extent>, exts: seq<Extent>, remain: nat)
      reads fr
    {
      exts == exts0 + p.exts && fr.byNr == p.byNr && fr.byCnt == p.byCnt && remain == p.left
    }

    lemma {:induction false} WithinStart(n: nat)
      ensures forall goal: nat :: arr.pastEnd + MostGrown(n, fr.splitAbove) <= goal ==> Within(goal, n)
      ensures Within(arr.pastEnd + Need(n), n)
    {
      NeededBound(fr.byNr, arr.pastEnd, fr.coalescing, fr.splitAbove, n, n);
    }

    lemma {:induction false} WithinIs(goal: nat, n: nat)
      ensures Within(goal, n) ==> arr.pastEnd <= goal
      ensures 0 < n ==>
                Within(goal, n) ==
                  (arr.pastEnd + Lack(Least(n, n)) + MostGrown(n - Least(n, n), fr.splitAbove) <= goal)
    {
    }

    /** What the array cannot reach now it could not reach when it was smaller, nor anything beyond. */
    lemma {:induction false} NotReached(pastEnd0: nat, realEnd0: nat, end: nat, goal: nat)
      requires pastEnd0 <= arr.pastEnd && realEnd0 <= arr.realEnd && end <= goal
      ensures !arr.CanReach(end) ==> !Reaches(pastEnd0, realEnd0, arr.overAllocate, arr.blkSz, goal)
    {
      arr.CanReachLess(end, goal);
      if Reaches(pastEnd0, realEnd0, arr.overAllocate, arr.blkSz, goal) {
        StillReaches(pastEnd0, realEnd0, arr.pastEnd, arr.realEnd, arr.overAllocate, arr.blkSz, goal);
      }
    }

    lemma {:induction false} WideCanGrow(n: nat)
      ensures Wide(n) ==> MAX_BLK_CNT == Least(n, n) <= n && arr.CanGrow(Least(n, n))
    {
    }

    lemma {:induction false} ServedNeedsNone(n: nat)
      ensures ServedAtOnce(n) ==>
                Need(n) == 0 && 0 < n <= MAX_BLK_CNT && !FreeMaps.NoneUsable(fr.byNr, n, fr.splitAbove)
    {
      LeastIs(n, n);
      MoreGrown(0, 0, fr.splitAbove);
    }

    lemma {:induction false} PassStart(owned: seq<Extent>, n: nat, frag: nat, threshold: nat)
      requires Holds(owned)
      ensures OnTrack(FreePass(n, frag, threshold), [], fr.byNr, fr.byCnt, n, frag, threshold, fr.splitAbove,
                MAX_BLK_CNT)
    {
      TrackStart(fr.byNr, fr.byCnt, n, frag, threshold, fr.splitAbove, MAX_BLK_CNT);
    }

    /**
     * Allocates blkCnt blocks or as many as it can, in chunks as large as possible: with useParent it grows the array
     * whenever no chunk serves, else it turns to smaller chunks. Without ignoreThreshold the extents are limited.
     */
    method AllocateExtents(segm: Segment, blkCnt: nat, threshold: nat, ignoreThreshold: bool, useParent: bool,
        ghost owned: seq<Extent>)
      returns (r: Outcome<()>, remain: nat)
      requires Holds(owned + segm.exts) && !segm.inlinePresent
      modifies fr, arr, segm`exts
      ensures Holds(owned + segm.exts) && Extends(old(arr.buf), arr.buf)
      ensures old(arr.pastEnd) <= arr.pastEnd && old(arr.realEnd) <= arr.realEnd
      ensures arr.pastEnd <= old(arr.pastEnd + Need(blkCnt)) && (!useParent ==> unchanged(arr))
      ensures arr.pastEnd == old(arr.pastEnd) ==> unchanged(arr)
      ensures r.Throws? ==> !old(arr.CanReach(arr.pastEnd + Need(blkCnt)))
      ensures !useParent && !ignoreThreshold ==>
                AsPassed(old(FreePass(blkCnt, FragOf(segm.exts), threshold)), old(segm.exts), segm.exts, remain)
      ensures old(segm.exts) <= segm.exts
      ensures SoFar(old(segm.exts), segm.exts, blkCnt, remain)
      ensures r.Throws? ==> useParent && r.error == BlockNumbersExhausted && !arr.CanGrow(Least(blkCnt, blkCnt))
      ensures r.Ok? && useParent && ignoreThreshold ==> remain == 0
      ensures r.Ok? && useParent && !ignoreThreshold && threshold == 1 && 0 < blkCnt && old(segm.exts) == [] ==>
                |segm.exts| == 1 && remain == blkCnt - Least(blkCnt, blkCnt)
      ensures blkCnt == 0 ==> segm.exts == old(segm.exts)
      ensures !ignoreThreshold && old(segm.exts) == [] ==> |segm.exts| <= threshold
      ensures old(FragOf(segm.exts) < threshold || ignoreThreshold) && old(ServedAtOnce(blkCnt)) ==>
                r.Ok? && remain == 0 && |segm.exts| == |old(segm.exts)| + 1 && unchanged(arr)
      ensures useParent && threshold == 1 && !ignoreThreshold && old(segm.exts == [] && Wide(blkCnt)) ==> r.Ok?
    {
      hide Holds, FailRank, FreeMaps.NoneUsable, SoFar, Progress, Wide, BlockArray.CanGrow, Reaches, Within, Lack,
          MostGrown, Least, Extends, FreeMaps.IsServed, OnTrack, FreePass, Need, FragOf;
      ExtendsThen(arr.buf, arr.buf, arr.buf);
      ghost var goal, exts0 := arr.pastEnd + Need(blkCnt), segm.exts;
      WithinStart(blkCnt);
      ghost var pass, added: seq<Extent> := FreePass(blkCnt, FragOf(segm.exts), threshold), [];
      PassStart(owned + segm.exts, blkCnt, FragOf(segm.exts), threshold);
      WideCanGrow(blkCnt);
      LeastIs(blkCnt, blkCnt);
      ghost var limit := !ignoreThreshold;
      ServedNeedsNone(blkCnt);
      ghost var byNr0 := fr.byNr;
      ghost var atOnce := ServedAtOnce(blkCnt) && (FragOf(segm.exts) < threshold || ignoreThreshold);
      ProgressStart(atOnce, useParent, limit, threshold, blkCnt, exts0);
      ghost var wide := segm.exts == [] && Wide(blkCnt) && useParent && threshold == 1 && !ignoreThreshold;
      remain := blkCnt;
      var frag: nat := FragOf(segm.exts);
      var fragOk := frag < threshold || ignoreThreshold;
      var probe: nat := MAX_BLK_CNT;
      while 0 < remain && fragOk
        invariant Holds(owned + segm.exts) && Extends(old(arr.buf), arr.buf) && segm.exts == exts0 + added
        invariant old(arr.pastEnd) <= arr.pastEnd && old(arr.realEnd) <= arr.realEnd
        invariant if useParent then Within(goal, remain) else unchanged(arr)
        invariant arr.pastEnd == old(arr.pastEnd) ==> unchanged(arr)
        invariant !useParent && limit ==>
                    OnTrack(pass, added, fr.byNr, fr.byCnt, remain, frag, threshold, fr.splitAbove, probe)
        invariant Progress(atOnce, useParent, limit, threshold, blkCnt, remain, frag, probe, exts0, added)
        invariant fragOk == (frag < threshold || ignoreThreshold)
        invariant atOnce && remain != 0 ==> fr.byNr == byNr0
        invariant wide && frag == 0 ==> remain == blkCnt && (Wide(blkCnt) || FailRank(MAX_BLK_CNT) == 0)
        invariant 0 < probe
        decreases remain, if useParent then FailRank(Least(probe, remain)) else Least(probe, remain)
      {
        LeastIs(probe, remain);
        ghost var byNr, byCnt, top, buf1 := fr.byNr, fr.byCnt, probe, arr.buf;
        probe := Least(probe, remain);
        ProgressAsk(atOnce, useParent, limit, threshold, blkCnt, remain, frag, top, exts0, added);
        var result;
        r, result := TryPiece(segm, probe, useParent, owned, goal, remain);
        ExtendsThen(old(arr.buf), buf1, arr.buf);
        if r.Throws? {
          NotReached(old(arr.pastEnd), old(arr.realEnd), goal, goal);
          WithinIs(goal, remain);
          CannotGrowMore(probe, Least(blkCnt, blkCnt));
          WideCanGrow(blkCnt);
          return;
        }
        if !useParent && limit {
          TrackStep(pass, added, byNr, byCnt, remain, frag, threshold, fr.splitAbove, top, result, fr.byNr, fr.byCnt);
        }
        ProgressStep(atOnce, useParent, limit, threshold, blkCnt, remain, frag, top, exts0, added, result);
        if result.Allocated? {
          added := added + [result.ext];
          frag := frag + 1;
          remain := remain - result.ext.cnt;
        } else if !useParent {
          if result.cnt == 0 { break; }
          probe := result.cnt;
          LeastIs(probe, remain);
          frag := frag + 1;
        }
        fragOk := frag < threshold || ignoreThreshold;
      }
      if !useParent && limit && (remain == 0 || !fragOk) {
        TrackEnd(pass, added, fr.byNr, fr.byCnt, remain, frag, threshold, fr.splitAbove, probe);
      }
      ProgressEnd(atOnce, useParent, limit, threshold, blkCnt, remain, frag, probe, exts0, added);
      WithinIs(goal, remain);
      r := Ok(());
    }

    /** The most blocks that an extent of n sub-blocks makes the array grow by: none if a block has n free bits. */
    ghost function SubGrown(n: nat): nat
      reads fr, sub, arr`pastEnd
    {
      if Fits(sub.frByNr, n) then 0 else Lack(1)
    }

    /** Adds one extent of n sub-blocks to the segment, from a block cut for it if need be. */
    method AllocateSubblkExtent(segm: Segment, n: nat, ghost owned: seq<Extent>) returns (r: Outcome<()>)
      requires Holds(owned + segm.exts) && NoneWhole(sub.frByNr) && !segm.inlinePresent && 0 < n <= 16
      modifies this`inUseBlkCnt, this`inUseBlkForSuballocCnt, fr, sub, arr, segm`exts
      ensures Holds(owned + segm.exts) && NoneWhole(sub.frByNr) && old(arr.buf) <= arr.buf
      ensures inUseBlkCnt - inUseBlkForSuballocCnt == old(inUseBlkCnt - inUseBlkForSuballocCnt)
      ensures r.Throws? ==> r.error == BlockNumbersExhausted && segm.exts == old(segm.exts) && !arr.CanGrow(1)
      ensures old(arr.pastEnd) <= arr.pastEnd <= old(arr.pastEnd + SubGrown(n)) && old(arr.realEnd) <= arr.realEnd
      ensures r.Throws? ==> !old(arr.CanReach(arr.pastEnd + SubGrown(n)))
      ensures arr.pastEnd == old(arr.pastEnd) ==> unchanged(arr)
      ensures r.Ok? ==> |segm.exts| == |old(segm.exts)| + 1 && segm.exts[..|old(segm.exts)|] == old(segm.exts)
                        && segm.exts[|old(segm.exts)|].Sub? && |segm.exts[|old(segm.exts)|].bits| == n
    {
      hide Holds, OneWhole, Fits, NoneWhole, Lack, Reaches;
      while true
        invariant old(arr.pastEnd) <= arr.pastEnd <= old(arr.pastEnd + SubGrown(n)) && old(arr.realEnd) <= arr.realEnd
        invariant old(Fits(sub.frByNr, n)) ==> Fits(sub.frByNr, n)
        invariant arr.pastEnd == old(arr.pastEnd) ==> unchanged(arr)
        invariant !Fits(sub.frByNr, n) ==> unchanged(fr) && unchanged(arr)
        invariant Holds(owned + segm.exts) && old(arr.buf) <= arr.buf && segm.exts == old(segm.exts)
        invariant inUseBlkCnt - inUseBlkForSuballocCnt == old(inUseBlkCnt - inUseBlkForSuballocCnt)
        invariant NoneWhole(sub.frByNr) || OneWhole(sub.frByNr, n)
        invariant NoneWhole(sub.frByNr) || Fits(sub.frByNr, n)
        decreases if Fits(sub.frByNr, n) then 0 else 1
      {
        var added := AddBits(segm, n, owned);
        if added { return Ok(()); }
        r := CutBlockForSub(n, owned + segm.exts);
        if r.Throws? { return; }
      }
    }

    /** Adds one extent of n free bits of one block to the segment, if a block has as many. */
    method AddBits(segm: Segment, n: nat, ghost owned: seq<Extent>) returns (ok: bool)
      requires Holds(owned + segm.exts) && !segm.inlinePresent && 0 < n <= 16
      requires NoneWhole(sub.frByNr) || OneWhole(sub.frByNr, n)
      modifies sub, segm`exts
      ensures Holds(owned + segm.exts) && ok == old(Fits(sub.frByNr, n))
      ensures ok ==> NoneWhole(sub.frByNr) && |segm.exts| == |old(segm.exts)| + 1
                        && segm.exts[..|old(segm.exts)|] == old(segm.exts)
                        && segm.exts[|old(segm.exts)|].Sub? && |segm.exts[|old(segm.exts)|].bits| == n
      ensures !ok ==> unchanged(sub) && unchanged(segm)
    {
      hide Balanced, OneWhole, NoneWhole;
      ghost var sp := Sp();
      var a := sub.Alloc(n);
      if a.value.NoFit? { return false; }
      var ext := a.value.ext;
      assert Fits(sp.subs, n);
      NoLongerWhole(sp.subs, n, ext.nr, ext.bits);
      assert owned + segm.exts + [] == owned + segm.exts;
      TakeBits(sp, owned + segm.exts, [], ext.nr, ext.bits);
      var added := segm.AddExtent(ext);
      assert owned + old(segm.exts) + [ext] + [] == owned + segm.exts;
      assert Sp() == sp.(subs := SubBlockFreeMaps.Without(sp.subs, ext.nr, ext.bits));
      ok := true;
    }

    /** Cuts one block into sub-blocks; grows the array until there is one. */
    method CutBlockForSub(n: nat, ghost owned: seq<Extent>) returns (r: Outcome<()>)
      requires Holds(owned) && NoneWhole(sub.frByNr) && !Fits(sub.frByNr, n) && n <= 16
      modifies this`inUseBlkCnt, this`inUseBlkForSuballocCnt, fr, sub, arr
      ensures Holds(owned) && old(arr.buf) <= arr.buf
      ensures inUseBlkCnt - inUseBlkForSuballocCnt == old(inUseBlkCnt - inUseBlkForSuballocCnt)
      ensures old(arr.pastEnd) <= arr.pastEnd <= old(arr.pastEnd + Lack(1)) && old(arr.realEnd) <= arr.realEnd
      ensures r.Throws? ==> !old(arr.CanReach(arr.pastEnd + Lack(1)))
      ensures arr.pastEnd == old(arr.pastEnd) ==> unchanged(arr)
      ensures r.Ok? ==> OneWhole(sub.frByNr, n) && Fits(sub.frByNr, n)
      ensures r.Throws? ==> r.error == BlockNumbersExhausted && NoneWhole(sub.frByNr) && !arr.CanGrow(1)
    {
      hide Holds, FailRank, Lack, Reaches, OneWhole, NoneWhole, Fits, FreeMaps.NoneUsable;
      ghost var goal := arr.pastEnd + Lack(1);
      while true
        invariant old(arr.pastEnd) <= arr.pastEnd && old(arr.realEnd) <= arr.realEnd && arr.pastEnd + Lack(1) <= goal
        invariant arr.pastEnd == old(arr.pastEnd) ==> unchanged(arr)
        invariant Holds(owned) && old(arr.buf) <= arr.buf && NoneWhole(sub.frByNr) && !Fits(sub.frByNr, n)
        invariant inUseBlkCnt - inUseBlkForSuballocCnt == old(inUseBlkCnt - inUseBlkForSuballocCnt)
        decreases FailRank(1)
      {
        var ok := ProvideMoreToSub(owned, n);
        if ok { return Ok(()); }
        r := ProvideMoreToFr(1, owned);
        if r.Throws? {
          NotReached(old(arr.pastEnd), old(arr.realEnd), arr.pastEnd + Lack(1), goal);
          return;
        }
      }
    }

    /**
     * The most blocks that n blocks make the array grow by: for a single extent what it needs, else what those need
     * that a pass over the free chunks has left.
     */
    ghost function BlksGrown(n: nat, req: Req): nat
      reads fr, arr`pastEnd
    {
      if req.singleExtent then Need(n)
      else
        var p := FreePass(n, 0, req.fragThreshold);
        Needed(p.byNr, arr.pastEnd, fr.coalescing, fr.splitAbove, p.left)
    }

    lemma {:induction false} BlksGrownBound(n: nat, req: Req)
      ensures BlksGrown(n, req) <= MostGrown(n, fr.splitAbove)
    {
      hide Needed, MostGrown;
      var p := FreePass(n, 0, req.fragThreshold);
      NeededBound(p.byNr, arr.pastEnd, fr.coalescing, fr.splitAbove, p.left, n);
      NeededBound(fr.byNr, arr.pastEnd, fr.coalescing, fr.splitAbove, n, n);
    }

    lemma {:induction false} NothingServed()
      ensures !ServedAtOnce(0)
    {
    }

    lemma {:induction false} NothingPassed(owned: seq<Extent>, threshold: nat)
      requires Holds(owned)
      ensures FreePass(0, 0, threshold) == Pass([], fr.byNr, fr.byCnt, 0, 0, MAX_BLK_CNT)
    {
    }

    lemma {:induction false} LargestTaken(exts: seq<Extent>, blks: nat, remain: nat)
      requires SoFar([], exts, blks, remain) && |exts| == 1 && remain == blks - Least(blks, blks) && 0 < remain
      ensures OneLargest(exts)
    {
      assert exts == [exts[0]] && exts[0] in exts;
      OneExtent(exts[0]);
    }

    /** The extents of a segment that is being allocated: first without growing the array, then by growing it. */
    method AllocateBlocks(segm: Segment, blks: nat, req: Req, ghost owned: seq<Extent>) returns (r: Outcome<()>)
      requires Holds(owned) && segm.exts == [] && !segm.inlinePresent && !req.Bad(arr.blkSz)
      modifies fr, arr, segm`exts
      ensures Holds(owned + segm.exts) && old(arr.buf) <= arr.buf
      ensures r.Ok? ==> FullBlks(segm.exts) == blks && SubBlks(segm.exts) == 0 && forall e :: e in segm.exts ==> e.Full?
      ensures r.Ok? && req.singleExtent && 0 < blks ==> |segm.exts| == 1
      ensures r == Throws(NotEnoughRoom) ==> req.singleExtent && blks > MAX_BLK_CNT
      ensures r.Throws? ==> r.error in {NotEnoughRoom, BlockNumbersExhausted}
      ensures r == Throws(BlockNumbersExhausted) ==> !arr.CanGrow(Least(blks, blks))
      ensures blks == 0 ==> r.Ok? && segm.exts == [] && unchanged(arr) && unchanged(fr)
      ensures old(arr.pastEnd) <= arr.pastEnd <= old(arr.pastEnd + BlksGrown(blks, req))
          && old(arr.realEnd) <= arr.realEnd && (arr.pastEnd == old(arr.pastEnd) ==> unchanged(arr))
      ensures r == Throws(BlockNumbersExhausted) ==> !old(arr.CanReach(arr.pastEnd + BlksGrown(blks, req)))
      ensures !req.singleExtent ==>
                var p := old(FreePass(blks, 0, req.fragThreshold));
                p.exts <= segm.exts && (p.left == 0 ==> r.Ok? && AsPassed(p, [], segm.exts, 0) && unchanged(arr))
      ensures old(ServedAtOnce(blks)) && 0 < req.fragThreshold ==> r.Ok? && |segm.exts| == 1 && unchanged(arr)
      ensures req.singleExtent && blks > MAX_BLK_CNT ==> r.Throws?
      ensures FullBlks(segm.exts) <= blks && SubBlks(segm.exts) == 0
      ensures r == Throws(NotEnoughRoom) ==> OneLargest(segm.exts)
      ensures req.singleExtent && old(Wide(blks)) && blks != MAX_BLK_CNT ==> r == Throws(NotEnoughRoom)
    {
      hide Holds, FailRank, Wide, Reaches, MostGrown, ServedAtOnce, Least, FreePass, Lack;
      NothingServed();
      NothingPassed(owned, req.fragThreshold);
      WideCanGrow(blks);
      LeastIs(blks, blks);
      assert owned + segm.exts == owned;
      var remain := blks;
      if remain != 0 && !req.singleExtent {
        r, remain := AllocateExtents(segm, remain, req.fragThreshold, false, false, owned);
      }
      if remain != 0 {
        ghost var left := remain;
        LeastLess(left, blks);
        r, remain := AllocateExtents(segm, remain, req.fragThreshold, !req.singleExtent, true, owned);
        if r.Throws? {
          CannotGrowMore(Least(left, left), Least(blks, blks));
          return;
        }
      }
      if remain != 0 {
        LargestTaken(segm.exts, blks, remain);
        return Throws(NotEnoughRoom);
      }
      r := Ok(());
    }

    /**
     * The most blocks that a plan makes the array grow by: none for its sub-blocks if a block has as many free bits, or
     * if all its blocks were free already and one more is.
     */
    ghost function PlanGrown(plan: Plan, req: Req): nat
      reads fr, sub, arr`pastEnd
    {
      var p := FreePass(plan.blks, 0, req.fragThreshold);
      var served :=
        || plan.subs == 0 || Fits(sub.frByNr, plan.subs)
        || (!req.singleExtent && p.left == 0 && !FreeMaps.NoneUsable(p.byNr, 1, fr.splitAbove));
      BlksGrown(plan.blks, req) + if served then 0 else fr.splitAbove + 2
    }

    lemma {:induction false} SubGrownBound(n: nat)
      ensures SubGrown(n) <= fr.splitAbove + 2
      ensures Fits(sub.frByNr, n) || !FreeMaps.NoneUsable(fr.byNr, 1, fr.splitAbove) ==> SubGrown(n) == 0
    {
      LackingBound(fr.byNr, arr.pastEnd, fr.coalescing, fr.splitAbove, 1);
    }

    /** Adds the extent of sub-blocks that the plan wants, if it wants any. */
    method AddSubs(segm: Segment, plan: Plan, ghost owned: seq<Extent>, ghost pastEnd0: nat, ghost realEnd0: nat,
        ghost goal: nat) returns (r: Outcome<()>)
      requires Holds(owned + segm.exts) && NoneWhole(sub.frByNr) && !segm.inlinePresent && plan.subs < 16
      requires FullBlks(segm.exts) == plan.blks && SubBlks(segm.exts) == 0 && forall e :: e in segm.exts ==> e.Full?
      requires pastEnd0 <= arr.pastEnd <= goal && realEnd0 <= arr.realEnd
      requires plan.subs != 0 ==> arr.pastEnd + SubGrown(plan.subs) <= goal
      modifies this`inUseBlkCnt, this`inUseBlkForSuballocCnt, fr, sub, arr, segm`exts
      ensures Holds(owned + segm.exts) && NoneWhole(sub.frByNr) && old(arr.buf) <= arr.buf
      ensures inUseBlkCnt - inUseBlkForSuballocCnt == old(inUseBlkCnt - inUseBlkForSuballocCnt)
      ensures old(arr.pastEnd) <= arr.pastEnd <= goal && old(arr.realEnd) <= arr.realEnd
          && (arr.pastEnd == old(arr.pastEnd) ==> unchanged(arr))
      ensures old(segm.exts) <= segm.exts && (plan.subs == 0 ==> r.Ok? && segm.exts == old(segm.exts))
      ensures r.Ok? ==>
                && Shaped(segm.exts, plan)
                && DataSizes(segm.exts, arr.blkSz)
                   == old(DataSizes(segm.exts, arr.blkSz)) + Times(plan.subs, SubSz(arr.blkSz))
      ensures r.Throws? ==>
                && r.error == BlockNumbersExhausted && segm.exts == old(segm.exts) && !arr.CanGrow(1)
                && !Reaches(pastEnd0, realEnd0, arr.overAllocate, arr.blkSz, goal)
    {
      hide Holds, NoneWhole, Fits, DataSizes, FullBlks, SubBlks, Reaches, SubGrown, Shaped;
      r := Ok(());
      OneUnit(0, SubSz(arr.blkSz));
      if plan.subs == 0 {
        ShapedWithout(segm.exts, plan);
        return;
      }
      ghost var exts0 := segm.exts;
      NotReached(pastEnd0, realEnd0, arr.pastEnd + SubGrown(plan.subs), goal);
      r := AllocateSubblkExtent(segm, plan.subs, owned);
      if r.Throws? { return; }
      WithSubBlks(exts0, segm.exts, arr.blkSz);
      ShapedWith(exts0, segm.exts, plan);
    }

    /** Gives the segment what the plan says: the extents of blocks, one extent of sub-blocks, and inline data. */
    method AllocatePlan(segm: Segment, plan: Plan, req: Req, ghost owned: seq<Extent>) returns (r: Outcome<()>)
      requires Holds(owned) && NoneWhole(sub.frByNr) && !req.Bad(arr.blkSz) && plan.subs < 16
      requires segm.Valid() && segm.blkSz == arr.blkSz && segm.exts == [] && segm.raw == [] && !segm.inlinePresent
      modifies this`inUseBlkCnt, this`inUseBlkForSuballocCnt, fr, sub, arr, segm`exts, segm`raw, segm`inlinePresent
      ensures Holds(owned + segm.exts) && NoneWhole(sub.frByNr) && old(arr.buf) <= arr.buf
      ensures inUseBlkCnt - inUseBlkForSuballocCnt == old(inUseBlkCnt - inUseBlkForSuballocCnt)
      ensures old(arr.pastEnd) <= arr.pastEnd <= old(arr.pastEnd + PlanGrown(plan, req))
          && old(arr.realEnd) <= arr.realEnd && (arr.pastEnd == old(arr.pastEnd) ==> unchanged(arr))
      ensures r == Throws(BlockNumbersExhausted) ==> !old(arr.CanReach(arr.pastEnd + PlanGrown(plan, req)))
      ensures !req.singleExtent ==> old(FreePass(plan.blks, 0, req.fragThreshold)).exts <= segm.exts
      ensures segm.Valid() && |segm.raw| <= plan.inlineSz && (r.Ok? ==> Shaped(segm.exts, plan))
      ensures r.Ok? ==> segm.DataSpaceSize() == plan.Size(arr.blkSz) && |segm.raw| == plan.inlineSz <= MAX_INLINE_SIZE
      ensures r.Ok? ==>
                (segm.inlinePresent <==> segm.raw != []) && (plan.subs == 0 ==> forall e :: e in segm.exts ==> e.Full?)
      ensures r.Ok? && req.singleExtent && 0 < plan.blks && plan.subs == 0 ==> |segm.exts| == 1 && segm.exts[0].Full?
      ensures r == Throws(NotEnoughRoom) ==> req.singleExtent && plan.blks > MAX_BLK_CNT
      ensures r == Throws(BadRequest) ==> MAX_INLINE_SIZE < plan.inlineSz
      ensures r == Throws(BlockNumbersExhausted) ==>
                !arr.CanGrow(if plan.blks == 0 then 1 else Least(plan.blks, plan.blks))
      ensures r.Throws? ==> r.error in {BadRequest, NotEnoughRoom, BlockNumbersExhausted}
      ensures req.singleExtent && plan.blks > MAX_BLK_CNT ==> r.Throws?
      ensures r == Throws(NotEnoughRoom) ==> OneLargest(segm.exts)
      ensures r == Throws(BadRequest) ==> DataSizes(segm.exts, arr.blkSz) + plan.inlineSz == plan.Size(arr.blkSz)
      ensures r.Throws? ==> DataSizes(segm.exts, arr.blkSz) <= plan.Size(arr.blkSz)
      ensures req.singleExtent && old(Wide(plan.blks)) && plan.blks != MAX_BLK_CNT ==> r == Throws(NotEnoughRoom)
    {
      hide Holds, NoneWhole, Fits, DataSizes, FullBlks, SubBlks, Wide, OneLargest, Reaches, BlksGrown, SubGrown,
          ServedAtOnce, FreePass, Shaped;
      ghost var goal := arr.pastEnd + PlanGrown(plan, req);
      arr.CanReachLess(arr.pastEnd + BlksGrown(plan.blks, req), goal);
      r := AllocateBlocks(segm, plan.blks, req, owned);
      DataSizesBlks(segm.exts, arr.blkSz);
      LessEqual(FullBlks(segm.exts), plan.blks, arr.blkSz);
      OneUnit(0, SubSz(arr.blkSz));
      if r.Throws? { return; }
      SubGrownBound(plan.subs);
      r := AddSubs(segm, plan, owned, old(arr.pastEnd), old(arr.realEnd), goal);
      if r.Throws? {
        CannotGrowMore(1, if plan.blks == 0 then 1 else Least(plan.blks, plan.blks));
        return;
      }
      if plan.inlineSz != 0 {
        segm.ReserveInlineData(plan.inlineSz);
      }
      if |segm.raw| > MAX_INLINE_SIZE { return Throws(BadRequest); }
    }

    /** The array refuses to grow by blocks that sz bytes may need. */
    ghost predicate NoRoom(sz: nat)
      reads arr
    {
      exists n: nat :: 0 < n <= MAX_BLK_CNT && Times(n - 1, arr.blkSz) <= sz && !arr.CanGrow(n)
    }

    /** How a request for sz bytes that has failed finds the array. */
    ghost predicate Refuses(sz: nat, req: Req)
      reads arr
    {
      || req.Bad(arr.blkSz) || MAX_INLINE_SIZE < req.maxInlineSz
      || (req.singleExtent && Times(MAX_BLK_CNT, arr.blkSz) < sz) || NoRoom(sz)
    }

    /** A larger request fails as well. */
    lemma {:induction false} RefusesMore(sz: nat, more: nat, req: Req)
      requires sz <= more && Refuses(sz, req)
      ensures Refuses(more, req)
    {
    }

    lemma {:induction false} PlanRefused(sz: nat, req: Req, plan: Plan)
      requires GoodBlkSz(arr.blkSz) && plan.Serves(sz, req, arr.blkSz)
      requires !arr.CanGrow(if plan.blks == 0 then 1 else Least(plan.blks, plan.blks))
      ensures NoRoom(sz)
    {
      var n := if plan.blks == 0 then 1 else Least(plan.blks, plan.blks);
      if plan.blks != 0 {
        LessEqual(n - 1, plan.blks - 1, arr.blkSz);
      }
      assert Times(n - 1, arr.blkSz) <= sz;
    }

    /** A single extent is asked for that cannot count its blocks, and the array has room for the largest one. */
    ghost predicate TooWide(sz: nat, req: Req)
      reads arr
    {
      req.singleExtent && Times(MAX_BLK_CNT, arr.blkSz) < sz && arr.CanGrow(MAX_BLK_CNT)
    }

    /**
     * The extents that a failed request had taken: less than it was to get; the largest extent there is if one extent
     * was not enough; all of them if only the inline bytes were too many.
     */
    ghost predicate Abandoned(exts: seq<Extent>, error: Error, sz: nat, req: Req) {
      && DataSizes(exts, arr.blkSz) <= AllocSize(sz, req, arr.blkSz)
      && (error == NotEnoughRoom ==> OneLargest(exts))
      && (error == BadRequest && !req.Bad(arr.blkSz) ==>
            var inlineSz := InlinePart(sz, req, arr.blkSz);
            MAX_INLINE_SIZE < inlineSz && DataSizes(exts, arr.blkSz) + inlineSz == AllocSize(sz, req, arr.blkSz))
    }

    /** The most blocks that a request for sz bytes makes the array grow by. */
    ghost function MayGrow(sz: nat, req: Req): nat
      requires 0 < arr.blkSz
      reads fr, sub, arr`pastEnd
    {
      PlanGrown(PlanOf(sz, req, arr.blkSz), req)
    }

    /** The extents that a pass over the free chunks takes for a request of sz bytes. */
    ghost function ReusedFor(sz: nat, req: Req): seq<Extent>
      requires 0 < arr.blkSz
      reads fr
    {
      FreePass(PlanOf(sz, req, arr.blkSz).blks, 0, req.fragThreshold).exts
    }

    /** Whether a request for sz bytes can be met by any array: inline bytes and one extent can be counted. */
    ghost predicate WellAsked(sz: nat, req: Req) {
      && !req.Bad(arr.blkSz) && InlinePart(sz, req, arr.blkSz) <= MAX_INLINE_SIZE
      && (req.singleExtent ==> sz <= Times(MAX_BLK_CNT, arr.blkSz))
    }

    /** Whether a request for sz bytes will succeed: the array has room for all that it may grow by. */
    ghost predicate Granted(sz: nat, req: Req)
      requires 0 < arr.blkSz
      reads fr, sub, arr`pastEnd, arr`realEnd
    {
      WellAsked(sz, req) && arr.CanReach(arr.pastEnd + MayGrow(sz, req))
    }

    /** Whether a request for sz bytes, if there is one, succeeds whatever is free. */
    ghost predicate Affords(sz: nat, req: Req)
      requires 0 < arr.blkSz
      reads arr`pastEnd, arr`realEnd
    {
      sz == 0 || (WellAsked(sz, req) && arr.CanReach(arr.pastEnd + WorstGrown(sz, req, arr.blkSz, fr.splitAbove)))
    }

    lemma {:induction false} AffordsGrants(sz: nat, req: Req)
      requires 0 < arr.blkSz
      ensures MayGrow(sz, req) <= WorstGrown(sz, req, arr.blkSz, fr.splitAbove)
      ensures 0 < sz && Affords(sz, req) ==> Granted(sz, req)
    {
      hide MostGrown, BlksGrown, FreePass, PlanOf, Reaches;
      BlksGrownBound(PlanOf(sz, req, arr.blkSz).blks, req);
      arr.CanReachLess(arr.pastEnd + MayGrow(sz, req), arr.pastEnd + WorstGrown(sz, req, arr.blkSz, fr.splitAbove));
    }

    /**
     * If any chunk may be split and the threshold allows two for each, a request does not grow the array while the free
     * blocks are enough for its blocks, and for one more that it may have to cut.
     */
    lemma {:induction false} FreeSpaceFirst(sz: nat, req: Req)
      requires Valid() && fr.splitAbove == 0 && !req.singleExtent && 2 * |fr.byNr| <= req.fragThreshold
      ensures 0 < arr.blkSz
      ensures var plan := PlanOf(sz, req, arr.blkSz);
              var cut := if plan.subs == 0 || Fits(sub.frByNr, plan.subs) then 0 else 1;
              plan.blks + cut <= FreeMaps.Total(fr.byNr) ==> MayGrow(sz, req) == 0
    {
      hide Balanced, Fits, PlanOf, Reused, FreeMaps.Total, FreeMaps.Coherent, NoneWhole, Tally;
      var n := PlanOf(sz, req, arr.blkSz).blks;
      AllReused(fr.byNr, fr.byCnt, n, req.fragThreshold);
      PassCounts(fr.byNr, fr.byCnt, n, 0, req.fragThreshold, 0, MAX_BLK_CNT);
      SomeUsable(FreePass(n, 0, req.fragThreshold).byNr);
    }

    /** Blocks that one free chunk has do not make the array grow. */
    lemma {:induction false} RoomyBlks(e: Extent, n: nat, req: Req)
      requires Valid() && fr.splitAbove == 0 && 0 < req.fragThreshold && Roomy(fr.byNr, e) && n <= e.cnt
      ensures BlksGrown(n, req) == 0
      ensures var p := FreePass(n, 0, req.fragThreshold);
              p.left == 0 && (n < e.cnt ==> !FreeMaps.NoneUsable(p.byNr, 1, fr.splitAbove))
    {
      hide Balanced, Reused, FreeMaps.Total, FreeMaps.Coherent, NoneWhole, Tally, Roomy, MostGrown, FreeMaps.NoneUsable;
      RoomyPass(fr.byNr, fr.byCnt, e, n, req.fragThreshold);
      SomeUsable(FreePass(n, 0, req.fragThreshold).byNr);
      MoreGrown(0, 0, 0);
      LeastIs(n, n);
    }

    /** A request for fewer bytes than free blocks of one chunk have does not grow the array. */
    lemma {:induction false} RoomyRequest(e: Extent, sz: nat, req: Req)
      requires Valid() && fr.splitAbove == 0 && 0 < req.fragThreshold && !req.Bad(arr.blkSz)
      requires e.Full? && Roomy(fr.byNr, e) && sz < Times(e.cnt, arr.blkSz)
      ensures MayGrow(sz, req) == 0
    {
      hide Holds, Fits, PlanOf, FreePass, BlksGrown, NoneWhole, Tally, Roomy, Times, FreeMaps.NoneUsable;
      GoodSize();
      PlanFits(sz, e.cnt, req, arr.blkSz);
      RoomyBlks(e, PlanOf(sz, req, arr.blkSz).blks, req);
    }

    /** So the rest of an extent of blocks that was freed finds room. */
    lemma {:induction false} PartFits(e: Extent, sz: nat, req: Req)
      requires Valid() && (e.Full? ==> Roomy(fr.byNr, e)) && sz < DataSize(e, arr.blkSz)
      ensures fr.splitAbove == 0 && 0 < req.fragThreshold && e.Full? ==>
                && (!req.Bad(arr.blkSz) ==> MayGrow(sz, req) == 0)
                && (WellAsked(sz, req) ==> Granted(sz, req))
    {
      hide MayGrow, Roomy, Holds, Tally, NoneWhole, InlinePart;
      GoodSize();
      if fr.splitAbove == 0 && 0 < req.fragThreshold && e.Full? && !req.Bad(arr.blkSz) {
        RoomyRequest(e, sz, req);
        StaysReached();
      }
    }

    lemma {:induction false} StaysReached()
      requires Valid()
      ensures arr.CanReach(arr.pastEnd)
    {
    }

    /** Gives an empty segment sz bytes or slightly more. */
    method AllocateFor(segm: Segment, sz: nat, req: Req, ghost owned: seq<Extent>) returns (r: Outcome<()>)
      requires Holds(owned) && NoneWhole(sub.frByNr) && !req.Bad(arr.blkSz)
      requires GoodBlkSz(arr.blkSz) && segm.Valid() && segm.blkSz == arr.blkSz && segm.exts == [] && segm.raw == []
          && !segm.inlinePresent
      modifies this`inUseBlkCnt, this`inUseBlkForSuballocCnt, fr, sub, arr, segm`exts, segm`raw, segm`inlinePresent
      ensures Holds(owned + segm.exts) && NoneWhole(sub.frByNr) && old(arr.buf) <= arr.buf
      ensures inUseBlkCnt - inUseBlkForSuballocCnt == old(inUseBlkCnt - inUseBlkForSuballocCnt)
      ensures old(arr.pastEnd) <= arr.pastEnd <= old(arr.pastEnd + MayGrow(sz, req)) && old(arr.realEnd) <= arr.realEnd
      ensures arr.pastEnd == old(arr.pastEnd) ==> unchanged(arr)
      ensures !req.singleExtent ==> old(ReusedFor(sz, req)) <= segm.exts
      ensures old(Granted(sz, req)) ==> r.Ok?
      ensures segm.Valid() && |segm.raw| <= req.maxInlineSz
      ensures r.Ok? ==> Shaped(segm.exts, PlanOf(sz, req, arr.blkSz))
      ensures r.Ok? ==>
                && segm.DataSpaceSize() == AllocSize(sz, req, arr.blkSz) < sz + req.Granule(arr.blkSz)
                && |segm.raw| == InlinePart(sz, req, arr.blkSz) <= MAX_INLINE_SIZE
                && (segm.inlinePresent <==> segm.raw != [])
                && (!req.allowSuballoc ==> forall e :: e in segm.exts ==> e.Full?)
      ensures r.Ok? && req.singleExtent && 0 < sz ==> |segm.exts| == 1 && segm.exts[0].Full? && segm.raw == []
      ensures r.Throws? ==> r.error in {BadRequest, NotEnoughRoom, BlockNumbersExhausted}
      ensures r == Throws(BadRequest) ==> MAX_INLINE_SIZE < req.maxInlineSz
      ensures r == Throws(BlockNumbersExhausted) ==> NoRoom(sz)
      ensures r == Throws(NotEnoughRoom) ==> req.singleExtent && Times(MAX_BLK_CNT, arr.blkSz) < sz
      ensures req.singleExtent && Times(MAX_BLK_CNT, arr.blkSz) < sz ==> r.Throws?
      ensures r.Throws? ==> Abandoned(segm.exts, r.error, sz, req)
      ensures old(TooWide(sz, req)) ==> r == Throws(NotEnoughRoom)
    {
      hide Holds, NoneWhole, DataSizes, Plan.Size, NoRoom, OneLargest, Reaches, PlanGrown, PlanOf, FreePass, Shaped;
      var plan := PlanSizes(sz, req, arr.blkSz);
      if req.singleExtent { BlksForOne(sz, plan, req, arr.blkSz); }
      r := AllocatePlan(segm, plan, req, owned);
      if r == Throws(BlockNumbersExhausted) { PlanRefused(sz, req, plan); }
    }

    lemma {:induction false} NothingAbandoned(sz: nat, req: Req)
      ensures req.Bad(arr.blkSz) ==> Abandoned([], BadRequest, sz, req)
    {
    }

    /** A segment of sz bytes or slightly more; whatever a failed request had taken is lost. */
    method Alloc(sz: nat, req: Req) returns (r: Outcome<Segment>)
      requires Valid()
      modifies this, fr, sub, arr
      ensures Valid() && old(arr.buf) <= arr.buf && AllKept(old(live), arr.blkSz, old(arr.buf), arr.buf)
          && splits == old(splits)
      ensures r.Ok? ==>
                && fresh(r.value) && r.value.Valid() && r.value.blkSz == arr.blkSz && !r.value.endMarker
                && live == old(live) + [r.value.View()] && lost == old(lost)
                && r.value.DataSpaceSize() == AllocSize(sz, req, arr.blkSz) < sz + req.Granule(arr.blkSz)
                && |r.value.raw| == InlinePart(sz, req, arr.blkSz) && (r.value.inlinePresent <==> r.value.raw != [])
                && (!req.allowSuballoc ==> forall e :: e in r.value.exts ==> e.Full?)
      ensures r.Ok? ==> Shaped(r.value.exts, PlanOf(sz, req, arr.blkSz))
      ensures r.Ok? && req.singleExtent && 0 < sz ==> |r.value.exts| == 1 && r.value.exts[0].Full? && r.value.raw == []
      ensures r.Throws? ==>
                live == old(live) && r.error in {BadRequest, NotEnoughRoom, BlockNumbersExhausted} && Refuses(sz, req)
      ensures r == Throws(BlockNumbersExhausted) ==> NoRoom(sz)
      ensures old(arr.pastEnd) <= arr.pastEnd && old(arr.realEnd) <= arr.realEnd
      ensures arr.pastEnd <= old(arr.pastEnd + MayGrow(sz, req)) && (arr.pastEnd == old(arr.pastEnd) ==> unchanged(arr))
      ensures r.Ok? && !req.singleExtent ==> old(ReusedFor(sz, req)) <= r.value.exts
      ensures (old(Granted(sz, req)) ==> r.Ok?) && (r.Ok? ==> WellAsked(sz, req))
      ensures req.Bad(arr.blkSz) ==> r == Throws(BadRequest) && lost == old(lost) && unchanged(arr)
      ensures r.Throws? ==> old(lost) <= lost && Abandoned(lost[|old(lost)|..], r.error, sz, req)
      ensures old(TooWide(sz, req)) && !req.Bad(arr.blkSz) ==> r == Throws(NotEnoughRoom)
      ensures r == Throws(BadRequest) ==> req.Bad(arr.blkSz) || MAX_INLINE_SIZE < req.maxInlineSz
      ensures r == Throws(NotEnoughRoom) ==> req.singleExtent && Times(MAX_BLK_CNT, arr.blkSz) < sz
      ensures req.singleExtent && Times(MAX_BLK_CNT, arr.blkSz) < sz ==> r.Throws?
    {
      hide Holds, NoneWhole, Tally, Exts, DataSizes, FullBlks, SubBlks, SegPos, AllKept, AllWithin, NoRoom, Abandoned,
          MayGrow, Reaches, TooWide, Req.Exact, Req.Granule, ReusedFor, InlinePart, Shaped, PlanOf;
      NothingAbandoned(sz, req);
      LivePositions();
      PrefixKeepsAll(live, arr.blkSz, arr.buf, arr.buf);
      if req.Bad(arr.blkSz) {
        assert lost[|lost|..] == [];
        return Throws(BadRequest);
      }
      var segm := new Segment(arr.blkSz);
      var done := AllocateFor(segm, sz, req, Owned());
      PrefixKeepsAll(live, arr.blkSz, old(arr.buf), arr.buf);
      if done.Throws? {
        Lose(segm.exts);
        assert lost[|old(lost)|..] == segm.exts;
        return Throws(done.error);
      }
      RecordAlloc(segm);
      r := Ok(segm);
    }

    /** The array has the bytes of everything in the ledger. */
    lemma {:induction false} LivePositions()
      requires Valid()
      ensures arr.Valid() && GoodBlkSz(arr.blkSz) && AllWithin(live, arr.blkSz, |arr.buf|)
    {
      forall i | 0 <= i < |live|
        ensures Layout.Within(SegPos(live[i].exts, arr.blkSz), |arr.buf|)
      {
        LiveWithin(Sp(), live, lost, i, arr.blkSz);
        LessEqual(arr.pastEnd, arr.realEnd, arr.blkSz);
      }
    }

    lemma {:induction false} GoodSize()
      requires Valid()
      ensures GoodBlkSz(arr.blkSz)
    {
    }

    /** One extent of blocks that has sz bytes. */
    method AllocSingleExtent(sz: nat) returns (r: Outcome<Extent>)
      requires Valid()
      modifies this, fr, sub, arr
      ensures Valid() && old(arr.buf) <= arr.buf && AllKept(old(live), arr.blkSz, old(arr.buf), arr.buf)
          && splits == old(splits)
      ensures r.Ok? ==> r.value.Full? && live == old(live) + [Holding([r.value], 0)] && lost == old(lost)
      ensures r.Ok? ==> sz <= DataSize(r.value, arr.blkSz) < sz + arr.blkSz
      ensures sz == 0 || Times(MAX_BLK_CNT, arr.blkSz) < sz ==> r.Throws?
      ensures r.Throws? ==> live == old(live) && old(lost) <= lost && (r.error == BadRequest ==> sz == 0)
      ensures sz == 0 ==> lost == old(lost)
      ensures r == Throws(NotEnoughRoom) ==> Times(MAX_BLK_CNT, arr.blkSz) < sz && OneLargest(lost[|old(lost)|..])
      ensures Times(MAX_BLK_CNT, arr.blkSz) < sz && old(arr.CanGrow(MAX_BLK_CNT)) ==> r == Throws(NotEnoughRoom)
      ensures arr.pastEnd <= old(arr.pastEnd + if sz == 0 then 0 else MayGrow(sz, SINGLE_EXTENT))
      ensures 0 < sz && old(Granted(sz, SINGLE_EXTENT)) ==> r.Ok?
      ensures r.Throws? ==> sz == 0 || Times(MAX_BLK_CNT, arr.blkSz) < sz || NoRoom(sz)
    {
      hide Valid, AllKept, MayGrow, Reaches;
      GoodSize();
      if sz == 0 {
        NothingHappens();
        return Throws(BadRequest);
      }
      var segm := Alloc(sz, SINGLE_EXTENT);
      if segm.Throws? { return Throws(segm.error); }
      r := Ok(segm.value.exts[0]);
      assert segm.value.exts == [r.value];
      assert DataSizes([r.value], arr.blkSz) == DataSize(r.value, arr.blkSz);
    }

    lemma {:induction false} NothingHappens()
      requires Valid()
      ensures AllKept(live, arr.blkSz, arr.buf, arr.buf)
    {
      LivePositions();
      PrefixKeepsAll(live, arr.blkSz, arr.buf, arr.buf);
    }

    /**
     * Takes back an extent in use, or the second part of one whose first part stays in use; whole is the extent in the
     * ledger, of which front stays. For the counter a whole extent goes either way.
     */
    method DeallocSingleExtent(ext: Extent, ghost ix: nat, ghost whole: Extent, ghost n: nat, ghost front: Extent)
      returns (r: Outcome<()>)
      requires Valid()
      requires !ext.Empty() ==> ix < |live| && live[ix] == Holding([whole], 0) && IsSplit(whole, n, front, ext)
      modifies this, arr`buf, fr, sub
      ensures Valid() && lost == old(lost) && arr.buf == old(arr.buf)
      ensures r.Throws? <==> ext.Empty()
      ensures ext.Empty() ==> live == old(live) && splits == old(splits)
      ensures !ext.Empty() && front.Empty() ==> live == old(live[..ix] + live[ix + 1..]) && splits == old(splits)
      ensures !ext.Empty() && !front.Empty() ==>
                live == old(live)[ix := Holding([front], 0)] && splits == old(splits) + 1
      ensures !ext.Empty() ==> inUseExtCnt == old(inUseExtCnt) - 1
    {
      hide Holds, NoneWhole, Tally, Exts, IsSplit;
      if ext.Empty() { return Throws(BadRequest); }
      var segm := new Segment(arr.blkSz);
      var a := segm.AddExtent(ext);
      assert segm.exts == [ext];
      ghost var base, at := live, ix;
      if front.Empty() {
        WholeSplit(whole, n, front, ext);
      } else {
        SplitLive(ix, whole, n, front, ext);
        at := |base|;
      }
      Dealloc(segm, false, at);
      assert !front.Empty() ==> live == base[ix := Holding([front], 0)];
      r := Ok(());
    }

    /** The second part of a holding of one extent becomes a holding of its own. */
    ghost method SplitLive(ix: nat, whole: Extent, n: nat, front: Extent, back: Extent)
      requires Valid() && ix < |live| && live[ix] == Holding([whole], 0) && IsSplit(whole, n, front, back)
      requires !front.Empty() && !back.Empty()
      modifies this`live, this`splits
      ensures Valid() && live == old(live)[ix := Holding([front], 0)] + [Holding([back], 0)]
      ensures splits == old(splits) + 1
    {
      hide Holds, NoneWhole, Tally, Exts, IsSplit;
      var base := live;
      assert [whole] + [] == [] + [whole] == [whole] && [] + [front] == [front] && [] + [back] == [back];
      PartLive(ix, Holding([whole], 0), Holding([], 0));
      PassOnPartLive(base, ix, [], whole, n, front, back, []);
    }

    // -- what Valid means --

    /** Every sub-block of the array has exactly one owner, and none outside has any. */
    lemma {:induction false} OneOwnerEach(blk: nat, bit: nat)
      requires Valid() && bit < 16
      ensures FreeMaps.Cover(fr.byNr, blk) + SubBlockFreeMaps.Cover(sub.frByNr, blk, bit)
                + Covers(Exts(live), blk, bit) + Covers(lost, blk, bit)
           == if arr.begin <= blk < arr.pastEnd then 1 else 0
    {
      OneOwner(Sp(), Owned(), blk, bit);
      CoversAppend(Exts(live), lost, blk, bit);
    }

    /** No two segments in use share a byte. */
    lemma {:induction false} LiveShareNothing(i: nat, j: nat)
      requires Valid() && i < |live| && j < |live| && i != j
      ensures Apart(SegPos(live[i].exts, arr.blkSz), SegPos(live[j].exts, arr.blkSz))
    {
      LiveApart(Sp(), live, lost, i, j, arr.blkSz);
    }

    /**
     * What the statistics call fragmentation is exactly the space that is free, save what failed requests have lost.
     */
    lemma {:induction false} ExactStats()
      requires Valid()
      ensures arr.BlkCnt() - inUseBlkCnt == FreeMaps.Total(fr.byNr) + FullBlks(lost)
      ensures 16 * inUseBlkForSuballocCnt - inUseSubblkCnt == SubBlockFreeMaps.FreeCnt(sub.frByNr) + SubBlks(lost)
      ensures inUseByUserSz == DataSizes(Exts(live), arr.blkSz) + Inlined(live) && inUseExtCnt + splits == |Exts(live)|
      ensures inUseSubblkCnt == SubBlks(Exts(live)) && inUseInlinedSz == Inlined(live)
    {
      BlksAppend(Exts(live), lost);
    }

    ghost method Lose(exts: seq<Extent>)
      requires Holds(Owned() + exts) && NoneWhole(sub.frByNr) && InUse() == Tally(live, arr.blkSz)
      requires forall h :: h in live ==> h.inlineSz <= MAX_INLINE_SIZE
      modifies this`lost
      ensures Valid() && lost == old(lost) + exts
    {
      lost := lost + exts;
      assert Exts(live) + lost == old(Owned()) + exts;
    }

    /** Counts a new segment and enters it into the ledger. */
    method RecordAlloc(segm: Segment)
      requires Holds(Owned() + segm.exts) && NoneWhole(sub.frByNr) && InUse() == Tally(live, arr.blkSz)
      requires forall h :: h in live ==> h.inlineSz <= MAX_INLINE_SIZE
      requires segm.blkSz == arr.blkSz && |segm.raw| <= MAX_INLINE_SIZE
      modifies this`inUseByUserSz, this`inUseBlkCnt, this`inUseSubblkCnt, this`inUseExtCnt, this`inUseInlinedSz,
          this`live
      ensures Valid() && live == old(live) + [segm.View()]
    {
      hide Balanced, NoneWhole, Exts, DataSizes, FullBlks, SubBlks, Tally;
      ghost var h := segm.View();
      Entered(Sp(), live, lost, h, arr.blkSz);
      inUseByUserSz := inUseByUserSz + segm.DataSpaceSize();
      inUseExtCnt := inUseExtCnt + |segm.exts|;
      inUseInlinedSz := inUseInlinedSz + |segm.raw|;
      inUseBlkCnt := inUseBlkCnt + FullBlks(segm.exts);
      inUseSubblkCnt := inUseSubblkCnt + SubBlks(segm.exts);
      live := live + [h];
    }

    // -- taking space back --

    /** The segment of a holding can be read and written as one string of bytes. */
    lemma {:induction false} LiveMounted(segm: Segment, ix: nat)
      requires Valid() && ix < |live| && live[ix] == segm.View() && segm.Valid() && segm.blkSz == arr.blkSz
      ensures Mounted(arr, segm)
    {
      Listed(live, lost, ix, arr.blkSz);
      OwnedOnce(Sp(), Exts(live[..ix]), segm.exts, Exts(live[ix + 1..]) + lost, arr.blkSz);
      forall e | e in segm.exts
        ensures arr.WithinBoundaries(e)
      {
        assert e in Owned();
        OwnedWithin(Sp(), Owned(), e);
      }
      assert live[ix] in live;
    }

    method FreeOne(e: Extent, ghost a: seq<Extent>, ghost b: seq<Extent>)
      requires Holds(a + [e] + b)
      modifies fr, sub
      ensures Holds(a + b) && StillRoomy(old(fr.byNr), fr.byNr) && (e.Full? ==> Roomy(fr.byNr, e))
    {
      hide Balanced, FreeMaps.Freed, FreeMaps.Clear, FreeMaps.InOrder, Roomy, StillRoomy;
      RoomyThen(fr.byNr, fr.byNr, fr.byNr, []);
      ghost var sp := Sp();
      if e.Sub? {
        FreeBits(sp, a, e, b);
        var r := sub.Dealloc(e);
        assert Sp() == sp.(subs := SubBlockFreeMaps.With(sp.subs, e.nr, e.bits));
      } else {
        FreeBlocks(sp, a, e, b, fr.coalescing);
        FreedRoomy(fr.byNr, ChunkOf(e), fr.coalescing);
        var r := fr.Dealloc(e);
        assert Sp() == sp.(free := FreeMaps.Freed(sp.free, ChunkOf(e), fr.coalescing));
      }
    }

    /** Frees extents in use and counts their blocks and sub-blocks. */
    method FreeExtents(exts: seq<Extent>, ghost a: seq<Extent>, ghost b: seq<Extent>) returns (blkCnt: nat,
        subblkCnt: nat)
      requires Holds(a + exts + b)
      modifies fr, sub
      ensures Holds(a + b) && blkCnt == FullBlks(exts) && subblkCnt == SubBlks(exts) && AllRoomy(fr.byNr, exts)
    {
      hide Holds, FullBlks, SubBlks, Roomy, StillRoomy, AllRoomy;
      RoomyThen(fr.byNr, fr.byNr, fr.byNr, []);
      blkCnt, subblkCnt := 0, 0;
      assert exts[0..] == exts;
      NoExtents(exts);
      for i := 0 to |exts|
        invariant Holds(a + exts[i..] + b) && blkCnt == FullBlks(exts[..i]) && subblkCnt == SubBlks(exts[..i])
        invariant AllRoomy(fr.byNr, exts[..i])
      {
        ghost var byNr := fr.byNr;
        var e := exts[i];
        assert a + exts[i..] + b == a + [e] + (exts[i + 1..] + b);
        FreeOne(e, a, exts[i + 1..] + b);
        assert a + (exts[i + 1..] + b) == a + exts[i + 1..] + b;
        NextExtent(exts, i);
        RoomyThen(byNr, fr.byNr, fr.byNr, exts[..i]);
        RoomyMore(fr.byNr, exts[..i], e);
        assert exts[..i + 1] == exts[..i] + [e];
        if e.Sub? {
          subblkCnt := subblkCnt + |e.bits|;
        } else {
          blkCnt := blkCnt + e.cnt;
        }
      }
      assert a + exts[|exts|..] + b == a + b && exts[..|exts|] == exts;
    }

    /** Blocks that are wholly free again go back from the map of sub-blocks to the map of blocks. */
    method ReclaimFromSub(ghost owned: seq<Extent>)
      requires Holds(owned)
      modifies this`inUseBlkCnt, this`inUseBlkForSuballocCnt, fr, sub
      ensures Holds(owned) && NoneWhole(sub.frByNr) && StillRoomy(old(fr.byNr), fr.byNr)
      ensures inUseBlkCnt - inUseBlkForSuballocCnt == old(inUseBlkCnt - inUseBlkForSuballocCnt)
    {
      hide Balanced, SubBlockFreeMaps.Numbers, DistinctNumbers, WholeBlks, NoneWhole, SubBlockFreeMaps.Binned,
          StillRoomy;
      var reclaimed, gone := GiveBackWhole(owned);
      AllReclaimed(reclaimed, gone, sub.frByNr);
      var r, done := sub.Release(reclaimed);
      inUseBlkForSuballocCnt := inUseBlkForSuballocCnt - |reclaimed|;
      inUseBlkCnt := inUseBlkCnt - |reclaimed|;
    }

    /** Frees the wholly free blocks in the map of blocks; the map of sub-blocks still tracks them. */
    method GiveBackWhole(ghost owned: seq<Extent>) returns (reclaimed: seq<Extent>, ghost gone: set<nat>)
      requires Holds(owned)
      modifies fr
      ensures Reclaiming(owned, gone) && DistinctNumbers(reclaimed, gone) && gone == WholeBlks(sub.frByNr)
      ensures StillRoomy(old(fr.byNr), fr.byNr)
    {
      hide Holds, Reclaiming, DistinctNumbers, WholeBlks, TodoAndDone, StillRoomy;
      RoomyThen(fr.byNr, fr.byNr, fr.byNr, []);
      StartReclaiming(owned);
      NothingReclaimed(sub.frByNr);
      var todo := sub.bins[15].Keys;
      NothingMoved(todo);
      reclaimed, gone := [], {};
      while todo != {}
        invariant Reclaiming(owned, gone) && TodoAndDone(todo, gone, WholeBlks(sub.frByNr))
        invariant DistinctNumbers(reclaimed, gone) && StillRoomy(old(fr.byNr), fr.byNr)
      {
        ghost var byNr := fr.byNr;
        var nr := SubBlockFreeMaps.First(todo);
        MoveOver(todo, gone, WholeBlks(sub.frByNr), nr);
        ReclaimOne(nr, owned, gone);
        RoomyThen(old(fr.byNr), byNr, fr.byNr, []);
        OneMoreReclaimed(reclaimed, gone, nr);
        reclaimed := reclaimed + [Full(nr, 1)];
        gone := gone + {nr};
        todo := todo - {nr};
      }
    }

    lemma {:induction false} StartReclaiming(owned: seq<Extent>)
      requires Holds(owned)
      ensures Reclaiming(owned, {}) && |sub.bins| == 16 && sub.bins[15].Keys == WholeBlks(sub.frByNr)
    {
      LastBin(sub.bins, sub.frByNr);
      assert sub.frByNr - {} == sub.frByNr;
    }

    method ReclaimOne(nr: nat, ghost owned: seq<Extent>, ghost gone: set<nat>)
      requires Reclaiming(owned, gone) && nr in WholeBlks(sub.frByNr) && nr !in gone
      modifies fr
      ensures Reclaiming(owned, gone + {nr}) && StillRoomy(old(fr.byNr), fr.byNr)
    {
      hide Balanced, FreeMaps.Freed, FreeMaps.Clear, FreeMaps.InOrder, Roomy, StillRoomy;
      ghost var sp := SpWithout(gone);
      MendBlock(sp, owned, nr, fr.coalescing);
      FreedRoomy(fr.byNr, FreeMaps.Chunk(nr, 1), fr.coalescing);
      var r := fr.Dealloc(Full(nr, 1));
      assert sp.subs - {nr} == sub.frByNr - (gone + {nr});
      assert SpWithout(gone + {nr}) == Mended(sp, nr, fr.coalescing);
    }

    /** The space if the blocks `gone` were no longer tracked for suballocation. */
    ghost function SpWithout(gone: set<nat>): Space
      reads this`inUseBlkForSuballocCnt, fr, sub, arr
    {
      Space(fr.byNr, sub.frByNr - gone, if |gone| <= inUseBlkForSuballocCnt then inUseBlkForSuballocCnt - |gone| else 0,
            arr.begin, arr.pastEnd)
    }

    ghost predicate Reclaiming(owned: seq<Extent>, gone: set<nat>)
      reads this`inUseBlkForSuballocCnt, fr, sub, arr
    {
      && arr.Valid() && fr.Valid() && sub.Valid() && tail.arr == arr
      && |gone| <= inUseBlkForSuballocCnt && Balanced(SpWithout(gone), owned)
    }

    /** Takes a segment back, after zeroing its blocks if asked to; ix is its place in the ledger. */
    method Dealloc(segm: Segment, zeroIt: bool, ghost ix: nat)
      requires Valid() && ix < |live| && live[ix] == segm.View() && segm.Valid() && segm.blkSz == arr.blkSz
      modifies this, arr`buf, fr, sub
      ensures Valid() && live == old(live[..ix] + live[ix + 1..]) && lost == old(lost) && splits == old(splits)
      ensures inUseExtCnt == old(inUseExtCnt) - |segm.exts| && AllRoomy(fr.byNr, segm.exts)
      ensures Untouched(old(arr.buf), arr.buf, SegPos(segm.exts, arr.blkSz))
      ensures !zeroIt ==> arr.buf == old(arr.buf)
      ensures zeroIt ==> forall x :: x in SegPos(segm.exts, arr.blkSz) ==> x < |arr.buf| && arr.buf[x] == 0
      ensures AllKept(live, arr.blkSz, old(arr.buf), arr.buf)
    {
      hide Holds, NoneWhole, Tally, SumsOf, Exts, DataSizes, FullBlks, SubBlks, SegPos, AllKept, AllWithin, ApartFrom,
          Untouched, AllRoomy;
      ZeroIfAsked(segm, zeroIt, ix);
      FreeHolding(segm, ix);
    }

    /** The extents of a segment are given back, and it is no longer in use. */
    method FreeHolding(segm: Segment, ghost ix: nat)
      requires Valid() && ix < |live| && live[ix] == segm.View() && segm.Valid() && segm.blkSz == arr.blkSz
      modifies this, fr, sub
      ensures Valid() && live == old(live[..ix] + live[ix + 1..]) && lost == old(lost) && splits == old(splits)
      ensures inUseExtCnt == old(inUseExtCnt) - |segm.exts| && AllRoomy(fr.byNr, segm.exts)
    {
      hide Holds, NoneWhole, Tally, SumsOf, Exts, DataSizes, FullBlks, SubBlks, SegPos, AllRoomy, StillRoomy;
      Listed(live, lost, ix, arr.blkSz);
      ghost var a, b := Exts(live[..ix]), Exts(live[ix + 1..]) + lost;
      var sz := segm.DataSpaceSize();
      var blkCnt, subblkCnt := FreeExtents(segm.exts, a, b);
      inUseByUserSz := inUseByUserSz - sz;
      inUseBlkCnt := inUseBlkCnt - blkCnt;
      inUseSubblkCnt := inUseSubblkCnt - subblkCnt;
      inUseExtCnt := inUseExtCnt - |segm.exts|;
      inUseInlinedSz := inUseInlinedSz - |segm.raw|;
      SumsOfView(segm);
      live := live[..ix] + live[ix + 1..];
      ghost var byNr := fr.byNr;
      ReclaimFromSub(Owned());
      RoomyThen(byNr, fr.byNr, fr.byNr, segm.exts);
    }

    method ZeroIfAsked(segm: Segment, zeroIt: bool, ghost ix: nat)
      requires Valid() && ix < |live| && live[ix] == segm.View() && segm.Valid() && segm.blkSz == arr.blkSz
      modifies arr`buf
      ensures Valid() && Untouched(old(arr.buf), arr.buf, SegPos(segm.exts, arr.blkSz))
      ensures !zeroIt ==> arr.buf == old(arr.buf)
      ensures zeroIt ==> forall x :: x in SegPos(segm.exts, arr.blkSz) ==> x < |arr.buf| && arr.buf[x] == 0
      ensures AllKept(live[..ix] + live[ix + 1..], arr.blkSz, old(arr.buf), arr.buf)
    {
      hide Holds, NoneWhole, Tally, SumsOf, Exts, DataSizes, FullBlks, SubBlks, SegPos, AllKept, AllWithin, ApartFrom,
          Untouched;
      LiveApartFrom(ix);
      NothingTouched(arr.buf, SegPos(segm.exts, arr.blkSz));
      if zeroIt {
        ZeroBlocks(segm, ix);
      }
      UntouchedKeeps(live, ix, arr.blkSz, old(arr.buf), arr.buf);
    }

    /** No holding shares a byte with holding ix. */
    lemma {:induction false} LiveApartFrom(ix: nat)
      requires Valid() && ix < |live|
      ensures GoodBlkSz(arr.blkSz) && AllWithin(live, arr.blkSz, |arr.buf|) && ApartFrom(live, ix, arr.blkSz)
    {
      hide Balanced, Apart, SegPos, AllWithin;
      LivePositions();
      forall j | 0 <= j < |live| && j != ix
        ensures Apart(SegPos(live[ix].exts, arr.blkSz), SegPos(live[j].exts, arr.blkSz))
      {
        LiveApart(Sp(), live, lost, ix, j, arr.blkSz);
      }
    }

    method ZeroBlocks(segm: Segment, ghost ix: nat)
      requires Valid() && ix < |live| && live[ix] == segm.View() && segm.Valid() && segm.blkSz == arr.blkSz
      modifies arr`buf
      ensures Valid() && Untouched(old(arr.buf), arr.buf, SegPos(segm.exts, arr.blkSz))
      ensures forall x :: x in SegPos(segm.exts, arr.blkSz) ==> x < |arr.buf| && arr.buf[x] == 0
    {
      hide Balanced, NoneWhole, Tally, SumsOf, Exts, DataSizes, FullBlks, SubBlks, Mounted, SegPos;
      LiveMounted(segm, ix);
      var sg := new Segment.Copy(segm);
      CopyMounted(arr, segm, sg);
      FillC(arr, sg, 0, false);
      ArrayMounted(arr, sg);
    }

    /** Trailing runs of free blocks go back to the array. */
    method ReclaimFromFr(ghost owned: seq<Extent>)
      requires Holds(owned)
      modifies fr, arr
      ensures Holds(owned) && TailCnt(fr.byNr, arr.pastEnd) == 0 && arr.buf <= old(arr.buf)
    {
      hide Balanced, FreeMaps.LessThose, IsTail, TailCnt;
      ghost var s := fr.byNr;
      var it, reclaimed := ShrinkOverTail(owned);
      var r, done := fr.Release(reclaimed);
      TailReleased(s, it, reclaimed, fr.byNr, done);
    }

    /** The array gives up its trailing free chunks; the map still has them. */
    method ShrinkOverTail(ghost owned: seq<Extent>) returns (it: nat, reclaimed: seq<Extent>)
      requires Holds(owned)
      modifies arr
      ensures it <= |fr.byNr| && IsTail(fr.byNr, it, reclaimed) && arr.buf <= old(arr.buf)
      ensures HoldsUpto(it, owned) && TailCnt(fr.byNr[..it], arr.pastEnd) == 0
      ensures forall e :: e in reclaimed ==> e.Full?
    {
      hide Balanced, HoldsUpto, IsTail, TailCnt;
      it, reclaimed := |fr.byNr|, [];
      StartTail(owned);
      while 0 < it
        invariant it <= |fr.byNr| && IsTail(fr.byNr, it, reclaimed) && arr.buf <= old(arr.buf) && HoldsUpto(it, owned)
        invariant forall e :: e in reclaimed ==> e.Full?
      {
        var last := fr.byNr[it - 1];
        var ok := ShrinkOver(it, owned);
        if !ok { return; }
        OneMoreOfTail(fr.byNr, it, reclaimed);
        reclaimed := reclaimed + [Full(last.nr, last.cnt)];
        it := it - 1;
      }
      NoTail(arr.pastEnd);
    }

    lemma {:induction false} StartTail(owned: seq<Extent>)
      requires Holds(owned)
      ensures HoldsUpto(|fr.byNr|, owned) && IsTail(fr.byNr, |fr.byNr|, [])
    {
      assert fr.byNr[..|fr.byNr|] == fr.byNr;
    }

    lemma {:induction false} NoTail(pastEnd: nat)
      ensures TailCnt(fr.byNr[..0], pastEnd) == 0
    {
    }

    method ShrinkOver(it: nat, ghost owned: seq<Extent>) returns (ok: bool)
      requires 0 < it <= |fr.byNr| && HoldsUpto(it, owned)
      modifies arr
      ensures arr.buf <= old(arr.buf)
      ensures ok ==> HoldsUpto(it - 1, owned)
      ensures !ok ==> unchanged(arr) && TailCnt(fr.byNr[..it], arr.pastEnd) == 0
    {
      hide Balanced;
      ghost var sp := SpUpto(it);
      var last := fr.byNr[it - 1];
      LastChunkWithin(sp, owned);
      var r := tail.Dealloc(Full(last.nr, last.cnt));
      ok := r.value;
      if ok {
        ShrinkTail(sp, owned);
        assert fr.byNr[..it][..it - 1] == fr.byNr[..it - 1];
        assert SpUpto(it - 1) == Shrunk(sp);
      }
    }

    /** The space if only the first n free chunks were known. */
    ghost function SpUpto(n: nat): Space
      requires n <= |fr.byNr|
      reads this`inUseBlkForSuballocCnt, fr, sub, arr
    {
      Sp().(free := fr.byNr[..n])
    }

    ghost predicate HoldsUpto(n: nat, owned: seq<Extent>)
      requires n <= |fr.byNr|
      reads this`inUseBlkForSuballocCnt, fr, sub, arr
    {
      && arr.Valid() && fr.Valid() && sub.Valid() && tail.arr == arr
      && Balanced(SpUpto(n), owned)
    }

    /** Afterwards the array is empty or its last block is in use. */
    method Release()
      requires Valid()
      modifies this`inUseBlkCnt, this`inUseBlkForSuballocCnt, fr, sub, arr
      ensures Valid() && arr.buf <= old(arr.buf) && arr.realEnd == arr.pastEnd
      ensures arr.begin < arr.pastEnd ==> IsInUse(Owned(), arr.pastEnd - 1)
      ensures AllKept(live, arr.blkSz, old(arr.buf), arr.buf)
    {
      hide Balanced, NoneWhole, Tally, Exts, TailCnt, IsInUse, BlockArray.Valid, FreeMaps.FreeMap.Valid,
          SubBlockFreeMaps.SubBlockFreeMap.Valid;
      ReclaimFromSub(Owned());
      ReclaimFromFr(Owned());
      LastBlockInUse(Sp(), Owned());
      tail.Release();
      LivePositions();
      ShorterKeepsAll(live, arr.blkSz, old(arr.buf), arr.buf);
    }

    /** Everything is taken back at once. */
    method Reset()
      requires Valid()
      modifies this, fr, sub, arr
      ensures Valid() && live == [] && lost == [] && splits == 0 && arr.begin == arr.pastEnd == arr.realEnd
      ensures 0 == inUseByUserSz == inUseBlkCnt == inUseBlkForSuballocCnt == inUseSubblkCnt == inUseExtCnt
          == inUseInlinedSz
    {
      hide Holds, NoneWhole, Tally, Exts;
      NothingInUse(arr.begin, arr.blkSz);
      ResetSpace();
      inUseByUserSz, inUseBlkCnt, inUseSubblkCnt, inUseExtCnt, inUseInlinedSz := 0, 0, 0, 0, 0;
      live, lost, splits := [], [], 0;
    }

    // -- resizing --

    ghost method PartLive(ix: nat, front: Holding, back: Holding)
      requires Valid() && ix < |live| && live[ix] == Holding(front.exts + back.exts, front.inlineSz + back.inlineSz)
      modifies this`live
      ensures Valid() && live == Parted(old(live), ix, front, back)
    {
      hide Balanced, NoneWhole, Tally, Exts;
      PartedBalance(Sp(), live, lost, ix, front, back, arr.blkSz);
      assert live[ix] in live;
      live := Parted(live, ix, front, back);
    }

    ghost method JoinLive(base: seq<Holding>, ix: nat, front: Holding, back: Holding)
      requires Valid() && ix < |base| && live == Parted(base, ix, front, back) && front.inlineSz == 0
      modifies this`live
      ensures Valid() && live == base[ix := Holding(front.exts + back.exts, back.inlineSz)]
    {
      hide Balanced, NoneWhole, Tally, Exts;
      var whole := base[ix := Holding(front.exts + back.exts, back.inlineSz)];
      assert Parted(whole, ix, front, back) == live;
      PartedBalance(Sp(), whole, lost, ix, front, back, arr.blkSz);
      assert back == live[|live| - 1] && back in live;
      assert forall i :: 0 <= i < |base| && i != ix ==> whole[i] == live[i] && live[i] in live;
      live := whole;
    }

    /** The last extent of the segment is passed on to the segment of extents to be freed. */
    ghost method PassOnLive(base: seq<Holding>, ix: nat, front: seq<Extent>, e: Extent, back: seq<Extent>)
      requires Valid() && ix < |base| && live == Parted(base, ix, Holding(front + [e], 0), Holding(back, 0))
      modifies this`live
      ensures Valid() && live == Parted(base, ix, Holding(front, 0), Holding(back + [e], 0))
    {
      hide Balanced, NoneWhole, Tally, Exts;
      PassOn(Sp(), base, lost, ix, front, e, back, arr.blkSz);
      var next := Parted(base, ix, Holding(front, 0), Holding(back + [e], 0));
      assert forall i :: 0 <= i < |base| && i != ix ==> next[i] == live[i] && live[i] in live;
      live := next;
    }

    /** Only the second part of the last extent is passed on; the counter of extents does not notice. */
    ghost method PassOnPartLive(base: seq<Holding>, ix: nat, rest: seq<Extent>, e: Extent, n: nat, front: Extent,
        back: Extent, toFree: seq<Extent>)
      requires Valid() && ix < |base| && live == Parted(base, ix, Holding(rest + [e], 0), Holding(toFree, 0))
      requires IsSplit(e, n, front, back) && !front.Empty() && !back.Empty()
      modifies this`live, this`splits
      ensures Valid() && live == Parted(base, ix, Holding(rest + [front], 0), Holding(toFree + [back], 0))
          && splits == old(splits) + 1
    {
      hide Balanced, NoneWhole, Tally, Exts, IsSplit;
      PassOnPart(Sp(), base, lost, ix, rest, e, n, front, back, toFree, arr.blkSz);
      var next := Parted(base, ix, Holding(rest + [front], 0), Holding(toFree + [back], 0));
      assert forall i :: 0 <= i < |base| && i != ix ==> next[i] == live[i] && live[i] in live;
      live := next;
      splits := splits + 1;
    }

    /** Fewer inline bytes; ix is the segment's place in the ledger. */
    method ShrinkInline(segm: Segment, n: nat, ghost ix: nat)
      requires Valid() && ix < |live| && live[ix] == segm.View() && segm.Valid() && n <= |segm.raw|
      modifies this`inUseInlinedSz, this`inUseByUserSz, this`live, segm`raw, segm`inlinePresent
      ensures Valid() && live == old(live)[ix := segm.View()] && segm.Valid()
      ensures segm.raw == old(segm.raw)[..n] && segm.inlinePresent
    {
      hide Balanced, NoneWhole, Tally, Exts;
      var less := |segm.raw| - n;
      InlineChanged(live, ix, n, arr.blkSz);
      segm.ReserveInlineData(n);
      inUseInlinedSz := inUseInlinedSz - less;
      inUseByUserSz := inUseByUserSz - less;
      assert live[ix] in live;
      live := live[ix := segm.View()];
    }

    /** The segment loses its inline bytes and its end marker. */
    method DropInline(segm: Segment, ghost ix: nat)
      requires Valid() && ix < |live| && live[ix] == segm.View() && segm.Valid()
      modifies this`inUseInlinedSz, this`inUseByUserSz, this`live, segm`raw, segm`inlinePresent, segm`endMarker
      ensures Valid() && live == old(live)[ix := segm.View()] && segm.Valid()
      ensures segm.raw == [] && !segm.inlinePresent && !segm.endMarker
    {
      hide Balanced, NoneWhole, Tally, Exts;
      InlineChanged(live, ix, 0, arr.blkSz);
      inUseInlinedSz := inUseInlinedSz - |segm.raw|;
      inUseByUserSz := inUseByUserSz - |segm.raw|;
      segm.RemoveInlineData();
      var r := segm.RemoveEndOfSegment();
      live := live[ix := segm.View()];
    }

    /** The segment loses its last extent, which is zeroed and freed. */
    method DropLast(segm: Segment, ghost ix: nat)
      requires Valid() && ix < |live| && live[ix] == segm.View() && segm.Valid() && segm.blkSz == arr.blkSz
      requires segm.exts != [] && segm.raw == [] && !segm.inlinePresent
      modifies this, arr`buf, fr, sub, segm`exts
      ensures Valid() && live == old(live)[ix := segm.View()] && lost == old(lost) && segm.Valid()
          && splits == old(splits)
      ensures segm.exts == old(segm.exts)[..|old(segm.exts)| - 1]
      ensures AllKept(live, arr.blkSz, old(arr.buf), arr.buf)
      ensures Cleared(old(segm.exts), segm.exts, arr.blkSz, old(arr.buf), arr.buf)
    {
      hide Holds, NoneWhole, Tally, Exts, SegPos, AllKept, Untouched, Cleared;
      var k := |segm.exts| - 1;
      var tail := new Segment(arr.blkSz);
      var a := tail.AddExtent(segm.exts[k]);
      assert segm.exts == segm.exts[..k] + tail.exts;
      ghost var base, exts0, buf0 := live, segm.exts, arr.buf;
      PartLive(ix, Holding(segm.exts[..k], 0), tail.View());
      ghost var last := |base|;
      Dealloc(tail, true, last);
      BackCleared(exts0[..k], tail.exts, arr.blkSz, buf0, arr.buf);
      var r := segm.RemoveLastExtent();
      assert live == base[ix := segm.View()];
    }

    lemma {:induction false} LiveSize(segm: Segment, ix: nat)
      requires Valid() && ix < |live| && live[ix] == segm.View() && segm.Valid() && segm.blkSz == arr.blkSz
      ensures Mounted(arr, segm) && segm.DataSpaceSize() <= MAX_U32
    {
      LiveMounted(segm, ix);
      Listed(live, lost, ix, arr.blkSz);
      var a, b := Exts(live[..ix]), Exts(live[ix + 1..]) + lost;
      SegPosAppend(a + segm.exts, b, arr.blkSz);
      SegPosAppend(a, segm.exts, arr.blkSz);
      DataSizesBlks(Owned(), arr.blkSz);
      OwnedFits(Sp(), Owned(), arr.blkSz);
      LessEqual(arr.pastEnd, arr.realEnd, arr.blkSz);
    }

    method RestoreLive(segm: Segment, at: nat, saved: seq<Byte>, ghost ix: nat)
      requires Valid() && ix < |live| && live[ix] == segm.View() && segm.Valid() && segm.blkSz == arr.blkSz
      requires Mounted(arr, segm) && at + |saved| <= segm.DataSpaceSize() <= MAX_U32
      modifies arr`buf, segm`raw
      ensures Valid() && live[ix] == segm.View() && segm.Valid()
      ensures Mounted(arr, segm) && Untouched(old(arr.buf), arr.buf, SegPos(segm.exts, arr.blkSz))
      ensures FlatOf(arr, segm) == Over(old(FlatOf(arr, segm)), at, saved)
    {
      hide Balanced, NoneWhole, Tally, Exts, SegPos, Untouched, Over, FlatOf, Mounted;
      Restore(arr, segm, at, saved);
      ArrayMounted(arr, segm);
    }

    /** The segment's extents were among exts or are as the request wants them, and so are its inline bytes. */
    ghost predicate Appended(segm: Segment, exts: seq<Extent>, req: Req)
      reads segm
    {
      && |segm.raw| <= req.maxInlineSz && (segm.inlinePresent <==> segm.raw != [])
      && (!req.allowSuballoc ==> forall e :: e in segm.exts ==> e in exts || e.Full?)
    }

    /** Allocates extra bytes for the segment and appends them to it. */
    method ExtendBy(segm: Segment, extra: nat, req: Req, ghost ix: nat) returns (r: Outcome<()>)
      requires Valid() && ix < |live| && live[ix] == segm.View() && segm.Valid() && segm.blkSz == arr.blkSz
      requires segm.raw == [] && !segm.inlinePresent && Mounted(arr, segm)
      modifies this, fr, sub, arr, segm
      ensures Valid() && live == old(live)[ix := segm.View()] && segm.Valid() && splits == old(splits)
      ensures OthersSame(live, ix, arr.blkSz, old(arr.buf), arr.buf)
      ensures old(arr.pastEnd) <= arr.pastEnd && old(arr.realEnd) <= arr.realEnd
      ensures req.Bad(arr.blkSz) ==> arr.pastEnd == old(arr.pastEnd)
      ensures arr.pastEnd <= old(arr.pastEnd + MayGrow(extra, req)) && (old(Granted(extra, req)) ==> r.Ok?)
      ensures old(lost) <= lost && Extends(old(arr.buf), arr.buf) && old(segm.exts) <= segm.exts
      ensures r.Throws? ==>
                && unchanged(segm) && Mounted(arr, segm) && FlatOf(arr, segm) == old(FlatOf(arr, segm))
                && Refuses(extra, req)
      ensures r.Ok? ==> Appended(segm, old(segm.exts), req) && |segm.raw| == InlinePart(extra, req, arr.blkSz)
      ensures segm.endMarker == old(segm.endMarker)
      ensures r.Ok? ==>
                && lost == old(lost) && Mounted(arr, segm)
                && segm.DataSpaceSize() == old(segm.DataSpaceSize()) + AllocSize(extra, req, arr.blkSz)
                && AllocSize(extra, req, arr.blkSz) < extra + req.Granule(arr.blkSz)
                && segm.DataSpaceSize() <= MAX_U32
                && FlatOf(arr, segm)[..old(segm.DataSpaceSize())] == old(FlatOf(arr, segm))
    {
      hide Refuses, Granted, MayGrow, Holds, AllocSize, Abandoned, TooWide, NoneWhole, Tally, Exts, SegPos, DataSizes,
          AllKept, OthersSame, Kept, Flat, FlatOf, Mounted, Extends, ReusedFor, InlinePart;
      ghost var base, exts0, buf0 := live, segm.exts, arr.buf;
      FlatIs(arr, segm);
      var t := Alloc(extra, req);
      ExtendsIs(buf0, arr.buf);
      KeptOf(base, ix, arr.blkSz, buf0, arr.buf);
      if t.Throws? {
        LiveMounted(segm, ix);
        FlatIs(arr, segm);
        SameFlat(buf0, arr.buf, segm.exts, arr.blkSz);
        return Throws(t.error);
      }
      assert live == Parted(base, ix, segm.View(), t.value.View());
      JoinLive(base, ix, segm.View(), t.value.View());
      var e := segm.Extend(t.value);
      LiveSize(segm, ix);
      FlatIs(arr, segm);
      Joined(buf0, arr.buf, exts0, t.value.exts, segm.raw, arr.blkSz);
      OthersMoved(base, live, ix, arr.blkSz, buf0, arr.buf);
      r := Ok(());
    }

    /** Allocates extra bytes for the segment, appends them to it, and writes the saved bytes to their begin. */
    method PutOnEnd(segm: Segment, extra: nat, saved: seq<Byte>, req: Req, ghost ix: nat) returns (r: Outcome<()>)
      requires Valid() && ix < |live| && live[ix] == segm.View() && segm.Valid() && segm.blkSz == arr.blkSz
      requires segm.raw == [] && !segm.inlinePresent && |saved| <= extra && Mounted(arr, segm)
      modifies this, fr, sub, arr, segm
      ensures Valid() && live == old(live)[ix := segm.View()] && segm.Valid() && splits == old(splits)
      ensures OthersSame(live, ix, arr.blkSz, old(arr.buf), arr.buf)
      ensures old(arr.pastEnd) <= arr.pastEnd && old(arr.realEnd) <= arr.realEnd
      ensures req.Bad(arr.blkSz) ==> arr.pastEnd == old(arr.pastEnd)
      ensures arr.pastEnd <= old(arr.pastEnd + MayGrow(extra, req)) && (old(Granted(extra, req)) ==> r.Ok?)
      ensures old(lost) <= lost && old(segm.exts) <= segm.exts
      ensures Cleared(segm.exts, segm.exts, arr.blkSz, old(arr.buf), arr.buf)
      ensures r.Throws? ==>
                && unchanged(segm) && Mounted(arr, segm) && FlatOf(arr, segm) == old(FlatOf(arr, segm))
                && Refuses(extra, req)
      ensures r.Ok? ==> Appended(segm, old(segm.exts), req) && |segm.raw| == InlinePart(extra, req, arr.blkSz)
      ensures segm.endMarker == old(segm.endMarker)
      ensures r.Ok? ==>
                && lost == old(lost) && Mounted(arr, segm)
                && segm.DataSpaceSize() == old(segm.DataSpaceSize()) + AllocSize(extra, req, arr.blkSz)
                && AllocSize(extra, req, arr.blkSz) < extra + req.Granule(arr.blkSz)
                && FlatOf(arr, segm)[..old(segm.DataSpaceSize()) + |saved|] == old(FlatOf(arr, segm)) + saved
    {
      hide Refuses, Granted, MayGrow, Holds, AllocSize, NoneWhole, Tally, Exts, SegPos, DataSizes, AllKept, AllWithin,
          ApartFrom, OthersSame, Untouched, Over, FlatOf, Mounted, Extends, Cleared, InlinePart;
      ghost var base, buf0 := live, arr.buf;
      var cur := segm.DataSpaceSize();
      r := ExtendBy(segm, extra, req, ix);
      ExtendsIs(buf0, arr.buf);
      NothingCleared(segm.exts, arr.blkSz, buf0, arr.buf);
      if r.Throws? { return; }
      LiveApartFrom(ix);
      ghost var live1, buf1, flat1 := live, arr.buf, FlatOf(arr, segm);
      RestoreLive(segm, cur, saved, ix);
      UntouchedKeeps(live, ix, arr.blkSz, buf1, arr.buf);
      OnlyThese(segm.exts, arr.blkSz, buf0, buf1, arr.buf);
      OverPrefix(flat1, cur, saved);
      OthersThen(live1, live, ix, arr.blkSz, buf0, buf1, arr.buf);
    }

    /** Saves and takes off what an extension writes anew: the inline bytes, and a last extent of sub-blocks. */
    method TakeOffEnd(segm: Segment, ghost ix: nat) returns (saved: seq<Byte>)
      requires Valid() && ix < |live| && live[ix] == segm.View() && segm.Valid() && segm.blkSz == arr.blkSz
          && Mounted(arr, segm)
      modifies this, fr, sub, arr`buf, segm
      ensures Valid() && live == old(live)[ix := segm.View()] && lost == old(lost) && segm.Valid()
          && splits == old(splits)
      ensures segm.exts == Staying(old(segm.exts))
      ensures Cleared(old(segm.exts), segm.exts, arr.blkSz, old(arr.buf), arr.buf)
      ensures segm.raw == [] && !segm.inlinePresent && !segm.endMarker
      ensures OthersSame(live, ix, arr.blkSz, old(arr.buf), arr.buf)
      ensures Mounted(arr, segm) && old(FlatOf(arr, segm)) == FlatOf(arr, segm) + saved
    {
      hide Holds, NoneWhole, Tally, Exts, SegPos, DataSizes, DataSize, AllKept, OthersSame, Untouched, Kept, Over, Flat,
          FlatOf, Mounted, Cleared;
      ghost var exts0, buf0, raw0, flat0 := segm.exts, arr.buf, segm.raw, FlatOf(arr, segm);
      LiveSize(segm, ix);
      FlatIs(arr, segm);
      var lastIsSub := |segm.exts| >= 1 && segm.exts[|segm.exts| - 1].Sub?;
      ghost var keep := if lastIsSub then |exts0| - 1 else |exts0|;
      FrontAndBack(exts0, keep, arr.blkSz);
      var savedSz := (if lastIsSub then DataSize(segm.exts[|segm.exts| - 1], arr.blkSz) else 0) + |segm.raw|;
      saved := Save(arr, segm, savedSz, savedSz);
      if segm.HasEndOfSegment() {
        DropInline(segm, ix);
      }
      AllSame(live, arr.blkSz, arr.buf, ix);
      NothingCleared(segm.exts, arr.blkSz, buf0, arr.buf);
      if lastIsSub {
        DropLast(segm, ix);
      }
      assert segm.exts == exts0[..keep];
      KeptOf(live, ix, arr.blkSz, buf0, arr.buf);
      LiveSize(segm, ix);
      FlatIs(arr, segm);
      TakenOff(buf0, arr.buf, exts0, keep, raw0, arr.blkSz);
      FrontThenBack(flat0, FlatOf(arr, segm), saved);
    }

    lemma {:induction false} AllSame(hs: seq<Holding>, blkSz: nat, buf: seq<Byte>, ix: nat)
      requires Valid() && hs == live && blkSz == arr.blkSz && buf == arr.buf
      ensures AllKept(hs, blkSz, buf, buf)
    {
      LivePositions();
      PrefixKeepsAll(hs, blkSz, buf, buf);
    }

    /** realloc to more bytes than the segment has. */
    method Expand(segm: Segment, sz: nat, req: Req, ghost ix: nat) returns (r: Outcome<()>)
      requires Valid() && ix < |live| && live[ix] == segm.View() && segm.Valid() && segm.blkSz == arr.blkSz
          && Mounted(arr, segm)
      requires segm.DataSpaceSize() < sz
      modifies this, fr, sub, arr, segm
      ensures Valid() && live == old(live)[ix := segm.View()] && segm.Valid() && splits == old(splits)
      ensures OthersSame(live, ix, arr.blkSz, old(arr.buf), arr.buf)
      ensures old(arr.pastEnd) <= arr.pastEnd && old(arr.realEnd) <= arr.realEnd
      ensures var need := sz - old(DataSizes(Staying(segm.exts), arr.blkSz));
              && 0 < need && arr.pastEnd <= old(arr.pastEnd) + WorstGrown(need, req, arr.blkSz, fr.splitAbove)
              && (old(Affords(need, req)) ==> r.Ok?)
      ensures old(lost) <= lost && Mounted(arr, segm)
      ensures Cleared(old(segm.exts), segm.exts, arr.blkSz, old(arr.buf), arr.buf)
      ensures r.Throws? ==>
                && Refuses(sz, req) && segm.exts == Staying(old(segm.exts)) && segm.raw == [] && !segm.inlinePresent
                && FlatOf(arr, segm) <= old(FlatOf(arr, segm))
      ensures Staying(old(segm.exts)) <= segm.exts && !segm.endMarker
      ensures r.Ok? ==> lost == old(lost)
      ensures r.Ok? ==> |segm.raw| == InlinePart(sz - old(DataSizes(Staying(segm.exts), arr.blkSz)), req, arr.blkSz)
      ensures r.Ok? ==>
                && segm.DataSpaceSize() == GrownSize(old(segm.exts), sz, req, arr.blkSz)
                && segm.DataSpaceSize() < sz + req.Granule(arr.blkSz)
      ensures r.Ok? ==> Appended(segm, old(segm.exts), req)
      ensures r.Ok? ==> FlatOf(arr, segm)[..old(segm.DataSpaceSize())] == old(FlatOf(arr, segm))
    {
      hide Refuses, Granted, MayGrow, WorstGrown, Reaches, WellAsked, Holds, AllocSize, Staying, NoneWhole, Tally, Exts,
          SegPos, DataSizes, Kept, OthersSame, Flat, FlatOf, Mounted, Cleared, InlinePart;
      ghost var buf0, exts0 := arr.buf, segm.exts;
      var saved := TakeOffEnd(segm, ix);
      ghost var live1, buf1, exts1 := live, arr.buf, segm.exts;
      var cur := segm.DataSpaceSize();
      GoodSize();
      AffordsGrants(sz - cur, req);
      r := PutOnEnd(segm, sz - cur, saved, req, ix);
      if r.Throws? { RefusesMore(sz - cur, sz, req); }
      ClearedThen(exts0, exts1, segm.exts, arr.blkSz, buf0, buf1, arr.buf);
      OthersTwice(live1, live, ix, arr.blkSz, buf0, buf1, arr.buf);
    }

    /** Moves whole extents from the end of the segment to toFree while they lie beyond the first sz bytes. */
    method CutWhole(segm: Segment, toFree: Segment, sz: nat, ghost ix: nat,
        ghost base: seq<Holding>) returns (shrinkSz: nat)
      requires Valid() && ix < |base| && live == Parted(base, ix, segm.View(), toFree.View()) && segm != toFree
      requires segm.Valid() && segm.blkSz == arr.blkSz && segm.raw == [] && !segm.inlinePresent && Mounted(arr, segm)
      requires toFree.Valid() && toFree.blkSz == arr.blkSz && toFree.raw == [] && !toFree.inlinePresent
      requires sz <= segm.DataSpaceSize()
      modifies this`live, segm`exts, toFree`exts
      ensures Valid() && live == Parted(base, ix, segm.View(), toFree.View()) && Mounted(arr, segm)
      ensures segm.DataSpaceSize() == sz + shrinkSz && FlatOf(arr, segm) <= old(FlatOf(arr, segm))
      ensures (segm.exts, shrinkSz) == Trim(old(segm.exts), old(segm.DataSpaceSize()) - sz, arr.blkSz)
      ensures SamePlaces(old(segm.exts + toFree.exts), segm.exts, toFree.exts, arr.blkSz)
      ensures 0 < shrinkSz ==> segm.exts != [] && shrinkSz < DataSize(segm.exts[|segm.exts| - 1], arr.blkSz)
    {
      hide Holds, Trim, NoneWhole, Tally, Exts, SegPos, DataSizes, DataSize, Flat, FlatOf, Mounted, SamePlaces;
      shrinkSz := segm.DataSpaceSize() - sz;
      ghost var all := segm.exts + toFree.exts;
      BothPlaces(segm.exts, toFree.exts, arr.blkSz);
      ghost var trimmed := Trim(segm.exts, shrinkSz, arr.blkSz);
      while 0 < shrinkSz
        invariant Valid() && live == Parted(base, ix, segm.View(), toFree.View()) && Mounted(arr, segm)
        invariant SamePlaces(all, segm.exts, toFree.exts, arr.blkSz)
        invariant Trim(segm.exts, shrinkSz, arr.blkSz) == trimmed
        invariant segm.DataSpaceSize() == sz + shrinkSz && FlatOf(arr, segm) <= old(FlatOf(arr, segm))
        decreases |segm.exts|
      {
        SomeExtent(segm);
        TrimStep(segm.exts, shrinkSz, arr.blkSz);
        var lastSz := DataSize(segm.exts[|segm.exts| - 1], arr.blkSz);
        if lastSz > shrinkSz { return; }
        ghost var exts1, freed1 := segm.exts, toFree.exts;
        CutLast(segm, toFree, ix, base);
        LastMoved(all, exts1, freed1, arr.blkSz);
        shrinkSz := shrinkSz - lastSz;
      }
      TrimNone(segm.exts, arr.blkSz);
    }

    /** Moves the last extent of the segment to toFree. */
    method CutLast(segm: Segment, toFree: Segment, ghost ix: nat, ghost base: seq<Holding>)
      requires Valid() && ix < |base| && live == Parted(base, ix, segm.View(), toFree.View()) && segm != toFree
      requires segm.Valid() && segm.blkSz == arr.blkSz && segm.raw == [] && !segm.inlinePresent && Mounted(arr, segm)
      requires toFree.Valid() && toFree.raw == [] && !toFree.inlinePresent && segm.exts != []
      modifies this`live, segm`exts, toFree`exts
      ensures Valid() && live == Parted(base, ix, segm.View(), toFree.View()) && Mounted(arr, segm)
      ensures segm.exts == old(segm.exts)[..|old(segm.exts)| - 1]
      ensures toFree.exts == old(toFree.exts) + [old(segm.exts)[|old(segm.exts)| - 1]]
      ensures segm.DataSpaceSize() == old(segm.DataSpaceSize()) - DataSize(old(segm.exts)[|old(segm.exts)| - 1],
          arr.blkSz)
      ensures FlatOf(arr, segm) <= old(FlatOf(arr, segm))
    {
      hide Holds, NoneWhole, Tally, Exts, SegPos, DataSizes, DataSize, Flat, FlatOf, Mounted;
      ghost var exts0 := segm.exts;
      var k := |segm.exts| - 1;
      var last := segm.exts[k];
      FlatIs(arr, segm);
      FrontAndBack(exts0, k, arr.blkSz);
      assert segm.exts == segm.exts[..k] + [last];
      PassOnLive(base, ix, segm.exts[..k], last, toFree.exts);
      var a := toFree.AddExtent(last);
      var r := segm.RemoveLastExtent();
      LiveMounted(segm, ix);
      FlatIs(arr, segm);
      FrontFlat(arr.buf, exts0, k, arr.blkSz);
    }

    /** Fewer bytes than the segment has, which has no inline bytes any more. */
    method ShrinkExtents(segm: Segment, sz: nat, req: Req, ghost ix: nat) returns (r: Outcome<()>)
      requires Valid() && ix < |live| && live[ix] == segm.View() && segm.Valid() && segm.blkSz == arr.blkSz
          && Mounted(arr, segm)
      requires sz <= segm.DataSpaceSize() && segm.raw == [] && !segm.inlinePresent
      modifies this, fr, sub, arr, segm
      ensures Valid() && live == old(live)[ix := segm.View()] && segm.Valid() && splits == old(splits)
      ensures OthersSame(live, ix, arr.blkSz, old(arr.buf), arr.buf)
      ensures old(arr.pastEnd) <= arr.pastEnd && old(arr.realEnd) <= arr.realEnd
      ensures var need := old(Requested(segm.exts, 0, sz, arr.blkSz));
              && arr.pastEnd <= old(arr.pastEnd) + WorstGrown(need, req, arr.blkSz, fr.splitAbove)
              && (old(Affords(need, req)) ==> r.Ok?)
      ensures fr.splitAbove == 0 && 0 < req.fragThreshold && old(CutsBlocks(segm.exts, 0, sz, arr.blkSz)) ==>
                var need := old(Requested(segm.exts, 0, sz, arr.blkSz));
                arr.pastEnd == old(arr.pastEnd) && (need == 0 || WellAsked(need, req) ==> r.Ok?)
      ensures old(lost) <= lost && Mounted(arr, segm)
      ensures Cleared(old(segm.exts), segm.exts, arr.blkSz, old(arr.buf), arr.buf)
      ensures r.Throws? ==>
                && Refuses(sz, req) && segm.exts == LeftAfter(old(segm.exts), 0, sz, arr.blkSz) && segm.raw == []
                && !segm.inlinePresent && FlatOf(arr, segm) <= old(FlatOf(arr, segm))
      ensures LeftAfter(old(segm.exts), 0, sz, arr.blkSz) <= segm.exts && segm.endMarker == old(segm.endMarker)
      ensures r.Ok? ==> lost == old(lost)
      ensures var need := old(Requested(segm.exts, 0, sz, arr.blkSz));
              && (need == 0 ==> segm.exts == LeftAfter(old(segm.exts), 0, sz, arr.blkSz) && segm.raw == [])
              && (0 < need && r.Ok? ==> |segm.raw| == InlinePart(need, req, arr.blkSz))
      ensures r.Ok? ==> segm.DataSpaceSize() == SizeAfter(old(segm.exts), 0, sz, req, arr.blkSz) >= sz
      ensures r.Ok? ==> FlatOf(arr, segm)[..sz] == old(FlatOf(arr, segm))[..sz]
    {
      hide Refuses, WorstGrown, Reaches, WellAsked, Requested, Holds, Trim, CutSize, SizeAfter, LeftAfter, PartSize,
          NoneWhole, Tally, Exts, SegPos, DataSizes, DataSize, Kept, AllKept, OthersSame, Flat, FlatOf, Mounted,
          Cleared, SamePlaces, InlinePart, CutsBlocks;
      ghost var base, exts0, buf0 := live, segm.exts, arr.buf;
      var toFree := new Segment(arr.blkSz);
      assert segm.exts + [] == segm.exts;
      PartLive(ix, segm.View(), toFree.View());
      var shrinkSz := CutWhole(segm, toFree, sz, ix, base);
      ResizeByCut(old(segm.exts), sz, req, arr.blkSz);
      ghost var exts1, freed1 := segm.exts, toFree.exts;
      if 0 < shrinkSz {
        r := CutPart(segm, toFree, shrinkSz, req, ix, base);
      } else {
        FreeCutIfAny(segm, toFree, true, ix, base);
        r := Ok(());
      }
      SamePlacesCleared(exts0, exts1, freed1, segm.exts, arr.blkSz, buf0, arr.buf);
    }

    /** realloc to fewer bytes than the segment has, and more than the inline bytes are to go. */
    method CutBelow(segm: Segment, sz: nat, req: Req, ghost ix: nat) returns (r: Outcome<()>)
      requires Valid() && ix < |live| && live[ix] == segm.View() && segm.Valid() && segm.blkSz == arr.blkSz
          && Mounted(arr, segm)
      requires sz < DataSizes(segm.exts, arr.blkSz)
      modifies this, fr, sub, arr, segm
      ensures Valid() && live == old(live)[ix := segm.View()] && segm.Valid() && splits == old(splits)
      ensures OthersSame(live, ix, arr.blkSz, old(arr.buf), arr.buf)
      ensures old(arr.pastEnd) <= arr.pastEnd && old(arr.realEnd) <= arr.realEnd
      ensures var need := old(Requested(segm.exts, 0, sz, arr.blkSz));
              && arr.pastEnd <= old(arr.pastEnd) + WorstGrown(need, req, arr.blkSz, fr.splitAbove)
              && (old(Affords(need, req)) ==> r.Ok?)
      ensures fr.splitAbove == 0 && 0 < req.fragThreshold && old(CutsBlocks(segm.exts, 0, sz, arr.blkSz)) ==>
                var need := old(Requested(segm.exts, 0, sz, arr.blkSz));
                arr.pastEnd == old(arr.pastEnd) && (need == 0 || WellAsked(need, req) ==> r.Ok?)
      ensures old(lost) <= lost && Mounted(arr, segm)
      ensures Cleared(old(segm.exts), segm.exts, arr.blkSz, old(arr.buf), arr.buf)
      ensures r.Throws? ==>
                && Refuses(sz, req) && segm.exts == LeftAfter(old(segm.exts), 0, sz, arr.blkSz) && segm.raw == []
                && !segm.inlinePresent && FlatOf(arr, segm) <= old(FlatOf(arr, segm))
      ensures LeftAfter(old(segm.exts), 0, sz, arr.blkSz) <= segm.exts && !segm.endMarker
      ensures r.Ok? ==> lost == old(lost)
      ensures var need := old(Requested(segm.exts, 0, sz, arr.blkSz));
              && (need == 0 ==> segm.exts == LeftAfter(old(segm.exts), 0, sz, arr.blkSz) && segm.raw == [])
              && (0 < need && r.Ok? ==> |segm.raw| == InlinePart(need, req, arr.blkSz))
      ensures r.Ok? ==> segm.DataSpaceSize() == SizeAfter(old(segm.exts), 0, sz, req, arr.blkSz) >= sz
      ensures r.Ok? ==> FlatOf(arr, segm)[..sz] == old(FlatOf(arr, segm))[..sz]
    {
      hide Refuses, WorstGrown, Reaches, WellAsked, Requested, Holds, SizeAfter, LeftAfter, NoneWhole, Tally, Exts,
          SegPos, DataSizes, Kept, AllKept, OthersSame, Flat, FlatOf, Mounted, Cleared, InlinePart, CutsBlocks;
      ghost var raw0 := segm.raw;
      FlatIs(arr, segm);
      DropInline(segm, ix);
      LiveMounted(segm, ix);
      FlatIs(arr, segm);
      FlatShorter(arr.buf, SegPos(segm.exts, arr.blkSz), raw0, segm.raw);
      r := ShrinkExtents(segm, sz, req, ix);
    }

    method FreeCutIfAny(segm: Segment, toFree: Segment, zeroIt: bool, ghost ix: nat, ghost base: seq<Holding>)
      requires Valid() && ix < |base| && live == Parted(base, ix, segm.View(), toFree.View()) && segm != toFree
      requires segm.Valid() && segm.blkSz == arr.blkSz && segm.raw == [] && Mounted(arr, segm)
      requires toFree.Valid() && toFree.blkSz == arr.blkSz && toFree.raw == []
      modifies this, arr`buf, fr, sub
      ensures Valid() && live == base[ix := segm.View()] && lost == old(lost) && Mounted(arr, segm)
          && splits == old(splits)
      ensures FlatOf(arr, segm) == old(FlatOf(arr, segm)) && OthersSame(live, ix, arr.blkSz, old(arr.buf), arr.buf)
      ensures zeroIt ==> Cleared(segm.exts + toFree.exts, segm.exts, arr.blkSz, old(arr.buf), arr.buf)
      ensures !zeroIt ==> arr.buf == old(arr.buf)
    {
      hide Holds, NoneWhole, Tally, Exts, SegPos, DataSizes, AllKept, OthersSame, FlatOf, Mounted, Cleared;
      if |toFree.exts| >= 1 {
        FreeCut(segm, toFree, zeroIt, ix, base);
      } else {
        JoinLive(base, ix, segm.View(), toFree.View());
        NothingCleared(segm.exts, arr.blkSz, arr.buf, arr.buf);
        AllSame(live, arr.blkSz, arr.buf, ix);
        KeptOf(live, ix, arr.blkSz, arr.buf, arr.buf);
      }
    }

    /** Frees the extents that were cut off, after zeroing them if asked to. */
    method FreeCut(segm: Segment, toFree: Segment, zeroIt: bool, ghost ix: nat, ghost base: seq<Holding>)
      requires Valid() && ix < |base| && live == Parted(base, ix, segm.View(), toFree.View()) && segm != toFree
      requires segm.Valid() && segm.blkSz == arr.blkSz && segm.raw == [] && Mounted(arr, segm)
      requires toFree.Valid() && toFree.blkSz == arr.blkSz
      modifies this, arr`buf, fr, sub
      ensures Valid() && live == base[ix := segm.View()] && lost == old(lost) && Mounted(arr, segm)
          && splits == old(splits)
      ensures FlatOf(arr, segm) == old(FlatOf(arr, segm)) && OthersSame(live, ix, arr.blkSz, old(arr.buf), arr.buf)
      ensures zeroIt ==> Cleared(segm.exts + toFree.exts, segm.exts, arr.blkSz, old(arr.buf), arr.buf)
      ensures !zeroIt ==> arr.buf == old(arr.buf)
      ensures AllRoomy(fr.byNr, toFree.exts)
    {
      hide Holds, NoneWhole, Tally, Exts, SegPos, DataSizes, DataSize, Kept, AllKept, OthersSame, Flat, FlatOf, Mounted,
          Untouched, Cleared, AllRoomy;
      ghost var buf0 := arr.buf;
      FlatIs(arr, segm);
      ghost var last := |base|;
      Dealloc(toFree, zeroIt, last);
      if zeroIt { BackCleared(segm.exts, toFree.exts, arr.blkSz, buf0, arr.buf); }
      assert live == base[ix := segm.View()];
      KeptOf(live, ix, arr.blkSz, buf0, arr.buf);
      LiveMounted(segm, ix);
      FlatIs(arr, segm);
      SameFlat(buf0, arr.buf, segm.exts, arr.blkSz);
    }

    /** Only a part of the last extent goes: the rest of its bytes moves to a smaller allocation. */
    method CutPart(segm: Segment, toFree: Segment, shrinkSz: nat, req: Req, ghost ix: nat,
        ghost base: seq<Holding>) returns (r: Outcome<()>)
      requires Valid() && ix < |base| && live == Parted(base, ix, segm.View(), toFree.View()) && segm != toFree
      requires segm.Valid() && segm.blkSz == arr.blkSz && segm.raw == [] && !segm.inlinePresent && Mounted(arr, segm)
      requires toFree.Valid() && toFree.blkSz == arr.blkSz && toFree.raw == [] && !toFree.inlinePresent
      requires segm.exts != [] && 0 < shrinkSz < DataSize(segm.exts[|segm.exts| - 1], arr.blkSz)
          && shrinkSz <= segm.DataSpaceSize()
      modifies this, fr, sub, arr, segm, toFree`exts
      ensures Valid() && live == base[ix := segm.View()] && segm.Valid() && splits == old(splits)
      ensures OthersSame(live, ix, arr.blkSz, old(arr.buf), arr.buf)
      ensures old(arr.pastEnd) <= arr.pastEnd && old(arr.realEnd) <= arr.realEnd
      ensures var need := DataSize(old(segm.exts)[|old(segm.exts)| - 1], arr.blkSz) - shrinkSz;
              && arr.pastEnd <= old(arr.pastEnd) + WorstGrown(need, req, arr.blkSz, fr.splitAbove)
              && (old(Affords(need, req)) ==> r.Ok?)
      ensures fr.splitAbove == 0 && 0 < req.fragThreshold && old(segm.exts)[|old(segm.exts)| - 1].Full? ==>
                && arr.pastEnd == old(arr.pastEnd)
                && (WellAsked(DataSize(old(segm.exts)[|old(segm.exts)| - 1], arr.blkSz) - shrinkSz, req) ==> r.Ok?)
      ensures old(lost) <= lost && Mounted(arr, segm)
      ensures Cleared(old(segm.exts + toFree.exts), segm.exts, arr.blkSz, old(arr.buf), arr.buf)
      ensures r.Throws? ==>
                && Refuses(old(segm.DataSpaceSize()) - shrinkSz, req)
                && segm.exts == old(segm.exts)[..|old(segm.exts)| - 1]
                && segm.raw == [] && !segm.inlinePresent && FlatOf(arr, segm) <= old(FlatOf(arr, segm))
      ensures old(segm.exts)[..|old(segm.exts)| - 1] <= segm.exts && segm.endMarker == old(segm.endMarker)
      ensures r.Ok? ==> lost == old(lost)
      ensures r.Ok? ==>
                |segm.raw|
                == InlinePart(DataSize(old(segm.exts)[|old(segm.exts)| - 1], arr.blkSz) - shrinkSz, req, arr.blkSz)
      ensures r.Ok? ==> segm.DataSpaceSize() == PartSize(old(segm.exts), shrinkSz, req, arr.blkSz)
      ensures r.Ok? ==>
                var sz := old(segm.DataSpaceSize()) - shrinkSz;
                && sz <= segm.DataSpaceSize() && FlatOf(arr, segm)[..sz] == old(FlatOf(arr, segm))[..sz]
    {
      hide Refuses, Granted, MayGrow, WorstGrown, Reaches, WellAsked, Holds, AllocSize, NoneWhole, Tally, Exts, SegPos,
          DataSizes, DataSize, Kept, AllKept, OthersSame, Flat, FlatOf, Mounted, Cleared, InlinePart, Roomy;
      ghost var buf0, flat0, all := arr.buf, FlatOf(arr, segm), segm.exts + toFree.exts;
      ghost var last := segm.exts[|segm.exts| - 1];
      var saved := SaveLast(segm, toFree, shrinkSz, ix, base);
      ghost var live1, buf1, exts1 := live, arr.buf, segm.exts;
      GoodSize();
      AffordsGrants(|saved|, req);
      PartFits(last, |saved|, req);
      r := PutOnEnd(segm, |saved|, saved, req, ix);
      if r.Throws? { RefusesMore(|saved|, |flat0| - shrinkSz, req); }
      ClearedThen(all, exts1, segm.exts, arr.blkSz, buf0, buf1, arr.buf);
      OthersTwice(live1, live, ix, arr.blkSz, buf0, buf1, arr.buf);
    }

    /** The last extent goes; what is to stay of its bytes is saved. */
    method SaveLast(segm: Segment, toFree: Segment, shrinkSz: nat, ghost ix: nat, ghost base: seq<Holding>)
      returns (saved: seq<Byte>)
      requires Valid() && ix < |base| && live == Parted(base, ix, segm.View(), toFree.View()) && segm != toFree
      requires segm.Valid() && segm.blkSz == arr.blkSz && segm.raw == [] && !segm.inlinePresent && Mounted(arr, segm)
      requires toFree.Valid() && toFree.blkSz == arr.blkSz && toFree.raw == [] && !toFree.inlinePresent
      requires segm.exts != [] && shrinkSz < DataSize(segm.exts[|segm.exts| - 1], arr.blkSz)
          && shrinkSz <= segm.DataSpaceSize()
      modifies this, fr, sub, arr`buf, segm`exts, toFree`exts
      ensures Valid() && live == base[ix := segm.View()] && lost == old(lost) && splits == old(splits)
      ensures segm.Valid() && Mounted(arr, segm) && OthersSame(live, ix, arr.blkSz, old(arr.buf), arr.buf)
      ensures segm.exts == old(segm.exts)[..|old(segm.exts)| - 1]
      ensures Cleared(old(segm.exts + toFree.exts), segm.exts, arr.blkSz, old(arr.buf), arr.buf)
      ensures var last := old(segm.exts)[|old(segm.exts)| - 1]; last.Full? ==> Roomy(fr.byNr, last)
      ensures shrinkSz + |saved| == DataSize(old(segm.exts)[|old(segm.exts)| - 1], arr.blkSz)
      ensures segm.DataSpaceSize() + |saved| == old(segm.DataSpaceSize()) - shrinkSz
      ensures FlatOf(arr, segm) + saved == old(FlatOf(arr, segm))[..old(segm.DataSpaceSize()) - shrinkSz]
    {
      hide Holds, NoneWhole, Tally, Exts, SegPos, DataSizes, DataSize, Kept, AllKept, OthersSame, Flat, FlatOf, Mounted,
          Cleared, Roomy, AllRoomy;
      ghost var flat0, buf0, exts0, freed0 := FlatOf(arr, segm), arr.buf, segm.exts, toFree.exts;
      assert live[ix] == segm.View();
      LiveSize(segm, ix);
      FrontAndBack(segm.exts, |segm.exts| - 1, arr.blkSz);
      var lastSz := DataSize(segm.exts[|segm.exts| - 1], arr.blkSz);
      saved := Save(arr, segm, lastSz, lastSz - shrinkSz);
      CutLast(segm, toFree, ix, base);
      BothPlaces(exts0, freed0, arr.blkSz);
      LastMoved(exts0 + freed0, exts0, freed0, arr.blkSz);
      FreeCut(segm, toFree, true, ix, base);
      LastRoomy(fr.byNr, freed0, exts0[|exts0| - 1]);
      SamePlacesCleared(exts0 + freed0, segm.exts, toFree.exts, segm.exts, arr.blkSz, buf0, arr.buf);
      assert flat0[..|flat0| - lastSz] + saved == flat0[..|flat0| - shrinkSz];
    }

    /** realloc to fewer inline bytes and nothing else. */
    method CutInline(segm: Segment, n: nat, ghost ix: nat)
      requires Valid() && ix < |live| && live[ix] == segm.View() && segm.Valid() && segm.blkSz == arr.blkSz
          && Mounted(arr, segm) && n <= |segm.raw|
      modifies this`inUseInlinedSz, this`inUseByUserSz, this`live, segm`raw, segm`inlinePresent
      ensures Valid() && live == old(live)[ix := segm.View()] && segm.Valid() && Mounted(arr, segm)
      ensures segm.raw == old(segm.raw)[..n] && segm.inlinePresent
      ensures FlatOf(arr, segm) <= old(FlatOf(arr, segm)) && OthersSame(live, ix, arr.blkSz, arr.buf, arr.buf)
    {
      hide Holds, NoneWhole, Tally, Exts, SegPos, DataSizes, Kept, AllKept, OthersSame, Flat, FlatOf, Mounted;
      ghost var live0, raw0 := live, segm.raw;
      AllSame(live, arr.blkSz, arr.buf, ix);
      KeptOf(live, ix, arr.blkSz, arr.buf, arr.buf);
      FlatIs(arr, segm);
      ShrinkInline(segm, n, ix);
      LiveMounted(segm, ix);
      FlatIs(arr, segm);
      FlatShorter(arr.buf, SegPos(segm.exts, arr.blkSz), raw0, segm.raw);
      OthersMoved(live0, live, ix, arr.blkSz, arr.buf, arr.buf);
    }

    /**
     * Resizes the segment: afterwards it has sz bytes or slightly more, the first of them are those it had, and no
     * other segment's bytes have changed; what it has given up is zero. Half way through a failed request the segment
     * may have become shorter.
     */
    method Realloc(segm: Segment, sz: nat, req: Req, ghost ix: nat) returns (r: Outcome<()>)
      requires Valid() && ix < |live| && live[ix] == segm.View() && segm.Valid() && segm.blkSz == arr.blkSz
          && Mounted(arr, segm)
      modifies this, fr, sub, arr, segm
      ensures Valid() && live == old(live)[ix := segm.View()] && segm.Valid() && splits == old(splits)
      ensures OthersSame(live, ix, arr.blkSz, old(arr.buf), arr.buf)
      ensures old(arr.pastEnd) <= arr.pastEnd && old(arr.realEnd) <= arr.realEnd
      ensures var need := old(Requested(segm.exts, |segm.raw|, sz, arr.blkSz));
              && arr.pastEnd <= old(arr.pastEnd) + WorstGrown(need, req, arr.blkSz, fr.splitAbove)
              && (old(Affords(need, req)) ==> r.Ok?)
      ensures fr.splitAbove == 0 && 0 < req.fragThreshold && old(CutsBlocks(segm.exts, |segm.raw|, sz, arr.blkSz)) ==>
                var need := old(Requested(segm.exts, |segm.raw|, sz, arr.blkSz));
                arr.pastEnd == old(arr.pastEnd) && (need == 0 || WellAsked(need, req) ==> r.Ok?)
      ensures old(lost) <= lost && Mounted(arr, segm)
      ensures Cleared(old(segm.exts), segm.exts, arr.blkSz, old(arr.buf), arr.buf)
      ensures r.Throws? ==>
                && Refuses(sz, req) && segm.exts == LeftAfter(old(segm.exts), |old(segm.raw)|, sz, arr.blkSz)
                && segm.raw == [] && !segm.inlinePresent && FlatOf(arr, segm) <= old(FlatOf(arr, segm))
      ensures LeftAfter(old(segm.exts), |old(segm.raw)|, sz, arr.blkSz) <= segm.exts
      ensures var need := old(Requested(segm.exts, |segm.raw|, sz, arr.blkSz));
              && (need == 0 ==> segm.exts == LeftAfter(old(segm.exts), |old(segm.raw)|, sz, arr.blkSz))
              && (0 < need && r.Ok? ==> |segm.raw| == InlinePart(need, req, arr.blkSz))
      ensures sz == old(segm.DataSpaceSize()) ==>
                unchanged(this) && unchanged(fr) && unchanged(sub) && unchanged(arr) && unchanged(segm)
      ensures old(DataSizes(segm.exts, arr.blkSz)) <= sz < old(segm.DataSpaceSize()) ==>
                && r.Ok? && unchanged(fr) && unchanged(sub) && unchanged(arr) && segm.endMarker == old(segm.endMarker)
                && segm.inlinePresent && segm.raw == old(segm.raw)[..sz - old(DataSizes(segm.exts, arr.blkSz))]
      ensures sz < old(DataSizes(segm.exts, arr.blkSz)) || old(segm.DataSpaceSize()) < sz ==> !segm.endMarker
      ensures r.Ok? ==> lost == old(lost)
      ensures r.Ok? ==> segm.DataSpaceSize() == SizeAfter(old(segm.exts), |old(segm.raw)|, sz, req, arr.blkSz) >= sz
      ensures r.Ok? && old(segm.DataSpaceSize()) < sz ==>
                Appended(segm, old(segm.exts), req) && segm.DataSpaceSize() < sz + req.Granule(arr.blkSz)
      ensures r.Ok? ==>
                var n := if sz < old(segm.DataSpaceSize()) then sz else old(segm.DataSpaceSize());
                FlatOf(arr, segm)[..n] == old(FlatOf(arr, segm))[..n]
    {
      hide Refuses, WorstGrown, Reaches, WellAsked, Holds, GrownSize, CutSize, Trim, Staying, NoneWhole, Tally, Exts,
          SegPos, DataSizes, DataSize, Kept, AllKept, OthersSame, Flat, FlatOf, Mounted, Cleared, InlinePart, Requested,
          LeftAfter, CutsBlocks;
      var cur := segm.DataSpaceSize();
      ResizeCases(segm.exts, |segm.raw|, sz, arr.blkSz);
      AllSame(live, arr.blkSz, arr.buf, ix);
      KeptOf(live, ix, arr.blkSz, arr.buf, arr.buf);
      FlatIs(arr, segm);
      NothingCleared(segm.exts, arr.blkSz, arr.buf, arr.buf);
      if cur == sz { return Ok(()); }
      if cur < sz {
        r := Expand(segm, sz, req, ix);
        return;
      }
      if cur - sz <= |segm.raw| {
        CutInline(segm, |segm.raw| - (cur - sz), ix);
        return Ok(());
      }
      r := CutBelow(segm, sz, req, ix);
    }

    method ResetSpace()
      requires Valid()
      modifies this`inUseBlkForSuballocCnt, fr, sub, arr
      ensures Holds([]) && NoneWhole(sub.frByNr) && inUseBlkForSuballocCnt == 0
          && arr.begin == arr.pastEnd == arr.realEnd
    {
      hide Balanced;
      NothingInUse(arr.begin, arr.blkSz);
      fr.Reset();
      sub.Reset();
      tail.Reset();
      inUseBlkForSuballocCnt := 0;
    }
  }

  /**
   * Of the bytes that were there, those of exts0 that are not of exts are zero now, and the others that are not of exts
   * are what they were.
   */
  ghost predicate Cleared(exts0: seq<Extent>, exts: seq<Extent>, blkSz: nat, buf0: seq<Byte>, buf: seq<Byte>) {
    && |buf0| <= |buf|
    && forall x :: 0 <= x < |buf0| && x !in SegPos(exts, blkSz) ==>
         buf[x] == if x in SegPos(exts0, blkSz) then 0 else buf0[x]
  }

  /** The extents exts0 lie where those of exts and of rest lie. */
  ghost predicate SamePlaces(exts0: seq<Extent>, exts: seq<Extent>, rest: seq<Extent>, blkSz: nat) {
    forall x :: x in SegPos(exts0, blkSz) <==> x in SegPos(exts, blkSz) || x in SegPos(rest, blkSz)
  }

  lemma {:induction false} NothingCleared(exts: seq<Extent>, blkSz: nat, buf0: seq<Byte>, buf: seq<Byte>)
    requires buf0 <= buf
    ensures Cleared(exts, exts, blkSz, buf0, buf)
    ensures exts + [] == exts && SamePlaces(exts, exts, [], blkSz)
  {
    assert forall x :: 0 <= x < |buf0| ==> buf[x] == buf0[x];
  }

  /** The extents at the back were zeroed. */
  lemma {:induction false} BackCleared(front: seq<Extent>, back: seq<Extent>, blkSz: nat, buf0: seq<Byte>,
      buf: seq<Byte>)
    requires Untouched(buf0, buf, SegPos(back, blkSz))
    requires forall x :: x in SegPos(back, blkSz) ==> x < |buf| && buf[x] == 0
    ensures Cleared(front + back, front, blkSz, buf0, buf)
  {
    SegPosAppend(front, back, blkSz);
  }

  /** Only bytes of exts were written, which are those of an array that has not shrunk. */
  lemma {:induction false} OnlyThese(exts: seq<Extent>, blkSz: nat, buf0: seq<Byte>, buf1: seq<Byte>, buf: seq<Byte>)
    requires buf0 <= buf1 && Untouched(buf1, buf, SegPos(exts, blkSz))
    ensures Cleared(exts, exts, blkSz, buf0, buf)
  {
    assert forall x :: 0 <= x < |buf0| ==> buf1[x] == buf0[x];
  }

  /** What was cleared stays so while only bytes of more extents are written. */
  lemma {:induction false} ClearedThen(exts0: seq<Extent>, exts1: seq<Extent>, exts: seq<Extent>, blkSz: nat,
      buf0: seq<Byte>, buf1: seq<Byte>, buf: seq<Byte>)
    requires Cleared(exts0, exts1, blkSz, buf0, buf1) && Cleared(exts, exts, blkSz, buf1, buf) && exts1 <= exts
    ensures Cleared(exts0, exts, blkSz, buf0, buf)
  {
    assert exts == exts1 + exts[|exts1|..];
    SegPosAppend(exts1, exts[|exts1|..], blkSz);
    assert forall x :: x in SegPos(exts1, blkSz) ==> x in SegPos(exts, blkSz);
  }

  lemma {:induction false} PlacesMoved(exts0: seq<Extent>, front: seq<Extent>, e: Extent, back: seq<Extent>, blkSz: nat)
    requires SamePlaces(exts0, front + [e], back, blkSz)
    ensures SamePlaces(exts0, front, back + [e], blkSz)
  {
    SegPosAppend(front, [e], blkSz);
    SegPosAppend(back, [e], blkSz);
  }

  lemma {:induction false} LastMoved(exts0: seq<Extent>, exts: seq<Extent>, rest: seq<Extent>, blkSz: nat)
    requires SamePlaces(exts0, exts, rest, blkSz) && exts != []
    ensures SamePlaces(exts0, exts[..|exts| - 1], rest + [exts[|exts| - 1]], blkSz)
  {
    assert exts == exts[..|exts| - 1] + [exts[|exts| - 1]];
    PlacesMoved(exts0, exts[..|exts| - 1], exts[|exts| - 1], rest, blkSz);
  }

  lemma {:induction false} BothPlaces(exts: seq<Extent>, rest: seq<Extent>, blkSz: nat)
    ensures SamePlaces(exts + rest, exts, rest, blkSz)
  {
    SegPosAppend(exts, rest, blkSz);
  }

  lemma {:induction false} LastRoomy(s: seq<FreeMaps.Chunk>, exts: seq<Extent>, e: Extent)
    requires AllRoomy(s, exts + [e])
    ensures e.Full? ==> Roomy(s, e)
  {
    assert e in exts + [e];
  }

  lemma {:induction false} SamePlacesCleared(exts0: seq<Extent>, exts1: seq<Extent>, rest: seq<Extent>,
      exts: seq<Extent>, blkSz: nat, buf0: seq<Byte>, buf: seq<Byte>)
    requires SamePlaces(exts0, exts1, rest, blkSz)
    ensures Cleared(exts1 + rest, exts, blkSz, buf0, buf) ==> Cleared(exts0, exts, blkSz, buf0, buf)
  {
    SegPosAppend(exts1, rest, blkSz);
  }

  lemma {:induction false} NothingTouched(buf: seq<Byte>, pos: seq<nat>)
    ensures Untouched(buf, buf, pos)
  {
  }

  /** All holdings but one keep their bytes. */
  ghost predicate OthersSame(hs: seq<Holding>, ix: nat, blkSz: nat, buf0: seq<Byte>, buf: seq<Byte>) {
    forall i :: 0 <= i < |hs| && i != ix ==> Kept(buf0, buf, SegPos(hs[i].exts, blkSz))
  }

  lemma {:induction false} KeptOf(hs: seq<Holding>, ix: nat, blkSz: nat, buf0: seq<Byte>, buf: seq<Byte>)
    requires AllKept(hs, blkSz, buf0, buf) && ix < |hs|
    ensures OthersSame(hs, ix, blkSz, buf0, buf) && Kept(buf0, buf, SegPos(hs[ix].exts, blkSz))
    ensures hs[ix := hs[ix]] == hs
  {
  }

  lemma {:induction false} OthersMoved(hs: seq<Holding>, now: seq<Holding>, ix: nat, blkSz: nat, buf0: seq<Byte>,
      buf: seq<Byte>)
    requires ix < |hs| == |now| && now == hs[ix := now[ix]] && OthersSame(hs, ix, blkSz, buf0, buf)
    ensures OthersSame(now, ix, blkSz, buf0, buf)
  {
  }

  lemma {:induction false} OthersThen(hs: seq<Holding>, now: seq<Holding>, ix: nat, blkSz: nat, buf0: seq<Byte>,
      buf1: seq<Byte>, buf2: seq<Byte>)
    requires ix < |hs| == |now| && now == hs[ix := now[ix]]
    requires OthersSame(hs, ix, blkSz, buf0, buf1) && AllKept(now[..ix] + now[ix + 1..], blkSz, buf1, buf2)
    ensures OthersSame(now, ix, blkSz, buf0, buf2)
  {
    var others := now[..ix] + now[ix + 1..];
    forall i | 0 <= i < |now| && i != ix
      ensures Kept(buf0, buf2, SegPos(now[i].exts, blkSz))
    {
      assert now[i] == hs[i] && others[if i < ix then i else i - 1] == now[i];
      KeptThen(buf0, buf1, buf2, SegPos(now[i].exts, blkSz));
    }
  }

  lemma {:induction false} OthersTwice(hs: seq<Holding>, now: seq<Holding>, ix: nat, blkSz: nat, buf0: seq<Byte>,
      buf1: seq<Byte>, buf2: seq<Byte>)
    requires ix < |hs| == |now| && now == hs[ix := now[ix]]
    requires OthersSame(hs, ix, blkSz, buf0, buf1) && OthersSame(now, ix, blkSz, buf1, buf2)
    ensures OthersSame(now, ix, blkSz, buf0, buf2)
  {
    forall i | 0 <= i < |now| && i != ix
      ensures Kept(buf0, buf2, SegPos(now[i].exts, blkSz))
    {
      assert now[i] == hs[i];
      KeptThen(buf0, buf1, buf2, SegPos(now[i].exts, blkSz));
    }
  }

  lemma {:induction false} FrontAndBack(exts: seq<Extent>, keep: nat, blkSz: nat)
    requires |exts| - 1 <= keep <= |exts|
    ensures DataSizes(exts, blkSz)
         == DataSizes(exts[..keep], blkSz) + if keep < |exts| then DataSize(exts[keep], blkSz) else 0
  {
    assert exts == exts[..keep] + exts[keep..];
    SegPosAppend(exts[..keep], exts[keep..], blkSz);
    assert keep < |exts| ==> exts[keep..] == [exts[keep]];
  }

  lemma {:induction false} FrontThenBack(flat: seq<Byte>, front: seq<Byte>, back: seq<Byte>)
    requires |flat| == |front| + |back| && flat[..|front|] == front && flat[|front|..|front| + |back|] == back
    ensures flat == front + back
  {
  }

  lemma {:induction false} FlatShorter(buf: seq<Byte>, pos: seq<nat>, raw0: seq<Byte>, raw: seq<Byte>)
    requires Layout.Within(pos, |buf|) && raw <= raw0
    ensures Flat(buf, pos, raw) <= Flat(buf, pos, raw0)
  {
  }

  lemma {:induction false} SameFlat(buf0: seq<Byte>, buf: seq<Byte>, exts: seq<Extent>, blkSz: nat)
    requires Layout.Within(SegPos(exts, blkSz), |buf0|) && Layout.Within(SegPos(exts, blkSz), |buf|)
    requires Kept(buf0, buf, SegPos(exts, blkSz))
    ensures Flat(buf, SegPos(exts, blkSz), []) == Flat(buf0, SegPos(exts, blkSz), [])
  {
  }

  lemma {:induction false} FrontFlat(buf: seq<Byte>, exts: seq<Extent>, k: nat, blkSz: nat)
    requires k <= |exts| && Layout.Within(SegPos(exts, blkSz), |buf|)
    ensures Layout.Within(SegPos(exts[..k], blkSz), |buf|)
    ensures Flat(buf, SegPos(exts[..k], blkSz), []) <= Flat(buf, SegPos(exts, blkSz), [])
  {
    hide SegPos;
    assert exts == exts[..k] + exts[k..];
    SegPosAppend(exts[..k], exts[k..], blkSz);
    AtFront(buf, SegPos(exts[..k], blkSz), SegPos(exts[k..], blkSz));
  }

  lemma {:induction false} AtFront(buf: seq<Byte>, p: seq<nat>, q: seq<nat>)
    requires Layout.Within(p + q, |buf|)
    ensures Layout.Within(p, |buf|) && Flat(buf, p, []) <= Flat(buf, p + q, [])
  {
    forall k | 0 <= k < |p|
      ensures p[k] < |buf|
    {
      assert (p + q)[k] == p[k];
    }
    assert forall k :: 0 <= k < |p| ==> At(buf, p)[k] == At(buf, p + q)[k];
  }

  lemma {:induction false} SomeExtent(sg: Segment)
    ensures |sg.raw| < sg.DataSpaceSize() ==> sg.exts != []
  {
  }

  /** The bytes of a segment whose end was taken off. */
  lemma {:induction false} TakenOff(buf0: seq<Byte>, buf1: seq<Byte>, exts: seq<Extent>, keep: nat, raw: seq<Byte>,
      blkSz: nat)
    requires keep <= |exts| && Layout.Within(SegPos(exts, blkSz), |buf0|)
        && Layout.Within(SegPos(exts[..keep], blkSz), |buf1|)
    requires Kept(buf0, buf1, SegPos(exts[..keep], blkSz))
    ensures var flat0 := Flat(buf0, SegPos(exts, blkSz), raw);
            var n := |SegPos(exts[..keep], blkSz)|;
            n <= |flat0| && flat0[..n] == Flat(buf1, SegPos(exts[..keep], blkSz), [])
  {
    hide SegPos;
    assert exts == exts[..keep] + exts[keep..];
    SegPosAppend(exts[..keep], exts[keep..], blkSz);
    FlatFront(buf0, buf1, SegPos(exts[..keep], blkSz), SegPos(exts[keep..], blkSz), raw, []);
  }

  /** The bytes at the positions p, before others in one view and alone in another. */
  lemma {:induction false} FlatFront(buf0: seq<Byte>, buf1: seq<Byte>, p: seq<nat>, q: seq<nat>, raw0: seq<Byte>,
      raw1: seq<Byte>)
    requires Layout.Within(p + q, |buf0|) && Layout.Within(p, |buf1|) && Kept(buf0, buf1, p)
    ensures |p| <= |Flat(buf0, p + q, raw0)| && Flat(buf0, p + q, raw0)[..|p|] == Flat(buf1, p, raw1)[..|p|]
  {
    var f, g := Flat(buf0, p + q, raw0)[..|p|], Flat(buf1, p, raw1)[..|p|];
    forall k | 0 <= k < |p|
      ensures f[k] == g[k]
    {
      assert (p + q)[k] == p[k];
    }
  }

  lemma {:induction false} FlatIs(arr: BlockArray, sg: Segment)
    requires Mounted(arr, sg)
    ensures Layout.Within(SegPos(sg.exts, sg.blkSz), |arr.buf|)
        && |SegPos(sg.exts, sg.blkSz)| == DataSizes(sg.exts, sg.blkSz)
    ensures FlatOf(arr, sg) == Flat(arr.buf, SegPos(sg.exts, sg.blkSz), sg.raw)
  {
    MountedPositions(arr, sg);
  }

  /** The bytes of a segment that was extended begin with those it had. */
  lemma {:induction false} Joined(buf0: seq<Byte>, buf1: seq<Byte>, exts: seq<Extent>, more: seq<Extent>,
      raw: seq<Byte>, blkSz: nat)
    requires Layout.Within(SegPos(exts, blkSz), |buf0|) && Layout.Within(SegPos(exts + more, blkSz), |buf1|)
    requires Kept(buf0, buf1, SegPos(exts, blkSz))
    ensures var n := |SegPos(exts, blkSz)|;
            && n <= |SegPos(exts + more, blkSz)|
            && Flat(buf1, SegPos(exts + more, blkSz), raw)[..n] == Flat(buf0, SegPos(exts, blkSz), [])
    ensures DataSizes(exts + more, blkSz) == DataSizes(exts, blkSz) + DataSizes(more, blkSz)
  {
    hide SegPos;
    SegPosAppend(exts, more, blkSz);
    FlatBack(buf0, buf1, SegPos(exts, blkSz), SegPos(more, blkSz), raw);
  }

  lemma {:induction false} FlatBack(buf0: seq<Byte>, buf1: seq<Byte>, p: seq<nat>, q: seq<nat>, raw: seq<Byte>)
    requires Layout.Within(p, |buf0|) && Layout.Within(p + q, |buf1|) && Kept(buf0, buf1, p)
    ensures |p| <= |Flat(buf1, p + q, raw)| && Flat(buf1, p + q, raw)[..|p|] == Flat(buf0, p, [])
  {
    forall k | 0 <= k < |p|
      ensures Flat(buf1, p + q, raw)[k] == Flat(buf0, p, [])[k]
    {
      assert (p + q)[k] == p[k];
    }
  }


  lemma {:induction false} OverPrefix(flat: seq<Byte>, at: nat, saved: seq<Byte>)
    requires at + |saved| <= |flat|
    ensures Over(flat, at, saved)[..at + |saved|] == flat[..at] + saved
  {
  }

  ghost predicate AllWithin(hs: seq<Holding>, blkSz: nat, n: nat) {
    forall i :: 0 <= i < |hs| ==> Layout.Within(SegPos(hs[i].exts, blkSz), n)
  }

  ghost predicate ApartFrom(hs: seq<Holding>, ix: nat, blkSz: nat)
    requires ix < |hs|
  {
    forall j :: 0 <= j < |hs| && j != ix ==> Apart(SegPos(hs[ix].exts, blkSz), SegPos(hs[j].exts, blkSz))
  }

  /** Whatever is written to one segment leaves the others alone. */
  lemma {:induction false} UntouchedKeeps(hs: seq<Holding>, ix: nat, blkSz: nat, buf0: seq<Byte>, buf: seq<Byte>)
    requires ix < |hs| && AllWithin(hs, blkSz, |buf0|) && ApartFrom(hs, ix, blkSz)
    requires Untouched(buf0, buf, SegPos(hs[ix].exts, blkSz))
    ensures AllKept(hs[..ix] + hs[ix + 1..], blkSz, buf0, buf)
  {
    hide SegPos, Apart, Kept;
    var others := hs[..ix] + hs[ix + 1..];
    forall i | 0 <= i < |others|
      ensures Kept(buf0, buf, SegPos(others[i].exts, blkSz))
    {
      var j := if i < ix then i else i + 1;
      assert others[i] == hs[j];
      KeptElsewhere(buf0, buf, SegPos(hs[ix].exts, blkSz), SegPos(hs[j].exts, blkSz));
    }
  }

  lemma {:induction false} PrefixKeepsAll(hs: seq<Holding>, blkSz: nat, buf0: seq<Byte>, buf: seq<Byte>)
    requires AllWithin(hs, blkSz, |buf0|) && buf0 <= buf
    ensures AllKept(hs, blkSz, buf0, buf)
  {
    hide SegPos, Kept;
    forall i | 0 <= i < |hs|
      ensures Kept(buf0, buf, SegPos(hs[i].exts, blkSz))
    {
      KeptByPrefix(buf0, buf, SegPos(hs[i].exts, blkSz));
    }
  }

  lemma {:induction false} ShorterKeepsAll(hs: seq<Holding>, blkSz: nat, buf0: seq<Byte>, buf: seq<Byte>)
    requires AllWithin(hs, blkSz, |buf|) && buf <= buf0
    ensures AllKept(hs, blkSz, buf0, buf)
  {
    forall i | 0 <= i < |hs|
      ensures Kept(buf0, buf, SegPos(hs[i].exts, blkSz))
    {
      KeptByPrefix(buf0, buf, SegPos(hs[i].exts, blkSz));
    }
  }

  lemma {:induction false} CopyMounted(arr: BlockArray, segm: Segment, sg: Segment)
    requires Mounted(arr, segm) && sg.Valid() && sg.View() == segm.View() && sg.blkSz == segm.blkSz
    ensures Mounted(arr, sg)
  {
  }

  lemma {:induction false} ArrayMounted(arr: BlockArray, sg: Segment)
    requires Mounted(arr, sg)
    ensures arr.Valid() && sg.Valid()
  {
  }

  lemma {:induction false} SumsOfView(segm: Segment)
    ensures SumsOf(segm.View().exts, segm.View().inlineSz, segm.blkSz)
         == Sums(segm.DataSpaceSize(), FullBlks(segm.exts), SubBlks(segm.exts), |segm.exts|, |segm.raw|)
  {
  }

  /** The extents are the chunks from the last down to number n. */
  ghost predicate IsTail(s: seq<FreeMaps.Chunk>, n: nat, exts: seq<Extent>) {
    && n + |exts| == |s|
    && forall k :: 0 <= k < |exts| ==> exts[k] == Full(s[|s| - 1 - k].nr, s[|s| - 1 - k].cnt)
  }

  lemma {:induction false} OneMoreOfTail(s: seq<FreeMaps.Chunk>, n: nat, exts: seq<Extent>)
    requires IsTail(s, n, exts) && 0 < n <= |s|
    ensures IsTail(s, n - 1, exts + [Full(s[n - 1].nr, s[n - 1].cnt)])
  {
  }

  /** Releasing the last chunks leaves the others. */
  lemma {:induction false} TailReleased(s: seq<FreeMaps.Chunk>, n: nat, exts: seq<Extent>, t: seq<FreeMaps.Chunk>,
      done: nat)
    requires FreeMaps.WellSized(s) && FreeMaps.Ascending(s) && IsTail(s, n, exts)
        && FreeMaps.LessThose(s, t, exts, done)
    requires FreeMaps.WellSized(t) && FreeMaps.Ascending(t)
    requires done < |exts| ==> exts[done].Full? && FreeMaps.Chunk(exts[done].nr, exts[done].cnt) !in t
    ensures done == |exts| && t == s[..n]
  {
    hide IsTail, FreeMaps.LessThose;
    LeftElements(s, n, exts, t, done);
    var left := s[..|s| - done];
    FreeMaps.SameChunks(left, t);
    if done < |exts| {
      NextLeft(s, n, exts, done);
    }
  }

  lemma {:induction false} LeftElements(s: seq<FreeMaps.Chunk>, n: nat, exts: seq<Extent>, t: seq<FreeMaps.Chunk>,
      done: nat)
    requires FreeMaps.WellSized(s) && FreeMaps.Ascending(s) && IsTail(s, n, exts)
        && FreeMaps.LessThose(s, t, exts, done)
    ensures n + |exts| == |s| && done <= |exts|
    ensures forall c :: c in s[..|s| - done] <==> c in t
  {
    hide FreeMaps.Ascending, FreeMaps.WellSized;
    FreeMaps.StrictOfAscending(s);
    var left := s[..|s| - done];
    forall c
      ensures c in left <==> c in s && Full(c.nr, c.cnt) !in exts[..done]
    {
      if c in s {
        var i :| 0 <= i < |s| && s[i] == c;
        IsLeft(s, n, exts, done, i);
      }
    }
  }

  lemma {:induction false} IsLeft(s: seq<FreeMaps.Chunk>, n: nat, exts: seq<Extent>, done: nat, i: nat)
    requires FreeMaps.StrictNr(s) && IsTail(s, n, exts) && done <= |exts| && i < |s|
    ensures s[i] in s[..|s| - done] <==> Full(s[i].nr, s[i].cnt) !in exts[..done]
  {
    var left := s[..|s| - done];
    if i < |left| {
      assert left[i] == s[i];
      forall k | 0 <= k < done
        ensures s[i].nr < exts[k].nr
      {
        assert s[i].nr < s[|s| - 1 - k].nr;
      }
    } else {
      assert exts[..done][|s| - 1 - i] == Full(s[i].nr, s[i].cnt);
      forall k | 0 <= k < |left|
        ensures left[k].nr < s[i].nr
      {
      }
    }
  }

  lemma {:induction false} NextLeft(s: seq<FreeMaps.Chunk>, n: nat, exts: seq<Extent>, done: nat)
    requires IsTail(s, n, exts) && done < |exts|
    ensures exts[done].Full? && FreeMaps.Chunk(exts[done].nr, exts[done].cnt) in s[..|s| - done]
  {
    var k := |s| - 1 - done;
    assert s[..|s| - done][k] == s[k];
  }

  ghost predicate IsInUse(owned: seq<Extent>, blk: nat) {
    exists bit: nat :: bit < 16 && Covers(owned, blk, bit) == 1
  }

  /** An empty array is balanced. */
  lemma {:induction false} NothingInUse(begin: nat, blkSz: nat)
    ensures Balanced(Space([], map[], 0, begin, begin), [])
    ensures Exts([]) + [] == [] && Tally([], blkSz) == Sums(0, 0, 0, 0, 0)
  {
  }

  /** If no free chunk ends where the space ends, its last block is in use. */
  lemma {:induction false} LastBlockInUse(sp: Space, owned: seq<Extent>)
    requires Balanced(sp, owned) && NoneWhole(sp.subs) && TailCnt(sp.free, sp.pastEnd) == 0
    ensures sp.begin < sp.pastEnd ==> IsInUse(owned, sp.pastEnd - 1)
  {
    if sp.begin < sp.pastEnd {
      var blk := sp.pastEnd - 1;
      NoFreeTail(sp, owned);
      var bit :| bit in ALL_BITS && (blk in sp.subs ==> bit !in sp.subs[blk]);
      OneOwner(sp, owned, blk, bit);
    }
  }

  lemma {:induction false} NoFreeTail(sp: Space, owned: seq<Extent>)
    requires Balanced(sp, owned) && TailCnt(sp.free, sp.pastEnd) == 0 && sp.begin < sp.pastEnd
    ensures FreeMaps.Cover(sp.free, sp.pastEnd - 1) == 0
  {
    var blk := sp.pastEnd - 1;
    FreeMaps.CoverPositive(sp.free, blk);
    BalancedBelow(sp, owned);
    forall i | 0 <= i < |sp.free|
      ensures sp.free[i].PastEnd() <= blk
    {
      var k := |sp.free| - 1;
      SizeBound(sp.free, k);
      assert i < k ==> sp.free[i].PastEnd() <= sp.free[k].nr;
    }
  }

  /** The blocks all of whose sub-blocks are free. */
  ghost function WholeBlks(m: SubBlockFreeMaps.BitsOf): set<nat> {
    set nr | nr in m && m[nr] == ALL_BITS
  }

  lemma {:induction false} LastBin(bins: seq<SubBlockFreeMaps.BitsOf>, m: SubBlockFreeMaps.BitsOf)
    requires SubBlockFreeMaps.Binned(bins, m)
    ensures |bins| == 16 && bins[15].Keys == WholeBlks(m)
  {
    assert SubBlockFreeMaps.IsBin(bins[15], m, 15);
    forall nr | nr in m
      ensures |m[nr]| == 16 <==> m[nr] == ALL_BITS
    {
      BitsBounded(m[nr]);
    }
  }

  ghost predicate TodoAndDone(todo: set<nat>, gone: set<nat>, all: set<nat>) {
    todo !! gone && todo + gone == all
  }

  lemma {:induction false} NothingMoved(all: set<nat>)
    ensures TodoAndDone(all, {}, all) && forall gone :: TodoAndDone({}, gone, all) ==> gone == all
  {
  }

  lemma {:induction false} MoveOver(todo: set<nat>, gone: set<nat>, all: set<nat>, nr: nat)
    requires TodoAndDone(todo, gone, all) && nr in todo
    ensures nr in all && nr !in gone && TodoAndDone(todo - {nr}, gone + {nr}, all)
  {
  }

  /** The extents are the blocks `gone`, each once. */
  ghost predicate DistinctNumbers(exts: seq<Extent>, gone: set<nat>) {
    && |exts| == |gone| && (forall e :: e in exts ==> e.Full? && e.cnt == 1)
    && (forall nr :: nr in gone <==> Full(nr, 1) in exts)
    && (forall i, j :: 0 <= i < j < |exts| ==> exts[i].nr != exts[j].nr)
  }

  lemma {:induction false} NothingReclaimed(m: SubBlockFreeMaps.BitsOf)
    ensures DistinctNumbers([], {}) && m - {} == m
  {
  }

  lemma {:induction false} OneMoreReclaimed(exts: seq<Extent>, gone: set<nat>, nr: nat)
    requires DistinctNumbers(exts, gone) && nr !in gone
    ensures DistinctNumbers(exts + [Full(nr, 1)], gone + {nr})
  {
    forall i | 0 <= i < |exts|
      ensures exts[i].nr != nr
    {
      assert exts[i] in exts;
    }
  }

  /** Wholly free blocks can all be released. */
  lemma {:induction false} AllReclaimed(exts: seq<Extent>, gone: set<nat>, m: SubBlockFreeMaps.BitsOf)
    requires DistinctNumbers(exts, gone) && gone == WholeBlks(m)
    ensures |exts| == |gone| && SubBlockFreeMaps.Numbers(exts[..|exts|]) == gone && NoneWhole(m - gone)
    ensures forall e :: e in exts ==> e.Full?
    ensures forall k :: 0 <= k < |exts| ==>
              exts[k].cnt == 1 && exts[k].nr !in SubBlockFreeMaps.Numbers(exts[..k]) && exts[k].nr in m && m[exts[k].nr]
                  == ALL_BITS
  {
    assert exts[..|exts|] == exts;
    forall k | 0 <= k < |exts|
      ensures exts[k].cnt == 1 && exts[k].nr in gone
    {
      assert exts[k] in exts && exts[k] == Full(exts[k].nr, 1);
    }
  }

  // -- helpers of the initialization --

  lemma {:induction false} SharedBit(taken: SubBlockFreeMaps.BitsOf, s: seq<Extent>, i: nat)
    requires i < |s| && IsTaken(taken, s[..i]) && s[i].Sub? && s[i].nr in taken && taken[s[i].nr] * s[i].bits != {}
    ensures !Disjoint(s)
  {
    var bit :| bit in taken[s[i].nr] * s[i].bits;
    TakenTwice(taken, s, i, bit);
  }

  lemma {:induction false} NoSharedBit(a: Bitmap, b: Bitmap)
    requires a * b == {}
    ensures a !! b
  {
    assert forall i :: i in a && i in b ==> i in a * b;
  }

  lemma {:induction false} NoBlocks()
    ensures AreBlocks([], {})
  {
  }

  lemma {:induction false} FullsNone(all: seq<Extent>)
    ensures Fulls(all[..0]) == []
  {
  }

  lemma {:induction false} FullsNext(all: seq<Extent>, i: nat)
    requires i < |all|
    ensures Fulls(all[..i + 1]) == if all[i].Full? then Fulls(all[..i]) + [all[i]] else Fulls(all[..i])
    ensures forall x :: x in Fulls(all[..i]) ==> x in all[..i]
  {
    assert all[..i + 1] == all[..i] + [all[i]];
    FullsAppend(all[..i], [all[i]]);
    FullsElements(all[..i]);
    assert Fulls([all[i]]) == if all[i].Full? then [all[i]] else [];
  }

  lemma {:induction false} InOrder(all: seq<Extent>, s: seq<Extent>, m: SubBlockFreeMaps.BitsOf, i: nat, prev: Extent)
    requires IsMerged(all, s, m) && i < |all| && (prev in all[..i] || prev == Full(0, 0))
    ensures prev.nr <= all[i].nr
  {
    if prev in all[..i] {
      var k :| 0 <= k < i && all[k] == prev;
    }
  }

  lemma {:induction false} DisjointOfPlaceable(s: seq<Extent>, begin: nat, pastEnd: nat)
    ensures Placeable(s, begin, pastEnd) ==> Disjoint(s)
  {
  }

  lemma {:induction false} SortedSame(s: seq<Extent>, begin: nat, pastEnd: nat)
    ensures Disjoint(SortByNr(s)) <==> Disjoint(s)
    ensures Placeable(s, begin, pastEnd) ==> Disjoint(s)
    ensures Proper(SortByNr(s)) <==> Proper(s)
  {
    SortSorts(s);
    forall blk: nat, bit: nat
      ensures Covers(SortByNr(s), blk, bit) == Covers(s, blk, bit)
    {
      SortSums(s, blk, bit);
    }
  }

  lemma {:induction false} SortedTaken(m: SubBlockFreeMaps.BitsOf, s: seq<Extent>)
    requires IsTaken(m, SortByNr(s))
    ensures IsTaken(m, s)
  {
    SortSorts(s);
    SortSums(s, 0, 0);
    forall blk: nat, bit: nat | bit < 16
      ensures Covers(Subs(s), blk, bit) == SubBlockFreeMaps.Cover(m, blk, bit)
    {
      SortSums(s, blk, bit);
      KindsSums(s, blk, bit);
      KindsSums(SortByNr(s), blk, bit);
    }
  }

  lemma {:induction false} MergedProper(sorted: seq<Extent>, cuts: seq<Extent>, m: SubBlockFreeMaps.BitsOf)
    requires Proper(sorted) && AreBlocks(cuts, m.Keys)
    ensures Proper(SortByNr(sorted + cuts))
  {
    SortSorts(sorted + cuts);
  }

  lemma {:induction false} TakenNotEmpty(m: SubBlockFreeMaps.BitsOf, s: seq<Extent>)
    requires IsTaken(m, s)
    ensures NoneEmpty(m)
  {
  }

  lemma {:induction false} TallyNone(segms: seq<Holding>, blkSz: nat)
    ensures Exts(segms[..0]) == [] && Tally(segms[..0], blkSz) == Sums(0, 0, 0, 0, 0)
  {
  }

  lemma {:induction false} TallyNext(segms: seq<Holding>, i: nat, blkSz: nat)
    requires i < |segms|
    ensures Exts(segms[..i + 1]) == Exts(segms[..i]) + segms[i].exts
    ensures Tally(segms[..i + 1], blkSz) == Tally(segms[..i], blkSz).Plus(SumsOf(segms[i].exts, segms[i].inlineSz,
        blkSz))
  {
    assert segms[..i + 1] == segms[..i] + [segms[i]] + [] && segms[..i] + [] == segms[..i];
    LiveParts(segms[..i], segms[i], []);
    TallyParts(segms[..i], segms[i], [], blkSz);
  }

  lemma {:induction false} NoExtents(exts: seq<Extent>)
    ensures FullBlks(exts[..0]) == 0 && SubBlks(exts[..0]) == 0
  {
  }

  lemma {:induction false} NextExtent(exts: seq<Extent>, i: nat)
    requires i < |exts|
    ensures FullBlks(exts[..i + 1]) == FullBlks(exts[..i]) + (if exts[i].Full? then exts[i].cnt else 0)
    ensures SubBlks(exts[..i + 1]) == SubBlks(exts[..i]) + if exts[i].Sub? then |exts[i].bits| else 0
  {
    assert exts[..i + 1] == exts[..i] + [exts[i]];
    BlksAppend(exts[..i], [exts[i]]);
    OneExtent(exts[i]);
  }

  /** The ledger with one holding more. */
  lemma {:induction false} Entered(sp: Space, live: seq<Holding>, lost: seq<Extent>, h: Holding, blkSz: nat)
    requires Balanced(sp, Exts(live) + lost + h.exts)
    ensures Balanced(sp, Exts(live + [h]) + lost)
    ensures Tally(live + [h], blkSz) == Tally(live, blkSz).Plus(SumsOf(h.exts, h.inlineSz, blkSz))
  {
    hide Balanced, SumsOf;
    LiveParts(live, h, []);
    TallyParts(live, h, [], blkSz);
    assert live + [h] + [] == live + [h] && live + [] == live;
    assert Exts(live) + lost + h.exts + [] == Exts(live) + lost + h.exts;
    Reorder(sp, Exts(live), lost, h.exts, []);
    assert Exts(live) + h.exts + lost + [] == Exts(live) + h.exts + Exts([]) + lost;
  }

  lemma {:induction false} WithSubBlks(exts0: seq<Extent>, exts: seq<Extent>, blkSz: nat)
    requires |exts| == |exts0| + 1 && exts[..|exts0|] == exts0 && exts[|exts0|].Sub?
    ensures DataSizes(exts, blkSz) == DataSizes(exts0, blkSz) + Times(|exts[|exts0|].bits|, SubSz(blkSz))
  {
    var e := exts[|exts0|];
    assert exts == exts0 + [e];
    SegPosAppend(exts0, [e], blkSz);
    assert DataSizes([e], blkSz) == DataSize(e, blkSz);
  }

  /** blkCnt - remain blocks have been added to the extents exts0. */
  ghost predicate SoFar(exts0: seq<Extent>, exts: seq<Extent>, blkCnt: nat, remain: nat) {
    && remain + FullBlks(exts) == blkCnt + FullBlks(exts0) && SubBlks(exts) == SubBlks(exts0)
    && forall e :: e in exts && e !in exts0 ==> e.Full?
  }

  lemma {:induction false} SoFarNothing(exts: seq<Extent>, blkCnt: nat)
    ensures SoFar(exts, exts, blkCnt, blkCnt)
  {
  }

  lemma {:induction false} MoreSoFar(exts0: seq<Extent>, exts: seq<Extent>, e: Extent, blkCnt: nat, remain: nat)
    requires SoFar(exts0, exts, blkCnt, remain) && e.Full? && e.cnt <= remain
    ensures SoFar(exts0, exts + [e], blkCnt, remain - e.cnt)
  {
    BlksAppend(exts, [e]);
    OneExtent(e);
  }

  /** The first extent takes all it can; more follow only within the threshold. */
  predicate Few(exts: nat, frag: nat, threshold: nat, remain: nat, blkCnt: nat) {
    && exts == frag <= threshold
    && (frag == 0 ==> remain == blkCnt)
    && (frag == 1 ==> remain == blkCnt - Least(blkCnt, blkCnt))
  }

  lemma {:induction false} FewNone(threshold: nat, blkCnt: nat)
    ensures Few(0, 0, threshold, blkCnt, blkCnt)
  {
  }

  lemma {:induction false} FewMore(exts: nat, frag: nat, threshold: nat, remain: nat, blkCnt: nat, probe: nat)
    requires probe <= remain
    ensures Few(exts, frag, threshold, remain, blkCnt) && frag < threshold && probe == Least(remain, remain) ==>
              Few(exts + 1, frag + 1, threshold, remain - probe, blkCnt)
  {
  }

  lemma {:induction false} FewDone(exts: nat, frag: nat, threshold: nat, remain: nat, blkCnt: nat)
    ensures Few(exts, frag, threshold, remain, blkCnt) && threshold == 1 && 0 < blkCnt && (remain == 0 || 1 <= frag) ==>
              exts == 1 && remain == blkCnt - Least(blkCnt, blkCnt)
  {
  }

  /** How far n blocks have been allocated: whether the array may grow, and whether the extents are limited. */
  ghost predicate Progress(served: bool, grow: bool, limit: bool, threshold: nat, n: nat, remain: nat,
      frag: nat, probe: nat, exts0: seq<Extent>, added: seq<Extent>)
  {
    && SoFar(exts0, exts0 + added, n, remain) && remain <= n && (n == 0 ==> added == [])
    && (grow ==> Least(remain, remain) <= probe)
    && (limit && exts0 == [] ==> |added| <= frag <= threshold)
    && (limit && exts0 == [] && grow ==> Few(|added|, frag, threshold, remain, n))
    && (served ==>
          if remain == 0 then |added| == 1
          else remain == n <= probe && n <= MAX_BLK_CNT && added == [] && (frag < threshold || !limit))
  }

  lemma {:induction false} ProgressStart(served: bool, grow: bool, limit: bool, threshold: nat, n: nat,
      exts0: seq<Extent>)
    requires served ==> 0 < n <= MAX_BLK_CNT && (FragOf(exts0) < threshold || !limit)
    ensures Progress(served, grow, limit, threshold, n, n, FragOf(exts0), MAX_BLK_CNT, exts0, [])
  {
    assert exts0 + [] == exts0;
    SoFarNothing(exts0, n);
    FewNone(threshold, n);
  }

  lemma {:induction false} ProgressAsk(served: bool, grow: bool, limit: bool, threshold: nat, n: nat, remain: nat,
      frag: nat, probe: nat, exts0: seq<Extent>, added: seq<Extent>)
    requires Progress(served, grow, limit, threshold, n, remain, frag, probe, exts0, added) && 0 < remain && 0 < probe
    ensures Least(probe, remain) <= Least(n, n) && (grow ==> Least(probe, remain) == Least(remain, remain))
    ensures SoFar(exts0, exts0 + added, n, remain) && 0 < n && (limit && exts0 == [] ==> |added| <= threshold)
    ensures served ==> Least(probe, remain) == n
  {
    hide SoFar, Few;
    LeastIs(probe, remain);
    LeastLess(remain, n);
  }

  /** After one more extent, or a failure: with growth the request is repeated, else it is lowered. */
  lemma {:induction false} ProgressStep(served: bool, grow: bool, limit: bool, threshold: nat, n: nat, remain: nat,
      frag: nat, probe: nat, exts0: seq<Extent>, added: seq<Extent>, result: FreeMaps.AllocResult)
    requires Progress(served, grow, limit, threshold, n, remain, frag, probe, exts0, added)
    requires 0 < remain && 0 < probe && (frag < threshold || !limit)
    requires if result.Allocated? then result.ext.Full? && result.ext.cnt == Least(probe, remain) else !served
    ensures var ask := Least(probe, remain);
            if result.Allocated? then
              Progress(served, grow, limit, threshold, n, remain - ask, frag + 1, ask, exts0, added + [result.ext])
            else
              && Progress(served, grow, limit, threshold, n, remain, frag, ask, exts0, added)
              && (!grow ==> Progress(served, grow, limit, threshold, n, remain, frag + 1, result.cnt, exts0, added))
  {
    hide SoFar, Few;
    var ask := Least(probe, remain);
    LeastIs(probe, remain);
    LeastLess(remain - ask, remain);
    if result.Allocated? {
      MoreSoFar(exts0, exts0 + added, result.ext, n, remain);
      assert exts0 + added + [result.ext] == exts0 + (added + [result.ext]);
      FewMore(|added|, frag, threshold, remain, n, ask);
    }
  }

  lemma {:induction false} ProgressEnd(served: bool, grow: bool, limit: bool, threshold: nat, n: nat, remain: nat,
      frag: nat, probe: nat, exts0: seq<Extent>, added: seq<Extent>)
    requires Progress(served, grow, limit, threshold, n, remain, frag, probe, exts0, added)
    ensures SoFar(exts0, exts0 + added, n, remain) && (n == 0 ==> added == [])
    ensures limit && exts0 == [] ==> |added| <= threshold
    ensures limit && exts0 == [] && grow && threshold == 1 && 0 < n && (remain == 0 || threshold <= frag) ==>
              |added| == 1 && remain == n - Least(n, n)
    ensures served && (remain == 0 || (limit && threshold <= frag)) ==> remain == 0 && |added| == 1
  {
    FewDone(|added|, frag, threshold, remain, n);
  }

  lemma {:induction false} ServedIsUsable(s: seq<FreeMaps.Chunk>, n: nat, splitAbove: nat, ext: Extent,
      t: seq<FreeMaps.Chunk>)
    requires FreeMaps.BestFit(s, n, splitAbove, ext, t)
    ensures !FreeMaps.NoneUsable(s, n, splitAbove)
  {
    var i :| 0 <= i < |s| && s[i].nr == ext.nr && FreeMaps.Usable(s[i], n, splitAbove) && t == FreeMaps.Taken(s, i, n);
    assert s[i] in s;
  }

  /** The chunk that an allocation was served from. */
  lemma {:induction false} ServedFrom(s: seq<FreeMaps.Chunk>, n: nat, splitAbove: nat, ext: Extent,
      t: seq<FreeMaps.Chunk>) returns (i: nat)
    requires FreeMaps.BestFit(s, n, splitAbove, ext, t)
    ensures i < |s| && n <= s[i].cnt && ext == Full(s[i].nr, n) && t == FreeMaps.Taken(s, i, n)
  {
    i :| 0 <= i < |s| && s[i].nr == ext.nr && FreeMaps.Usable(s[i], n, splitAbove) && t == FreeMaps.Taken(s, i, n);
  }
}
