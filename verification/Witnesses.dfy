/** Runs of the code in which a property fails, from an empty array on, and runs that show which choice it makes. */
module Witnesses {
  import opened Outcomes
  import opened Extents
  import opened Layout
  import opened Products
  import opened BlockArrays
  import opened Requests
  import opened Segments
  import opened SegmentIo
  import opened Ownership
  import opened Ledger
  import opened Complement
  import opened SegmentAllocators
  import opened Splitting
  import opened Geometry
  import opened ContentParts
  import opened SegmentBlockArrays
  import opened Reuse
  import FreeMaps

  /** What an allocator is asked for unless it is told otherwise (xoz/alloc/segment_allocator.h). */
  const XOZ_DEFAULT_REQ := Req(2, 8, true, false)

  // ---------------------------------------------------------------------------------------------
  // Small arrays can grow
  // ---------------------------------------------------------------------------------------------

  ghost predicate Small(sa: SegmentAllocator) {
    (sa.arr.blkSz == 512 || sa.arr.blkSz == 64) && !sa.arr.overAllocate && sa.fr.splitAbove == 0
  }

  lemma {:induction false} SmallReaches(sa: SegmentAllocator, end: nat)
    requires Small(sa) && end <= 10000
    ensures sa.arr.CanReach(end)
  {
    TimesIsProduct(end, sa.arr.blkSz);
  }

  lemma {:induction false} SmallGrowth(sz: nat, req: Req, blkSz: nat)
    requires GoodBlkSz(blkSz) && !req.Bad(blkSz) && sz / blkSz < 10000
    ensures WorstGrown(sz, req, blkSz, 0) <= sz / blkSz + 4
  {
    hide WorstGrown;
    WorstBound(sz, req, blkSz, 0);
    TimesIsProduct(Pieces(sz / blkSz + 1), 1);
  }

  /** A request that is not too large for them is met. */
  lemma {:induction false} SmallGrants(sa: SegmentAllocator, sz: nat, req: Req)
    requires Small(sa) && sa.WellAsked(sz, req) && 0 < sz && sa.arr.pastEnd + sz / sa.arr.blkSz + 4 <= 10000
    ensures sa.Granted(sz, req) && sa.MayGrow(sz, req) <= sz / sa.arr.blkSz + 4
  {
    hide Reaches, WorstGrown;
    SmallGrowth(sz, req, sa.arr.blkSz);
    SmallReaches(sa, sa.arr.pastEnd + WorstGrown(sz, req, sa.arr.blkSz, 0));
    sa.AffordsGrants(sz, req);
  }

  lemma {:induction false} DefaultAsked(sa: SegmentAllocator, sz: nat)
    requires sa.arr.blkSz == 512
    ensures sa.WellAsked(sz, XOZ_DEFAULT_REQ)
  {
  }

  /** So is a resize of a part. */
  lemma {:induction false} SmallSucceeds(sa: SegmentAllocator, part: ContentPart, newSz: nat)
    requires Small(sa) && sa.arr.blkSz == 512 && part.segm.blkSz == 512 && part.futureCsize <= part.csize
    requires var total := newSz + part.futureCsize;
             total <= MAX_CSIZE && sa.arr.pastEnd + 2 * (total / 512 + 4) <= 10000
    ensures part.Succeeds(sa, XOZ_DEFAULT_REQ, newSz)
    ensures part.MayGrow(sa, XOZ_DEFAULT_REQ, newSz) <= 2 * ((newSz + part.futureCsize) / 512 + 4)
  {
    hide Reaches, SegmentAllocator.WellAsked, WorstGrown, Requested, SegmentAllocator.MayGrow;
    var total := newSz + part.futureCsize;
    DefaultAsked(sa, part.futureCsize);
    DefaultAsked(sa, newSz);
    DefaultAsked(sa, part.Need(total, 512));
    if part.csize == 0 {
      if 0 < newSz { SmallGrants(sa, newSz, XOZ_DEFAULT_REQ); }
    } else {
      RequestedBound(part.segm.exts, |part.segm.raw|, total, 512);
      SmallGrowth(part.Need(total, 512), XOZ_DEFAULT_REQ, 512);
      SmallGrowth(part.futureCsize, XOZ_DEFAULT_REQ, 512);
      SmallReaches(sa, sa.arr.pastEnd + part.Cost(sa, XOZ_DEFAULT_REQ, total));
    }
  }

  // ---------------------------------------------------------------------------------------------
  // Hidden bytes are lost
  // ---------------------------------------------------------------------------------------------

  /** A segment of 100 bytes that is resized to 110 bytes gets 128. */
  lemma {:induction false} PaddedTo128(exts: seq<Extent>, inlineSz: nat)
    requires DataSizes(exts, 512) + inlineSz == 100
    ensures SizeAfter(exts, inlineSz, 110, XOZ_DEFAULT_REQ, 512) == 128
  {
    hide Staying, Times, DataSizes, FullBlks, SubBlks, Trim, AllocSize;
    var front := Staying(exts);
    StayingSize(exts, 512);
    DataSizesBlks(front, 512);
    TimesIsProduct(FullBlks(front), 512);
    TimesIsProduct(SubBlks(front), 32);
    assert SubSz(512) == 32;
    var kept := DataSizes(front, 512);
    assert kept == 32 * (16 * FullBlks(front) + SubBlks(front));
    Padded(kept, 16 * FullBlks(front) + SubBlks(front));
  }

  lemma {:induction false} Padded(kept: nat, subs: nat)
    requires kept == 32 * subs && kept <= 100
    ensures kept + AllocSize(110 - kept, XOZ_DEFAULT_REQ, 512) == 128
  {
    assert (110 - kept) % 32 == 14;
  }

  lemma {:induction false} LooksAtPadding(flat0: seq<Byte>, flat: seq<Byte>)
    requires flat0 == Marked(100, 80) && |flat| == 128 && Resized(flat0, flat, 100, 110, 20)
    ensures flat[90] == 0 && flat[108] == 1
  {
    var more := flat[100..];
    assert Future(flat0, 100, 20)[0] == 1;
  }

  lemma {:induction false} HundredExactly()
    ensures AllocSize(100, XOZ_DEFAULT_REQ, 512) == 100
  {
  }

  lemma {:induction false} WholeOver(flat: seq<Byte>, data: seq<Byte>)
    requires |flat| == |data|
    ensures Over(flat, 0, data) == data
  {
  }

  /** A new part of 100 bytes: zeros, but for a one in front of the last 20. */
  method NewPart(sa: SegmentAllocator) returns (part: ContentPart)
    requires sa.Valid() && Small(sa) && sa.arr.blkSz == 512 && sa.arr.pastEnd == 0
    modifies sa, sa.fr, sa.sub, sa.arr
    ensures fresh(part) && fresh(part.segm) && part.Valid(sa) && part.csize == 100 && part.futureCsize == 0
    ensures part.Bytes(sa) == Marked(100, 80) && sa.arr.pastEnd <= 8
  {
    hide SegmentAllocator.Valid, Mounted, FlatOf, Resized, SizeAfter, AllocSize, DataSizes, SegPos, Over, Marked,
        AllKept, SegmentAllocator.Refuses, Future, ContentPart.Safe, ContentPart.SizeWith, ContentPart.Theirs,
        ContentPart.Succeeds, ContentPart.MayGrow;
    HundredExactly();
    part := new ContentPart(512);
    SmallSucceeds(sa, part, 100);
    var first := part.Resize(sa, XOZ_DEFAULT_REQ, 100);
    sa.LiveSize(part.segm, part.ix);
    WholeOver(part.Bytes(sa), Marked(100, 80));
    sa.RestoreLive(part.segm, 0, Marked(100, 80), part.ix);
  }

  /** What is hidden after a resize to 90 present bytes. */
  method ResizeTo90(sa: SegmentAllocator, part: ContentPart) returns (seen: seq<Byte>)
    requires part.Valid(sa) && Small(sa) && sa.arr.blkSz == 512 && sa.arr.pastEnd <= 8
    requires part.csize == 100 && part.futureCsize == 20 && part.Bytes(sa) == Marked(100, 80)
    modifies part, part.segm, sa, sa.fr, sa.sub, sa.arr
    ensures |seen| == 20 && seen[0] == 0 && seen[18] == 1
  {
    hide SegmentAllocator.Valid, Mounted, FlatOf, Resized, SizeAfter, AllocSize, DataSizes, SegPos, Marked, AllKept,
        SegmentAllocator.Refuses, Future, ContentPart.Safe, ContentPart.Theirs, ContentPart.Succeeds,
        ContentPart.MayGrow;
    PaddedTo128(part.segm.exts, |part.segm.raw|);
    ghost var flat0 := part.Bytes(sa);
    SmallSucceeds(sa, part, 90);
    var again := part.Resize(sa, XOZ_DEFAULT_REQ, 90);
    sa.LiveSize(part.segm, part.ix);
    LooksAtPadding(flat0, part.Bytes(sa));
    seen := ReadFrom(sa.arr, part.segm, 90, 20);
  }

  /**
   * A part of 100 bytes, the last 20 of them hidden, is resized from 80 to 90 present bytes. The hidden bytes were a
   * one and 19 zeros; of the bytes that are hidden afterwards the first is zero and the one is number 18.
   */
  method LoseHidden() returns (before: seq<Byte>, after: seq<Byte>)
    ensures before == Marked(20, 0)
    ensures |after| == 20 && after[0] == 0 && after[18] == 1
  {
    hide SegmentAllocator.Valid, Mounted, FlatOf, DataSizes, SegPos, Marked;
    var sa := Started(512);
    var part := NewPart(sa);
    part.futureCsize := 20;
    sa.LiveSize(part.segm, part.ix);
    before := ReadFrom(sa.arr, part.segm, 80, 20);
    after := ResizeTo90(sa, part);
    MarkOfPart();
  }

  lemma {:induction false} MarkOfPart()
    ensures Marked(100, 80)[80..80 + 20] == Marked(20, 0)
  {
  }

  lemma {:induction false} NoneSucceeds(sa: SegmentAllocator, part: ContentPart)
    requires 0 < sa.arr.blkSz && part.futureCsize == 0
    ensures part.Succeeds(sa, XOZ_DEFAULT_REQ, 0)
  {
  }

  lemma {:induction false} SizeOfOne(h: Holding, blkSz: nat)
    ensures DataSizes(Exts([h]), blkSz) + Inlined([h]) == SizeOf(h, blkSz)
  {
    assert [h][0] == h && [h][1..] == [];
    assert Exts([h]) == h.exts + Exts([]) && Inlined([h]) == h.inlineSz + Inlined([]);
    assert Exts([]) == [] && h.exts + [] == h.exts;
  }

  lemma {:induction false} MebiByteExactly()
    ensures AllocSize(0x10_0000, XOZ_DEFAULT_REQ, 512) == 0x10_0000
  {
  }

  /** A part of which all but 100 bytes are hidden loses these 100. */
  method ParkAway(sa: SegmentAllocator) returns (part: ContentPart)
    requires sa.Valid() && Small(sa) && sa.arr.blkSz == 512 && sa.arr.pastEnd == 0 && sa.live == []
    modifies sa, sa.fr, sa.sub, sa.arr
    ensures fresh(part) && fresh(part.segm) && part.Valid(sa) && part.csize == part.futureCsize == 0x10_0000
    ensures |part.Theirs(sa)| == 1 && SizeOf(part.Theirs(sa)[0], 512) == 0x10_0000
  {
    hide SegmentAllocator.Valid, Mounted, FlatOf, Resized, SizeAfter, AllocSize, DataSizes, SegPos, AllKept,
        SegmentAllocator.Refuses, Future, SizeOf, ContentPart.Safe, ContentPart.SizeWith, ContentPart.Succeeds,
        ContentPart.MayGrow;
    MebiByteExactly();
    part := new ContentPart(512);
    SmallSucceeds(sa, part, 0x10_0064);
    var first := part.Resize(sa, XOZ_DEFAULT_REQ, 0x10_0064);
    part.futureCsize := 0x10_0000;
    SmallSucceeds(sa, part, 0);
    var second := part.Resize(sa, XOZ_DEFAULT_REQ, 0);
  }

  /** What is in use after a part has lost the bytes in front of a mebibyte of hidden ones, and then these as well. */
  method LeakParked() returns (inUse: int)
    ensures inUse == 0x10_0000
  {
    hide SegmentAllocator.Valid, Mounted, FlatOf, Resized, SizeAfter, AllocSize, DataSizes, SegPos, AllKept,
        SegmentAllocator.Refuses, Future, SizeOf, ContentPart.Safe, ContentPart.SizeWith, ContentPart.Succeeds,
        ContentPart.MayGrow;
    var sa := Started(512);
    var part := ParkAway(sa);
    part.futureCsize := 0;
    NoneSucceeds(sa, part);
    var gone := part.Resize(sa, XOZ_DEFAULT_REQ, 0);
    assert sa.live == [sa.live[0]];
    SizeOfOne(sa.live[0], 512);
    sa.ExactStats();
    inUse := sa.inUseByUserSz;
  }

  // ---------------------------------------------------------------------------------------------
  // Blocks and extents are miscounted
  // ---------------------------------------------------------------------------------------------

  /** Without inline bytes, which a block array on a segment cannot use. */
  const TWO_BYTES_REQ := Req(2, 0, true, false)

  lemma {:induction false} TwoDivides()
    ensures AllocSize(140000, TWO_BYTES_REQ, 64) == 140000
    ensures forall exts: seq<Extent> :: Fitting(exts, true, 64, 2)
  {
    TimesIsProduct(32, 2);
    TimesIsProduct(2, 2);
  }

  /**
   * With blocks of 2 bytes, 70000 blocks are given back at once. That is refused, when the segment is empty already;
   * the array still counts them.
   */
  method GiveBackTooMany() returns (refused: bool, counted: nat, left: nat)
    ensures refused && counted == 70000 && left == 0
  {
    hide SegmentAllocator.Valid, SegmentAllocator.Refuses, DataSizes, Times, AllocSize, AllKept, OthersSame, FlatOf,
        Fitting, SegmentBlockArray.GivesBack, Trim, SegmentAllocator.Abandoned, SegmentAllocator.TooWide,
        SegmentAllocator.Granted, SegmentAllocator.MayGrow;
    var bg := Started(64);
    TwoDivides();
    SmallGrants(bg, 140000, TWO_BYTES_REQ);
    var segm := bg.Alloc(140000, TWO_BYTES_REQ);
    var a := new SegmentBlockArray(segm.value, bg, 2, TWO_BYTES_REQ, false, 0);
    TimesIsProduct(a.realEnd, 2);
    GivesAllBack(a, a.pastEnd, false);
    var shrunk := a.ShrinkByBlocks(70000);
    OneUnit(0, 2);
    refused, counted, left := shrunk.Throws?, a.realEnd, a.segm.DataSpaceSize();
  }

  lemma {:induction false} TwoBlocks()
    ensures Fitting([], false, 64, 64) && AllocSize(128, SINGLE_EXTENT, 64) == 128 && Times(1, 64) == 64
    ensures 128 <= Times(MAX_BLK_CNT, 64)
  {
    TimesIsProduct(1, 64);
    TimesIsProduct(MAX_BLK_CNT, 64);
  }

  lemma {:induction false} OneExtentOfTwo(exts: seq<Extent>)
    requires |exts| == 1 && exts[0].Full? && DataSizes(exts, 64) == 128
    ensures exts == [Full(exts[0].nr, 2)]
  {
    TimesIsProduct(exts[0].cnt, 64);
  }

  /** A shrink by one of two blocks gives nothing back; a release afterwards cuts the extent in two. */
  lemma {:induction false} OneOfTwo(a: SegmentBlockArray, nr: nat)
    requires a.pastEnd <= a.realEnd && a.fgBlkSz == 64 && a.segm.blkSz == 64 && a.segm.exts == [Full(nr, 2)]
    ensures Times(1, 64) == 64 && Trim(a.segm.exts, 64, 64) == (a.segm.exts, 64) && SplitsOne(a.segm.exts, 64, 64)
    ensures a.pastEnd == a.realEnd ==> a.GivesBack(1, false) == 0
    ensures a.pastEnd + 1 == a.realEnd ==> a.GivesBack(0, true) == 1
  {
    TimesIsProduct(1, 64);
    TimesIsProduct(2, 64);
  }

  method ReleaseOneOfTwo(a: SegmentBlockArray, ghost nr: nat)
    requires a.Valid() && a.fgBlkSz == 64 && a.bg.arr.blkSz == 64 && a.segm.exts == [Full(nr, 2)]
    requires 0 < a.pastEnd == a.realEnd
    modifies a`pastEnd, a`realEnd, a.bg, a.bg.arr`buf, a.bg.fr, a.bg.sub, a.segm`exts
    ensures a.Valid() && a.bg.live == old(a.bg.live)[a.ix := a.segm.View()] && a.bg.splits == old(a.bg.splits) + 1
  {
    hide SegmentAllocator.Valid, DataSizes, Times, OthersSame, FlatOf, Mounted, Fitting, SegmentBlockArray.GivesBack,
        SplitsOne, Trim, Trimmed;
    OneOfTwo(a, nr);
    var shrunk := a.ShrinkByBlocks(1);
    OneOfTwo(a, nr);
    var released := a.ReleaseBlocks();
  }

  /**
   * One of two blocks is released and then the other: no extent is in use, and the count of them, a 64-bit number, is
   * one less than nothing.
   */
  method ReleaseHalves() returns (count: int)
    ensures count == 0xffff_ffff_ffff_ffff
  {
    hide SegmentAllocator.Valid, SegmentAllocator.Refuses, DataSizes, Times, AllocSize, AllKept, OthersSame, FlatOf,
        Mounted, Untouched, SegPos, Multiple, SegmentAllocator.Abandoned, SegmentAllocator.TooWide,
        SegmentAllocator.NoRoom, SegmentAllocator.Granted, SegmentAllocator.MayGrow;
    var bg := Started(64);
    TwoBlocks();
    SmallGrants(bg, 128, SINGLE_EXTENT);
    var segm := bg.Alloc(128, SINGLE_EXTENT);
    OneExtentOfTwo(segm.value.exts);
    var a := new SegmentBlockArray(segm.value, bg, 64, SINGLE_EXTENT, false, 0);
    TimesIsProduct(a.realEnd, 64);
    ReleaseOneOfTwo(a, segm.value.exts[0].nr);
    bg.Dealloc(a.segm, false, 0);
    NothingCounted(bg);
    count := bg.inUseExtCnt % 0x1_0000_0000_0000_0000;
  }

  /** The same without a block array on a segment: an extent is split, its second part freed, and then the first. */
  method FreeHalves() returns (count: int)
    ensures count == 0xffff_ffff_ffff_ffff
  {
    hide SegmentAllocator.Valid, Times, AllKept, DataSizes, IsSplit, SegmentAllocator.NoRoom, SegmentAllocator.Granted,
        SegmentAllocator.MayGrow;
    var bg := Started(64);
    TwoBlocks();
    SmallGrants(bg, 128, SINGLE_EXTENT);
    var whole := bg.AllocSingleExtent(128);
    TwoBlocksCounted(whole.value);
    var front, back := Split(whole.value, 1);
    HalvesOf(whole.value, front, back);
    var second := bg.DeallocSingleExtent(back, 0, whole.value, 1, front);
    var first := bg.DeallocSingleExtent(front, 0, front, 0, Full(front.nr, 0));
    NothingCounted(bg);
    count := bg.inUseExtCnt % 0x1_0000_0000_0000_0000;
  }

  lemma {:induction false} TwoBlocksCounted(e: Extent)
    requires e.Full? && 128 <= DataSize(e, 64) < 192
    ensures e.cnt == 2
  {
    TimesIsProduct(e.cnt, 64);
  }

  lemma {:induction false} HalvesOf(e: Extent, front: Extent, back: Extent)
    requires e.Full? && e.cnt == 2 && IsSplit(e, 1, front, back)
    ensures front.Full? && !front.Empty() && !back.Empty() && IsSplit(front, 0, Full(front.nr, 0), front)
  {
  }

  lemma {:induction false} NothingCounted(bg: SegmentAllocator)
    requires bg.Valid() && bg.live == []
    ensures bg.inUseExtCnt + bg.splits == 0
  {
    hide SegmentAllocator.Holds;
    TallyNone([], bg.arr.blkSz);
  }

  lemma {:induction false} NothingPlaced()
    ensures Proper(Exts([])) && Placeable(Exts([]), 0, 0)
  {
  }

  /** An allocator that manages an empty array. */
  method Started(blkSz: nat) returns (sa: SegmentAllocator)
    requires blkSz == 512 || blkSz == 64
    ensures fresh(sa) && fresh(sa.arr) && fresh(sa.fr) && fresh(sa.sub) && sa.arr.blkSz == blkSz && Small(sa)
    ensures sa.Valid() && sa.live == [] && sa.lost == [] && sa.splits == 0 && sa.arr.pastEnd == 0
  {
    hide SegmentAllocator.Valid, Times, Placeable, Exts, Proper;
    OneUnit(0, blkSz);
    NothingPlaced();
    var arr := new BlockArray(blkSz, 0, [], false);
    sa := new SegmentAllocator(arr, true, 0);
    var r := sa.InitializeFromAllocated([]);
  }

  // ---------------------------------------------------------------------------------------------
  // Free blocks before new ones, the oldest chunk first
  // ---------------------------------------------------------------------------------------------

  /**
   * Five blocks are asked for of a map that has two free at block 4 and three at block 0. The pass fails once, takes
   * the three, and has used up a threshold of 2; for the two that are left the array does not grow.
   */
  lemma {:induction false} FiveOfTwoChunks()
    ensures var two, three := FreeMaps.Chunk(4, 2), FreeMaps.Chunk(0, 3);
            && Reused([three, two], [two, three], 5, 0, 2, 0, MAX_BLK_CNT)
               == Pass([Full(0, 3)], [two], [two], 2, 2, 3)
            && Needed([two], 7, true, 0, 2) == 0
  {
    hide Reused, FreeMaps.FirstUsable, FreeMaps.HintBelow, FreeMaps.TakenByNr, FreeMaps.TakenByCnt, Needed;
    var two, three := FreeMaps.Chunk(4, 2), FreeMaps.Chunk(0, 3);
    var s, t := [three, two], [two, three];
    TwoChunks();
    ReusedStep(s, t, 5, 0, 2, 0, MAX_BLK_CNT);
    ReusedStep(s, t, 5, 1, 2, 0, 3);
    ReusedStep([two], [two], 2, 2, 2, 0, 3);
    assert [Full(0, 3)] + [] == [Full(0, 3)];
    TwoNeeded();
  }

  lemma {:induction false} TwoChunks()
    ensures var two, three := FreeMaps.Chunk(4, 2), FreeMaps.Chunk(0, 3);
            var s, t := [three, two], [two, three];
            && FreeMaps.Coherent(s, t) && FreeMaps.FirstUsable(t, 5, 0) == 2 && FreeMaps.HintBelow(t, 5) == 3
            && FreeMaps.FirstUsable(t, 3, 0) == 1
            && FreeMaps.TakenByNr(s, 0, 3) == [two] && FreeMaps.TakenByCnt(t, 1, 3) == [two]
            && FreeMaps.Coherent([two], [two])
  {
    hide FreeMaps.FirstUsable, FreeMaps.HintBelow, FreeMaps.TakenByNr, FreeMaps.TakenByCnt, FreeMaps.SortedByCnt,
        FreeMaps.WellSized, FreeMaps.Ascending;
    var two, three := FreeMaps.Chunk(4, 2), FreeMaps.Chunk(0, 3);
    var s, t := [three, two], [two, three];
    BothIndexes(two, three);
    FreeMaps.FirstUsableIs(t, 5, 0, 2);
    FreeMaps.FirstUsableIs(t, 3, 0, 1);
    ThreeTaken(s, t);
    HintIsThree(t);
  }

  lemma {:induction false} BothIndexes(two: FreeMaps.Chunk, three: FreeMaps.Chunk)
    requires two == FreeMaps.Chunk(4, 2) && three == FreeMaps.Chunk(0, 3)
    ensures FreeMaps.Coherent([three, two], [two, three]) && FreeMaps.Coherent([two], [two])
  {
    assert multiset([three, two]) == multiset{three, two} == multiset([two, three]);
  }

  lemma {:induction false} HintIsThree(t: seq<FreeMaps.Chunk>)
    requires t == [FreeMaps.Chunk(4, 2), FreeMaps.Chunk(0, 3)]
    ensures FreeMaps.SortedByCnt(t) && FreeMaps.HintBelow(t, 5) == 3
  {
  }

  lemma {:induction false} ThreeTaken(s: seq<FreeMaps.Chunk>, t: seq<FreeMaps.Chunk>)
    requires var two, three := FreeMaps.Chunk(4, 2), FreeMaps.Chunk(0, 3); s == [three, two] && t == [two, three]
    requires FreeMaps.WellSized(s) && FreeMaps.Ascending(s) && FreeMaps.SortedByCnt(t)
    ensures FreeMaps.TakenByNr(s, 0, 3) == FreeMaps.TakenByCnt(t, 1, 3) == [FreeMaps.Chunk(4, 2)]
  {
    assert FreeMaps.LowerBoundNr(s, 0) == 0;
    assert FreeMaps.RemoveAt(s, 0) == FreeMaps.RemoveAt(t, 1) == [FreeMaps.Chunk(4, 2)];
  }

  lemma {:induction false} TwoNeeded()
    ensures Needed([FreeMaps.Chunk(4, 2)], 7, true, 0, 2) == 0
  {
    hide MostGrown;
    var two := FreeMaps.Chunk(4, 2);
    assert FreeMaps.Usable(two, 2, 0) && two in [two];
    MoreGrown(0, 0, 0);
  }

  lemma {:induction false} EnteredLast(s: seq<FreeMaps.Chunk>, t: seq<FreeMaps.Chunk>, c: FreeMaps.Chunk)
    requires FreeMaps.EnteredBehind(s, t, c) && forall j :: 0 <= j < |s| ==> s[j].cnt <= c.cnt
    ensures t == s + [c]
  {
  }

  /** The index by count after the second of two chunks of three blocks was freed. */
  lemma {:induction false} SecondOfTwo(t: seq<FreeMaps.Chunk>)
    requires var c := FreeMaps.Chunk(10, 3); FreeMaps.InOrder([c], [c], FreeMaps.Chunk(0, 3), true, t)
    ensures t == [FreeMaps.Chunk(10, 3), FreeMaps.Chunk(0, 3)] && FreeMaps.FirstUsable(t, 3, 0) == 0
  {
    var c := FreeMaps.Chunk(10, 3);
    assert FreeMaps.FreedAway([c], FreeMaps.Chunk(0, 3), true) == [];
    FreeMaps.LessNothing([c], []);
    EnteredLast([c], t, FreeMaps.Chunk(0, 3));
  }

  lemma {:induction false} FirstOfTwo(s: seq<FreeMaps.Chunk>, t: seq<FreeMaps.Chunk>)
    requires var c := FreeMaps.Chunk(10, 3); s == FreeMaps.Freed([], c, true) && FreeMaps.InOrder([], [], c, true, t)
    ensures s == t == [FreeMaps.Chunk(10, 3)]
  {
    EnteredLast([], t, FreeMaps.Chunk(10, 3));
  }

  /** Of two chunks of the size asked for the one that was freed first is taken, wherever they lie. */
  method OldestChunk() returns (e: Extent)
    ensures e == Full(10, 3)
  {
    hide FreeMaps.InOrder, FreeMaps.Freed, FreeMaps.FirstUsable, FreeMaps.TakenByNr, FreeMaps.TakenByCnt,
        FreeMaps.HintBelow, FreeMaps.Tidy, FreeMaps.BestFit;
    var fr := new FreeMaps.FreeMap(true, 0);
    var a := fr.Dealloc(Full(10, 3));
    FirstOfTwo(fr.byNr, fr.byCnt);
    var b := fr.Dealloc(Full(0, 3));
    SecondOfTwo(fr.byCnt);
    var r := fr.Alloc(3);
    e := r.value.ext;
  }
}
