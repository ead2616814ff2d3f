/**
 * A block array on the bytes of one segment of another array (xoz/blk/segment_block_array.cpp,
 * xoz/blk/block_array.cpp).
 */
module SegmentBlockArrays {
  import opened Outcomes
  import opened Extents
  import opened Layout
  import opened Products
  import opened BlockArrays
  import opened Segments
  import opened SegmentIo
  import opened Ledger
  import opened Splitting
  import opened SegmentAllocators
  import opened Requests
  import opened Geometry

  class SegmentBlockArray {
    const segm: Segment
    const bg: SegmentAllocator
    const fgBlkSz: nat
    const req: Req
    const reallocOnGrow: bool

    var pastEnd: nat
    var realEnd: nat

    /** The segment's place in the ledger of the background. */
    ghost var ix: nat

    ghost predicate Mapped()
      reads this`ix, segm, bg, bg.arr, bg.fr, bg.sub
    {
      && bg.Valid() && ix < |bg.live| && bg.live[ix] == segm.View() && segm.Valid() && segm.blkSz == bg.arr.blkSz
      && segm.raw == [] && !segm.inlinePresent
    }

    /** The blocks [0, pastEnd) are accessible, those up to realEnd exist: they are the bytes of the segment. */
    ghost predicate Valid()
      reads this, segm, bg, bg.arr, bg.fr, bg.sub
    {
      && Mapped()
      && 0 < fgBlkSz && req.maxInlineSz == 0 && Fitting(segm.exts, req.allowSuballoc, bg.arr.blkSz, fgBlkSz)
      && pastEnd <= realEnd && Times(realEnd, fgBlkSz) == segm.DataSpaceSize()
    }

    ghost function Bytes(): (flat: seq<Byte>)
      requires Mapped()
      reads this`ix, segm, bg, bg.arr, bg.fr, bg.sub
      ensures |flat| == segm.DataSpaceSize()
    {
      bg.LiveMounted(segm, ix);
      FlatOf(bg.arr, segm)
    }

    constructor (segm: Segment, bg: SegmentAllocator, fgBlkSz: nat, req: Req, reallocOnGrow: bool, ghost ix: nat)
      requires bg.Valid() && ix < |bg.live| && bg.live[ix] == segm.View() && segm.Valid() && segm.blkSz == bg.arr.blkSz
      requires segm.raw == [] && 0 < fgBlkSz && Fitting(segm.exts, req.allowSuballoc, bg.arr.blkSz, fgBlkSz)
      modifies segm`raw, segm`inlinePresent
      ensures Valid() && this.segm == segm && this.bg == bg && this.fgBlkSz == fgBlkSz && this.ix == ix
      ensures pastEnd == realEnd && this.req == req.(maxInlineSz := 0)
    {
      this.segm, this.bg, this.fgBlkSz, this.reallocOnGrow, this.ix := segm, bg, fgBlkSz, reallocOnGrow, ix;
      this.req := req.(maxInlineSz := 0);
      var cnt := segm.DataSpaceSize() / fgBlkSz;
      FittingSizes(segm.exts, req.allowSuballoc, bg.arr.blkSz, fgBlkSz);
      BlocksOf(segm.DataSpaceSize(), fgBlkSz);
      pastEnd, realEnd := cnt, cnt;
      new;
      segm.RemoveInlineData();
    }

    function BlkCnt(): nat
      reads this
    {
      pastEnd
    }

    lemma {:induction false} MappedNow()
      requires Mapped()
      ensures Mounted(bg.arr, segm) && Bytes() == FlatOf(bg.arr, segm) && segm.DataSpaceSize() <= MAX_U32
    {
      bg.LiveSize(segm, ix);
    }

    /** The bytes of the blocks of the array, and of its slack. */
    lemma {:induction false} SizesAgree()
      requires Mapped() && 0 < fgBlkSz && Fitting(segm.exts, req.allowSuballoc, bg.arr.blkSz, fgBlkSz)
      ensures Multiple(segm.DataSpaceSize(), fgBlkSz) && segm.DataSpaceSize() == DataSizes(segm.exts, bg.arr.blkSz)
    {
      FittingSizes(segm.exts, req.allowSuballoc, bg.arr.blkSz, fgBlkSz);
    }

    // -- growing --

    /** Whether cnt blocks can be added to the segment. */
    ghost predicate CanGive(cnt: nat)
      requires Mapped()
      reads this, segm, bg, bg.arr, bg.fr, bg.sub
    {
      var growSz := Times(cnt, fgBlkSz);
      && realEnd + cnt < BLK_NR_EXHAUST && growSz + req.Granule(bg.arr.blkSz) <= Times(MAX_BLK_CNT, fgBlkSz)
      && if reallocOnGrow then bg.Affords(Requested(segm.exts, 0, segm.DataSpaceSize() + growSz, segm.blkSz), req)
         else bg.Granted(growSz, req)
    }

    /**
     * The size of the segment after it was grown for cnt blocks: by a realloc of all its bytes, or by an allocation
     * that is appended.
     */
    function SizeWith(cnt: nat): nat
      reads segm
    {
      var growSz := Times(cnt, fgBlkSz);
      if reallocOnGrow then SizeAfter(segm.exts, 0, segm.DataSpaceSize() + growSz, req, segm.blkSz)
      else segm.DataSpaceSize() + AllocSize(growSz, req, segm.blkSz)
    }

    /** The extents that growing leaves where they are. */
    function KeptWhenGrown(): seq<Extent>
      reads segm
    {
      if reallocOnGrow then Staying(segm.exts) else segm.exts
    }

    /** Makes cnt more blocks accessible, from the slack if there are enough, and returns the first of them. */
    method GrowByBlocks(cnt: nat) returns (r: Outcome<nat>)
      requires Valid() && cnt <= MAX_BLK_CNT
      modifies this`pastEnd, this`realEnd, bg, bg.fr, bg.sub, bg.arr, segm
      ensures old(bg.lost) <= bg.lost && bg.splits == old(bg.splits)
      ensures 0 < cnt && old(realEnd - pastEnd < cnt ==> CanGive(cnt - (realEnd - pastEnd))) ==> r.Ok?
      ensures bg.Valid() && bg.live == old(bg.live)[ix := segm.View()]
      ensures OthersSame(bg.live, ix, bg.arr.blkSz, old(bg.arr.buf), bg.arr.buf)
      ensures r.Ok? ==> Valid() && r.value == old(pastEnd) && pastEnd == old(pastEnd) + cnt && old(Bytes()) <= Bytes()
      ensures 0 < cnt && cnt <= old(realEnd - pastEnd) ==>
                && r.Ok? && realEnd == old(realEnd) && unchanged(segm) && unchanged(bg) && unchanged(bg.fr)
                && unchanged(bg.sub) && unchanged(bg.arr)
      ensures old(realEnd - pastEnd) < cnt && r.Ok? ==>
                && segm.DataSpaceSize() == old(SizeWith(cnt - (realEnd - pastEnd)))
                && old(KeptWhenGrown()) <= segm.exts
      ensures cnt == 0 ==> r == Throws(ZeroBlocks)
      ensures r.Throws? ==> unchanged(this) && NotGrown(old(segm.exts), old(Bytes()))
      ensures r.Throws? && segm.exts == old(segm.exts) ==> Valid()
      ensures 0 < cnt && r.Throws? ==>
                var want := cnt - old(realEnd - pastEnd);
                0 < want && (BLK_NR_EXHAUST <= realEnd + want || Refuses(want, old(segm.DataSpaceSize())))
    {
      hide Times, SegmentAllocator.Granted, SegmentAllocator.Affords, Requested, Refuses, SegmentAllocator.Valid,
          Fitting, OthersSame, FlatOf, DataSizes, Mounted, SizeWith, KeptWhenGrown;
      NothingElse();
      MappedNow();
      if cnt == 0 { return Throws(ZeroBlocks); }
      if realEnd - pastEnd >= cnt {
        r := Ok(pastEnd);
        pastEnd := pastEnd + cnt;
        return;
      }
      var want := cnt - (realEnd - pastEnd);
      if realEnd + want >= BLK_NR_EXHAUST { return Throws(BlockNumbersExhausted); }
      r := ImplGrow(want);
      if r.Throws? { return; }
      var added := r.value;
      r := Ok(pastEnd);
      realEnd := realEnd + added;
      pastEnd := pastEnd + cnt;
    }

    lemma {:induction false} NothingElse()
      requires Mapped()
      ensures OthersSame(bg.live, ix, bg.arr.blkSz, bg.arr.buf, bg.arr.buf)
    {
      bg.AllSame(bg.live, bg.arr.blkSz, bg.arr.buf, ix);
      KeptOf(bg.live, ix, bg.arr.blkSz, bg.arr.buf, bg.arr.buf);
    }

    /**
     * What a failed growth leaves: the segment as it was; with a realloc, the segment without its last extent if that
     * is one of sub-blocks; or a segment with more blocks than can be counted, the bytes that it had in front.
     */
    ghost predicate NotGrown(exts0: seq<Extent>, bytes0: seq<Byte>)
      reads this, segm, bg, bg.arr, bg.fr, bg.sub
    {
      && Mapped() && Fitting(segm.exts, req.allowSuballoc, bg.arr.blkSz, fgBlkSz)
      && (if segm.exts == exts0 || (reallocOnGrow && segm.exts == Staying(exts0)) then Bytes() <= bytes0
          else bytes0 <= Bytes() && Times(MAX_BLK_CNT, fgBlkSz) < segm.DataSpaceSize() - |bytes0|)
    }

    /** Makes the segment at least cnt blocks larger, and returns how many it has become larger. */
    method ImplGrow(cnt: nat) returns (r: Outcome<nat>)
      requires Valid() && 0 < cnt
      modifies bg, bg.fr, bg.sub, bg.arr, segm
      ensures old(bg.lost) <= bg.lost && bg.splits == old(bg.splits)
      ensures old(CanGive(cnt)) ==> r.Ok?
      ensures bg.Valid() && bg.live == old(bg.live)[ix := segm.View()]
      ensures OthersSame(bg.live, ix, bg.arr.blkSz, old(bg.arr.buf), bg.arr.buf)
      ensures r.Ok? ==>
                && Mapped() && Fitting(segm.exts, req.allowSuballoc, bg.arr.blkSz, fgBlkSz)
                && cnt <= r.value <= MAX_BLK_CNT && Times(realEnd + r.value, fgBlkSz) == segm.DataSpaceSize()
                && old(Bytes()) <= Bytes()
      ensures r.Ok? ==> segm.DataSpaceSize() == old(SizeWith(cnt)) && old(KeptWhenGrown()) <= segm.exts
      ensures r.Throws? ==> Refuses(cnt, old(segm.DataSpaceSize())) && NotGrown(old(segm.exts), old(Bytes()))
    {
      hide SegmentAllocator.Granted, SegmentAllocator.Affords, Requested, SegmentAllocator.Refuses,
          SegmentAllocator.Valid, Fitting, Multiple, OthersSame, FlatOf, DataSizes, Mounted, NotGrown, Refuses,
          SizeAfter, AllocSize, Staying;
      MappedNow();
      ghost var exts0, bytes0 := segm.exts, Bytes();
      var growSz := Times(cnt, fgBlkSz);
      GrowsBy(cnt);
      var origSz := segm.DataSpaceSize();
      if reallocOnGrow {
        r := ByRealloc(growSz);
      } else {
        r := ByAlloc(growSz);
      }
      if r.Throws? {
        Shorter(exts0, bytes0);
        RefusedBy(cnt, origSz);
        return;
      }
      StillFitting(exts0);
      SizesAgree();
      var added := (segm.DataSpaceSize() - origSz) / fgBlkSz;
      GrownBlocks(realEnd, segm.DataSpaceSize(), fgBlkSz, cnt);
      if added > MAX_BLK_CNT {
        TooMuch(cnt, added, origSz, segm.DataSpaceSize());
        MappedNow();
        Overgrown(exts0, bytes0, added);
        return Throws(BadRequest);
      }
      MappedNow();
      r := Ok(added);
    }

    lemma {:induction false} Shorter(exts0: seq<Extent>, bytes0: seq<Byte>)
      requires Mapped() && Fitting(exts0, req.allowSuballoc, bg.arr.blkSz, fgBlkSz) && Bytes() <= bytes0
      requires segm.exts == exts0 || (reallocOnGrow && segm.exts == Staying(exts0))
      ensures NotGrown(exts0, bytes0)
    {
      FittingCut(exts0, segm.exts, req.allowSuballoc, bg.arr.blkSz, fgBlkSz);
    }

    lemma {:induction false} RefusedBy(cnt: nat, size: nat)
      requires bg.Refuses(size + Times(cnt, fgBlkSz), req)
      ensures Refuses(cnt, size)
    {
    }

    lemma {:induction false} Overgrown(exts0: seq<Extent>, bytes0: seq<Byte>, added: nat)
      requires Mapped() && Fitting(segm.exts, req.allowSuballoc, bg.arr.blkSz, fgBlkSz) && bytes0 <= Bytes()
      requires |bytes0| == DataSizes(exts0, bg.arr.blkSz) && 0 < fgBlkSz && MAX_BLK_CNT < added
      requires added == (segm.DataSpaceSize() - |bytes0|) / fgBlkSz
      ensures NotGrown(exts0, bytes0)
    {
      hide DataSizes, Fitting, FlatOf, SegmentAllocator.Valid;
      StayingSize(exts0, bg.arr.blkSz);
      DivModBack(segm.DataSpaceSize() - |bytes0|, fgBlkSz);
      FewerBytes(added, added - MAX_BLK_CNT, fgBlkSz);
    }

    lemma {:induction false} GrowsBy(cnt: nat)
      requires 0 < fgBlkSz && 0 < cnt
      ensures 0 < Times(cnt, fgBlkSz)
    {
      LessEqual(1, cnt, fgBlkSz);
    }

    /**
     * Why cnt blocks cannot be added to a segment of size bytes: the background refuses, or what it rounds up to is too
     * much.
     */
    ghost predicate Refuses(cnt: nat, size: nat)
      reads bg.arr
    {
      || bg.Refuses(size + Times(cnt, fgBlkSz), req)
      || Times(MAX_BLK_CNT, fgBlkSz) < Times(cnt, fgBlkSz) + req.Granule(bg.arr.blkSz)
    }

    lemma {:induction false} TooMuch(cnt: nat, added: nat, size0: nat, size: nat)
      requires 0 < fgBlkSz && size0 <= size < size0 + Times(cnt, fgBlkSz) + req.Granule(bg.arr.blkSz)
      requires added == (size - size0) / fgBlkSz && MAX_BLK_CNT < added
      ensures Refuses(cnt, size0) && Times(MAX_BLK_CNT, fgBlkSz) < Times(cnt, fgBlkSz) + req.Granule(bg.arr.blkSz)
    {
      hide SegmentAllocator.Refuses, Req.Granule;
      DivModBack(size - size0, fgBlkSz);
      LessEqual(MAX_BLK_CNT, added, fgBlkSz);
    }

    lemma {:induction false} StillFitting(exts0: seq<Extent>)
      requires Fitting(exts0, req.allowSuballoc, bg.arr.blkSz, fgBlkSz) && bg.Appended(segm, exts0, req)
      ensures Fitting(segm.exts, req.allowSuballoc, bg.arr.blkSz, fgBlkSz)
    {
    }

    method ByRealloc(growSz: nat) returns (r: Outcome<nat>)
      requires Mapped() && 0 < growSz && req.maxInlineSz == 0
      modifies bg, bg.fr, bg.sub, bg.arr, segm
      ensures old(bg.lost) <= bg.lost && bg.splits == old(bg.splits)
      ensures bg.Valid() && bg.live == old(bg.live)[ix := segm.View()]
      ensures OthersSame(bg.live, ix, bg.arr.blkSz, old(bg.arr.buf), bg.arr.buf)
      ensures r.Ok? ==>
                && Mapped() && bg.Appended(segm, old(segm.exts), req)
                && old(segm.DataSpaceSize()) + growSz <= segm.DataSpaceSize()
                && segm.DataSpaceSize() < old(segm.DataSpaceSize()) + growSz + req.Granule(bg.arr.blkSz)
                && Mounted(bg.arr, segm) && old(Mounted(bg.arr, segm))
                    && FlatOf(bg.arr, segm)[..old(segm.DataSpaceSize())] == old(FlatOf(bg.arr, segm))
      ensures old(bg.Affords(Requested(segm.exts, 0, segm.DataSpaceSize() + growSz, segm.blkSz), req)) ==> r.Ok?
      ensures r.Ok? ==>
                && segm.DataSpaceSize() == SizeAfter(old(segm.exts), 0, old(segm.DataSpaceSize()) + growSz, req,
                    segm.blkSz)
                && Staying(old(segm.exts)) <= segm.exts
      ensures r.Throws? ==>
                && bg.Refuses(old(segm.DataSpaceSize()) + growSz, req) && Mapped() && Bytes() <= old(Bytes())
                && segm.exts == Staying(old(segm.exts))
    {
      hide SegmentAllocator.Affords, Requested, SegmentAllocator.Refuses, Req.Granule, SegmentAllocator.Valid,
          OthersSame, FlatOf, DataSizes, Mounted, Staying, LeftAfter, SizeAfter, Cleared, InlinePart;
      MappedNow();
      var sz := segm.DataSpaceSize() + growSz;
      ResizeCases(segm.exts, 0, sz, segm.blkSz);
      var done := bg.Realloc(segm, sz, req, ix);
      if done.Throws? { return Throws(done.error); }
      r := Ok(growSz);
    }

    method ByAlloc(growSz: nat) returns (r: Outcome<nat>)
      requires Mapped() && 0 < growSz && req.maxInlineSz == 0
      modifies bg, bg.fr, bg.sub, bg.arr, segm
      ensures old(bg.lost) <= bg.lost && bg.splits == old(bg.splits)
      ensures bg.Valid() && bg.live == old(bg.live)[ix := segm.View()]
      ensures OthersSame(bg.live, ix, bg.arr.blkSz, old(bg.arr.buf), bg.arr.buf)
      ensures r.Ok? ==>
                && Mapped() && bg.Appended(segm, old(segm.exts), req)
                && old(segm.DataSpaceSize()) + growSz <= segm.DataSpaceSize()
                && segm.DataSpaceSize() < old(segm.DataSpaceSize()) + growSz + req.Granule(bg.arr.blkSz)
                && Mounted(bg.arr, segm) && old(Mounted(bg.arr, segm))
                    && FlatOf(bg.arr, segm)[..old(segm.DataSpaceSize())] == old(FlatOf(bg.arr, segm))
      ensures old(bg.Granted(growSz, req)) ==> r.Ok?
      ensures r.Ok? ==>
                && segm.DataSpaceSize() == old(segm.DataSpaceSize()) + AllocSize(growSz, req, segm.blkSz)
                && old(segm.exts) <= segm.exts
      ensures r.Throws? ==>
                && bg.Refuses(old(segm.DataSpaceSize()) + growSz, req) && Mapped() && Bytes() <= old(Bytes())
                && segm.exts == old(segm.exts)
    {
      hide SegmentAllocator.Granted, SegmentAllocator.Refuses, Req.Granule, SegmentAllocator.Valid, OthersSame, FlatOf,
          DataSizes, Mounted, AllocSize, InlinePart, Extends;
      MappedNow();
      var done := bg.ExtendBy(segm, growSz, req, ix);
      if done.Throws? {
        bg.RefusesMore(growSz, segm.DataSpaceSize() + growSz, req);
        return Throws(done.error);
      }
      r := Ok(growSz);
    }

    // -- reading and writing --

    /** Reads bytes of the array through the segment. */
    method ImplRead(nr: nat, offset: nat, sz: nat) returns (data: seq<Byte>)
      requires Valid() && Times(nr, fgBlkSz) + offset + sz <= Times(realEnd, fgBlkSz)
      ensures data == Bytes()[Times(nr, fgBlkSz) + offset..Times(nr, fgBlkSz) + offset + sz]
    {
      hide Mounted, FlatOf, SegmentAllocator.Valid, Fitting, DataSizes;
      MappedNow();
      data := ReadFrom(bg.arr, segm, Times(nr, fgBlkSz) + offset, sz);
    }

    /** Writes bytes of the array through the segment; nothing else in the background changes. */
    method ImplWrite(nr: nat, offset: nat, data: seq<Byte>)
      requires Valid() && Times(nr, fgBlkSz) + offset + |data| <= Times(realEnd, fgBlkSz)
      modifies bg.arr`buf, segm`raw
      ensures Valid() && Bytes() == Over(old(Bytes()), Times(nr, fgBlkSz) + offset, data)
      ensures Untouched(old(bg.arr.buf), bg.arr.buf, SegPos(segm.exts, bg.arr.blkSz))
    {
      hide Mounted, FlatOf, SegmentAllocator.Valid, Fitting, DataSizes, SegPos, Over, Untouched;
      MappedNow();
      bg.RestoreLive(segm, Times(nr, fgBlkSz) + offset, data, ix);
    }

    // -- shrinking --

    /** How many blocks a shrink by cnt gives back: the slack goes with them, as far as the extents allow. */
    function GivesBack(cnt: nat, release: bool): nat
      requires pastEnd <= realEnd && 0 < fgBlkSz
      reads this, segm
    {
      var n := Times(cnt + realEnd - pastEnd, fgBlkSz);
      Wholes(n - Uncut(segm.exts, n, release, segm.blkSz), fgBlkSz)
    }

    /** Whether a release cuts an extent of the segment in two. */
    predicate ReleaseSplits(cnt: nat)
      requires pastEnd <= realEnd
      reads this, segm
    {
      SplitsOne(segm.exts, Times(cnt + realEnd - pastEnd, fgBlkSz), segm.blkSz)
    }

    /** The segment has lost n blocks; the array does not know about it yet. */
    ghost predicate Ahead(n: nat)
      reads this, segm, bg, bg.arr, bg.fr, bg.sub
    {
      && Mapped() && 0 < fgBlkSz && Fitting(segm.exts, req.allowSuballoc, bg.arr.blkSz, fgBlkSz)
      && n <= realEnd && Times(realEnd - n, fgBlkSz) == segm.DataSpaceSize()
    }

    /**
     * Makes the last cnt blocks inaccessible; those that whole extents of the segment are made of are given back. It
     * fails if these are too many to count, when they are gone already.
     */
    method ShrinkByBlocks(cnt: nat) returns (r: Outcome<()>)
      requires Valid()
      modifies this`pastEnd, this`realEnd, bg, bg.arr`buf, bg.fr, bg.sub, segm`exts
      ensures bg.Valid() && bg.live == old(bg.live)[ix := segm.View()]
      ensures bg.arr.buf == old(bg.arr.buf) && SegPos(segm.exts, segm.blkSz) <= old(SegPos(segm.exts, segm.blkSz))
      ensures OthersSame(bg.live, ix, bg.arr.blkSz, old(bg.arr.buf), bg.arr.buf)
      ensures Mapped() && Bytes() <= old(Bytes()) && bg.lost == old(bg.lost) && bg.splits == old(bg.splits)
      ensures r.Throws? <==> cnt == 0 || old(BlkCnt()) < cnt || MAX_BLK_CNT < old(GivesBack(cnt, false))
      ensures cnt == 0 || old(BlkCnt()) < cnt ==> Valid() && segm.exts == old(segm.exts)
      ensures r.Throws? ==> r.error == BadRequest && unchanged(this)
      ensures 0 < cnt <= old(BlkCnt()) ==>
                segm.exts == Trim(old(segm.exts), Times(cnt + old(realEnd - pastEnd), fgBlkSz), segm.blkSz).0
      ensures 0 < cnt <= old(BlkCnt()) && r.Throws? ==> Ahead(old(GivesBack(cnt, false))) && !Valid()
      ensures r.Ok? ==> Valid() && pastEnd == old(pastEnd) - cnt && realEnd == old(realEnd - GivesBack(cnt, false))
      ensures r.Ok? ==> Trimmed(segm.exts, Times(realEnd - pastEnd, fgBlkSz), false, bg.arr.blkSz)
    {
      hide SegmentAllocator.Valid, Fitting, OthersSame, FlatOf, DataSizes, Mounted, Trimmed, Trim, GivesBack, SegPos;
      NothingElse();
      assert SegPos(segm.exts, segm.blkSz) <= SegPos(segm.exts, segm.blkSz);
      if cnt == 0 || cnt > BlkCnt() { return Throws(BadRequest); }
      var n := ImplShrink(cnt, false);
      if n.Throws? {
        FewerBytes(realEnd, old(GivesBack(cnt, false)), fgBlkSz);
        return Throws(n.error);
      }
      pastEnd := pastEnd - cnt;
      realEnd := realEnd - n.value;
      r := Ok(());
    }

    /** Gives back all the slack that is made of whole blocks, or sub-blocks, of the background. */
    method ReleaseBlocks() returns (r: Outcome<nat>)
      requires Valid()
      modifies this`realEnd, bg, bg.arr`buf, bg.fr, bg.sub, segm`exts
      ensures bg.Valid() && bg.live == old(bg.live)[ix := segm.View()]
      ensures bg.arr.buf == old(bg.arr.buf) && SegPos(segm.exts, segm.blkSz) <= old(SegPos(segm.exts, segm.blkSz))
      ensures OthersSame(bg.live, ix, bg.arr.blkSz, old(bg.arr.buf), bg.arr.buf)
      ensures Mapped() && Bytes() <= old(Bytes()) && bg.lost == old(bg.lost)
      ensures bg.splits == old(bg.splits) + if old(ReleaseSplits(0)) then 1 else 0
      ensures r.Throws? <==> MAX_BLK_CNT < old(GivesBack(0, true))
      ensures r.Throws? ==> r.error == BadRequest && unchanged(this) && Ahead(old(GivesBack(0, true))) && !Valid()
      ensures r.Ok? ==> Valid() && r.value == old(GivesBack(0, true)) && realEnd == old(realEnd) - r.value
      ensures r.Ok? ==> Trimmed(segm.exts, Times(realEnd - pastEnd, fgBlkSz), true, bg.arr.blkSz)
    {
      hide SegmentAllocator.Valid, Fitting, OthersSame, FlatOf, DataSizes, Mounted, Trimmed, GivesBack, SplitsOne,
          SegPos;
      r := ImplShrink(0, true);
      if r.Throws? {
        FewerBytes(realEnd, old(GivesBack(0, true)), fgBlkSz);
        return;
      }
      realEnd := realEnd - r.value;
    }

    /**
     * Cuts the slack and cnt more blocks off the segment, as far as extents, or with `release` parts of the last one,
     * allow.
     */
    method ImplShrink(cnt: nat, release: bool) returns (r: Outcome<nat>)
      requires Valid() && cnt <= pastEnd
      modifies bg, bg.arr`buf, bg.fr, bg.sub, segm`exts
      ensures bg.Valid() && bg.live == old(bg.live)[ix := segm.View()]
      ensures bg.arr.buf == old(bg.arr.buf) && SegPos(segm.exts, segm.blkSz) <= old(SegPos(segm.exts, segm.blkSz))
      ensures OthersSame(bg.live, ix, bg.arr.blkSz, old(bg.arr.buf), bg.arr.buf)
      ensures Ahead(old(GivesBack(cnt, release))) && Bytes() <= old(Bytes()) && bg.lost == old(bg.lost)
      ensures bg.splits == old(bg.splits) + if release && old(ReleaseSplits(cnt)) then 1 else 0
      ensures !release ==> segm.exts == Trim(old(segm.exts), Times(cnt + realEnd - pastEnd, fgBlkSz), segm.blkSz).0
      ensures var n := old(GivesBack(cnt, release));
              && n <= cnt + (realEnd - pastEnd)
              && Trimmed(segm.exts, Times(cnt + (realEnd - pastEnd) - n, fgBlkSz), release, bg.arr.blkSz)
              && r == if MAX_BLK_CNT < n then Throws(BadRequest) else Ok(n)
    {
      hide SegmentAllocator.Valid, Fitting, Multiple, OthersSame, FlatOf, DataSizes, Mounted, IsSplit, Trimmed, Uncut,
          SplitsOne, Trim, Times, SegPos;
      ghost var freed := GivesBack(cnt, release);
      MappedNow();
      var pending := realEnd - pastEnd;
      var shrinkSz := Times(cnt + pending, fgBlkSz);
      Distribute(pastEnd - cnt, cnt + pending, fgBlkSz);
      var size0 := segm.DataSpaceSize();
      var left := GiveBack(shrinkSz, release);
      SizesAgree();
      MappedNow();
      var n, rest := SplitBy(size0 - segm.DataSpaceSize(), fgBlkSz);
      ShrunkBlocks(realEnd, segm.DataSpaceSize(), fgBlkSz, cnt + pending, left, n, rest);
      assert n == freed;
      if n > MAX_BLK_CNT { return Throws(BadRequest); }
      r := Ok(n);
    }

    /** Cuts up to shrinkSz bytes off the segment, whatever the block sizes are; left is what could not be cut. */
    method GiveBack(shrinkSz: nat, release: bool) returns (left: nat)
      requires Mapped() && shrinkSz <= segm.DataSpaceSize()
      modifies bg, bg.arr`buf, bg.fr, bg.sub, segm`exts
      ensures bg.Valid() && bg.live == old(bg.live)[ix := segm.View()]
      ensures bg.arr.buf == old(bg.arr.buf) && SegPos(segm.exts, segm.blkSz) <= old(SegPos(segm.exts, segm.blkSz))
      ensures OthersSame(bg.live, ix, bg.arr.blkSz, old(bg.arr.buf), bg.arr.buf)
      ensures Mapped() && Bytes() <= old(Bytes()) && bg.lost == old(bg.lost)
      ensures old(Fitting(segm.exts, req.allowSuballoc, bg.arr.blkSz, fgBlkSz)) ==>
                Fitting(segm.exts, req.allowSuballoc, bg.arr.blkSz, fgBlkSz)
      ensures left == Uncut(old(segm.exts), shrinkSz, release, segm.blkSz)
      ensures !release ==> segm.exts == Trim(old(segm.exts), shrinkSz, segm.blkSz).0
      ensures segm.DataSpaceSize() == old(segm.DataSpaceSize()) - shrinkSz + left
      ensures Trimmed(segm.exts, left, release, bg.arr.blkSz)
      ensures bg.splits == old(bg.splits) + if release && SplitsOne(old(segm.exts), shrinkSz, segm.blkSz) then 1 else 0
    {
      hide SegmentAllocator.Valid, Fitting, Multiple, OthersSame, FlatOf, DataSizes, DataSize, Mounted, Unit, Trim,
          Uncut, SplitsOne, SegPos, Cleared, SamePlaces;
      NothingElse();
      MappedNow();
      ghost var base, exts0 := bg.live, segm.exts;
      var toFree := new Segment(bg.arr.blkSz);
      assert segm.exts + [] == segm.exts;
      bg.PartLive(ix, segm.View(), toFree.View());
      left := bg.CutWhole(segm, toFree, segm.DataSpaceSize() - shrinkSz, ix, base);
      FittingCut(exts0, segm.exts, req.allowSuballoc, bg.arr.blkSz, fgBlkSz);
      PositionsPrefix(exts0, segm.exts, segm.blkSz);
      UncutOf(exts0, shrinkSz, release, bg.arr.blkSz, segm.exts, left);
      if 0 < left && release {
        left := CutPart(toFree, left, base);
      }
      bg.FreeCutIfAny(segm, toFree, false, ix, base);
      MappedNow();
    }

    /** Splits the last extent and passes on its second part: as many whole blocks or sub-blocks as are to go. */
    method CutPart(toFree: Segment, shrinkSz: nat, ghost base: seq<Holding>) returns (left: nat)
      requires bg.Valid() && ix < |base| && bg.live == Parted(base, ix, segm.View(), toFree.View()) && segm != toFree
      requires segm.Valid() && segm.blkSz == bg.arr.blkSz && segm.raw == [] && !segm.inlinePresent
          && Mounted(bg.arr, segm)
      requires toFree.Valid() && toFree.raw == [] && !toFree.inlinePresent
      requires segm.exts != [] && 0 < shrinkSz < DataSize(segm.exts[|segm.exts| - 1], bg.arr.blkSz)
      modifies bg`live, bg`splits, segm`exts, toFree`exts
      ensures bg.Valid() && bg.live == Parted(base, ix, segm.View(), toFree.View()) && Mounted(bg.arr, segm)
      ensures old(Fitting(segm.exts, req.allowSuballoc, bg.arr.blkSz, fgBlkSz)) ==>
                Fitting(segm.exts, req.allowSuballoc, bg.arr.blkSz, fgBlkSz)
      ensures FlatOf(bg.arr, segm) <= old(FlatOf(bg.arr, segm))
      ensures SegPos(segm.exts, segm.blkSz) <= old(SegPos(segm.exts, segm.blkSz))
      ensures var unit := Unit(old(segm.exts)[|old(segm.exts)| - 1], bg.arr.blkSz);
              && 0 < unit && left == shrinkSz % unit <= shrinkSz
              && bg.splits == old(bg.splits) + if unit <= shrinkSz then 1 else 0
      ensures segm.DataSpaceSize() == old(segm.DataSpaceSize()) - shrinkSz + left
      ensures segm.exts != [] && left < Unit(segm.exts[|segm.exts| - 1], bg.arr.blkSz)
    {
      hide SegmentAllocator.Valid, Fitting, FlatOf, DataSizes, DataSize, Mounted, IsSplit, SegPos;
      var last := segm.exts[|segm.exts| - 1];
      var unit := Unit(last, bg.arr.blkSz);
      UnitsOf(last, bg.arr.blkSz, shrinkSz);
      var cnt, rest := SplitBy(shrinkSz, unit);
      PiecesOf(shrinkSz, unit, cnt, rest);
      left := rest;
      PartLess(last, bg.arr.blkSz, cnt, rest);
      if 0 < cnt {
        var n := (if last.Full? then last.cnt else |last.bits|) - cnt;
        var front, back := Split(last, n);
        PartSizes(last, n, cnt, front, back, bg.arr.blkSz);
        SwapLast(toFree, n, front, back, base);
      }
    }

    /** The last extent is replaced by its first part; its second part is passed on. */
    method SwapLast(toFree: Segment, ghost n: nat, front: Extent, back: Extent, ghost base: seq<Holding>)
      requires bg.Valid() && ix < |base| && bg.live == Parted(base, ix, segm.View(), toFree.View()) && segm != toFree
      requires segm.Valid() && segm.blkSz == bg.arr.blkSz && segm.raw == [] && !segm.inlinePresent
          && Mounted(bg.arr, segm)
      requires toFree.Valid() && toFree.raw == [] && !toFree.inlinePresent && segm.exts != []
      requires IsSplit(segm.exts[|segm.exts| - 1], n, front, back) && !front.Empty() && !back.Empty()
      modifies bg`live, bg`splits, segm`exts, toFree`exts
      ensures bg.Valid() && bg.live == Parted(base, ix, segm.View(), toFree.View()) && Mounted(bg.arr, segm)
      ensures old(Fitting(segm.exts, req.allowSuballoc, bg.arr.blkSz, fgBlkSz)) ==>
                Fitting(segm.exts, req.allowSuballoc, bg.arr.blkSz, fgBlkSz)
      ensures SegPos(segm.exts, segm.blkSz) <= old(SegPos(segm.exts, segm.blkSz))
      ensures FlatOf(bg.arr, segm) <= old(FlatOf(bg.arr, segm)) && bg.splits == old(bg.splits) + 1
      ensures segm.DataSpaceSize() == old(segm.DataSpaceSize()) - DataSize(back, bg.arr.blkSz)
      ensures segm.exts != [] && segm.exts[|segm.exts| - 1] == front
    {
      hide SegmentAllocator.Valid, FlatOf, DataSizes, DataSize, Mounted, IsSplit, SegPos;
      ghost var exts0, k := segm.exts, |segm.exts| - 1;
      FlatIs(bg.arr, segm);
      SplitLast(exts0, n, front, back, bg.arr.blkSz);
      assert segm.exts == segm.exts[..k] + [segm.exts[k]];
      bg.PassOnPartLive(base, ix, segm.exts[..k], segm.exts[k], n, front, back, toFree.exts);
      var a := toFree.AddExtent(back);
      var b := segm.RemoveLastExtent();
      var c := segm.AddExtent(front);
      bg.LiveMounted(segm, ix);
      FlatIs(bg.arr, segm);
      SplitFlat(bg.arr.buf, exts0, n, front, back, bg.arr.blkSz);
      FittingSplit(exts0, n, front, back, req.allowSuballoc, bg.arr.blkSz, fgBlkSz);
    }
  }

  /** What a tail allocator on such an array does to empty it: all blocks go, or they are too many to count. */
  method ResetTail(a: SegmentBlockArray) returns (r: Outcome<()>)
    requires a.Valid()
    modifies a`pastEnd, a`realEnd, a.bg, a.bg.arr`buf, a.bg.fr, a.bg.sub, a.segm`exts
    ensures a.bg.Valid() && a.bg.live == old(a.bg.live)[a.ix := a.segm.View()]
    ensures a.bg.arr.buf == old(a.bg.arr.buf)
    ensures OthersSame(a.bg.live, a.ix, a.bg.arr.blkSz, old(a.bg.arr.buf), a.bg.arr.buf)
    ensures a.Mapped() && a.segm.DataSpaceSize() == 0
    ensures r.Throws? <==> MAX_BLK_CNT < old(a.realEnd)
    ensures r.Throws? ==> unchanged(a)
    ensures r.Ok? ==> a.Valid() && a.pastEnd == a.realEnd == 0
  {
    hide SegmentAllocator.Valid, Fitting, OthersSame, FlatOf, DataSizes, Mounted, Trimmed, SplitsOne,
        SegmentBlockArray.GivesBack, SegPos;
    GivesAllBack(a, a.pastEnd, false);
    GivesAllBack(a, a.pastEnd, true);
    OneUnit(0, a.fgBlkSz);
    ghost var live0, buf0 := a.bg.live, a.bg.arr.buf;
    if a.BlkCnt() != 0 {
      r := a.ShrinkByBlocks(a.BlkCnt());
      if r.Throws? { return; }
      GivesAllBack(a, 0, true);
    } else {
      a.NothingElse();
    }
    ghost var live1, buf1 := a.bg.live, a.bg.arr.buf;
    var n := a.ReleaseBlocks();
    OthersTwice(live1, a.bg.live, a.ix, a.bg.arr.blkSz, buf0, buf1, a.bg.arr.buf);
    r := if n.Throws? then Throws(n.error) else Ok(());
  }

  lemma {:induction false} PositionsPrefix(exts: seq<Extent>, front: seq<Extent>, blkSz: nat)
    requires front <= exts
    ensures SegPos(front, blkSz) <= SegPos(exts, blkSz)
  {
    assert exts == front + exts[|front|..];
    SegPosAppend(front, exts[|front|..], blkSz);
  }

  lemma {:induction false} GivesAllBack(a: SegmentBlockArray, cnt: nat, release: bool)
    requires a.Valid() && cnt == a.pastEnd
    ensures a.GivesBack(cnt, release) == a.realEnd
  {
    var n := Times(a.realEnd, a.fgBlkSz);
    TrimSizes(a.segm.exts, n, a.segm.blkSz);
    NothingUncut(a.segm.exts, release, a.segm.blkSz);
    DivMod(a.realEnd, 0, a.fgBlkSz);
  }

  /**
   * Were the count of the blocks given back cut off to 16 bits, the array would agree with its segment just up to
   * 65535.
   */
  lemma {:induction false} CutOffCount(realEnd: nat, n: nat, unit: nat)
    requires 0 < unit && n <= realEnd
    ensures Times(realEnd - n % 0x1_0000, unit) == Times(realEnd - n, unit) <==> n <= MAX_BLK_CNT
  {
    if MAX_BLK_CNT < n {
      FewerBytes(realEnd - n % 0x1_0000, n - n % 0x1_0000, unit);
    }
  }

  lemma {:induction false} GrownBlocks(n: nat, size: nat, unit: nat, cnt: nat)
    requires 0 < unit && Times(n, unit) + Times(cnt, unit) <= size && Multiple(size, unit)
    ensures cnt <= (size - Times(n, unit)) / unit && Times(n + (size - Times(n, unit)) / unit, unit) == size
  {
    hide Times;
    var k: nat :| size == Times(k, unit);
    Distribute(n, cnt, unit);
    Reflects(n + cnt, k, unit);
    Distribute(n, k - n, unit);
    DivMod(k - n, 0, unit);
  }

  /** What is left to cut is less than the last extent, and with `release` less than one block or sub-block of it. */
  predicate Trimmed(exts: seq<Extent>, left: nat, release: bool, blkSz: nat) {
    0 < left ==>
      && exts != []
      && left < if release then Unit(exts[|exts| - 1], blkSz) else DataSize(exts[|exts| - 1], blkSz)
  }

  /** An extent larger than what is to go has a unit. */
  lemma {:induction false} UnitsOf(e: Extent, blkSz: nat, shrinkSz: nat)
    requires shrinkSz < DataSize(e, blkSz)
    ensures 0 < Unit(e, blkSz)
  {
    TimesIsProduct(if e.Full? then e.cnt else |e.bits|, Unit(e, blkSz));
  }

  lemma {:induction false} ShrunkBlocks(n: nat, size: nat, unit: nat, cnt: nat, left: nat, k: nat, rest: nat)
    requires 0 < unit && cnt <= n && left <= Times(cnt, unit) && Multiple(size, unit)
        && size == Times(n - cnt, unit) + left
    requires size <= Times(n, unit) && Times(n, unit) - size == Times(k, unit) + rest && rest < unit
    ensures k <= cnt && Times(n - k, unit) == size && Times(cnt - k, unit) == left
    ensures k == (Times(cnt, unit) - left) / unit
  {
    hide Times;
    var m: nat :| size == Times(m, unit);
    Distribute(n - cnt, cnt, unit);
    Reflects(n - cnt, m, unit);
    Reflects(m, n, unit);
    Distribute(m, n - m, unit);
    Distribute(n - cnt, m - (n - cnt), unit);
    DivMod(n - m, 0, unit);
    DivMod(k, rest, unit);
    Reflects(m - (n - cnt), 0, unit);
    NoTimes(unit);
  }

  lemma {:induction false} FewerBytes(n: nat, k: nat, unit: nat)
    requires 0 < unit && 0 < k <= n
    ensures Times(n - k, unit) < Times(n, unit)
  {
    Reflects(n, n - k, unit);
  }

  lemma {:induction false} PiecesOf(x: nat, unit: nat, q: nat, r: nat)
    requires 0 < unit && x == Times(q, unit) + r && r < unit
    ensures r == x % unit && (0 < q <==> unit <= x)
  {
    DivMod(q, r, unit);
    Reflects(1, q, unit);
    OneUnit(0, unit);
  }

  lemma {:induction false} FittingCut(exts: seq<Extent>, front: seq<Extent>, allowSuballoc: bool, blkSz: nat,
      fgBlkSz: nat)
    requires front <= exts
    ensures Fitting(exts, allowSuballoc, blkSz, fgBlkSz) ==> Fitting(front, allowSuballoc, blkSz, fgBlkSz)
  {
    if Fitting(exts, allowSuballoc, blkSz, fgBlkSz) { FittingFront(exts, front, allowSuballoc, blkSz, fgBlkSz); }
  }

  lemma {:induction false} NoTimes(unit: nat)
    ensures Times(0, unit) == 0
  {
  }

  lemma {:induction false} Reflects(a: nat, b: nat, unit: nat)
    requires 0 < unit
    ensures Times(a, unit) <= Times(b, unit) <==> a <= b
  {
    LessEqual(a, b, unit);
    LessEqual(b + 1, a, unit);
  }

  /** The count of an extent: of blocks or of sub-blocks. */
  function Count(e: Extent): nat {
    if e.Full? then e.cnt else |e.bits|
  }

  lemma {:induction false} PartLess(e: Extent, blkSz: nat, cnt: nat, rest: nat)
    requires Times(cnt, Unit(e, blkSz)) + rest < DataSize(e, blkSz)
    ensures cnt < Count(e)
  {
    LessEqual(Count(e), cnt, Unit(e, blkSz));
  }

  lemma {:induction false} PartSizes(e: Extent, n: nat, cnt: nat, front: Extent, back: Extent, blkSz: nat)
    requires IsSplit(e, n, front, back) && n + cnt == Count(e) && 0 < n && 0 < cnt
    ensures DataSize(back, blkSz) == Times(cnt, Unit(e, blkSz)) && !front.Empty() && !back.Empty()
        && Unit(front, blkSz) == Unit(e, blkSz)
  {
    SplitCounts(e, n, front, back);
  }

  /** The sizes and positions of a list whose last extent was split. */
  lemma {:induction false} SplitLast(exts: seq<Extent>, n: nat, front: Extent, back: Extent, blkSz: nat)
    requires exts != [] && IsSplit(exts[|exts| - 1], n, front, back)
    ensures var now := exts[..|exts| - 1] + [front];
            && DataSizes(now, blkSz) == DataSizes(exts, blkSz) - DataSize(back, blkSz)
            && SegPos(exts, blkSz) == SegPos(now, blkSz) + ExtPos(back, blkSz)
  {
    hide SegPos, DataSizes, ExtPos, DataSize, IsSplit;
    var k := |exts| - 1;
    var rest, e := exts[..k], exts[k];
    assert exts == rest + [e] + [];
    SplitPositions(e, n, front, back, blkSz);
    SegPosParts(rest, e, [], blkSz);
    SegPosParts(rest, front, [], blkSz);
    SegPosOfNone(blkSz);
    assert rest + [front] + [] == rest + [front] && exts == rest + [e];
  }

  lemma {:induction false} SegPosOfNone(blkSz: nat)
    ensures SegPos([], blkSz) == []
  {
  }

  lemma {:induction false} SplitFlat(buf: seq<Byte>, exts: seq<Extent>, n: nat, front: Extent, back: Extent, blkSz: nat)
    requires exts != [] && IsSplit(exts[|exts| - 1], n, front, back) && Layout.Within(SegPos(exts, blkSz), |buf|)
    ensures var now := exts[..|exts| - 1] + [front];
            Layout.Within(SegPos(now, blkSz), |buf|) && Flat(buf, SegPos(now, blkSz), []) <= Flat(buf, SegPos(exts,
                blkSz), [])
  {
    hide SegPos, IsSplit;
    SplitLast(exts, n, front, back, blkSz);
    AtFront(buf, SegPos(exts[..|exts| - 1] + [front], blkSz), ExtPos(back, blkSz));
  }

  lemma {:induction false} FittingSplit(exts: seq<Extent>, n: nat, front: Extent, back: Extent, allowSuballoc: bool,
      blkSz: nat, fgBlkSz: nat)
    requires exts != [] && IsSplit(exts[|exts| - 1], n, front, back)
    ensures Fitting(exts, allowSuballoc, blkSz, fgBlkSz) ==>
              Fitting(exts[..|exts| - 1] + [front], allowSuballoc, blkSz, fgBlkSz)
  {
    assert exts[|exts| - 1] in exts;
  }
}
