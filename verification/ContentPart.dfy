/** A content part of a descriptor: present bytes, then hidden bytes of a future version (xoz/dsc/descriptor.cpp). */
module ContentParts {
  import opened Outcomes
  import opened Extents
  import opened Layout
  import opened BlockArrays
  import opened Segments
  import opened SegmentIo
  import opened Ownership
  import opened Ledger
  import opened SegmentAllocators
  import opened Requests
  import SegmentCodec
  import DescriptorCodec

  const MAX_CSIZE := DescriptorCodec.MAX_CSIZE
  const MEM_COPY_THRESHOLD := 0x10_0000

  // ---------------------------------------------------------------------------------------------
  // Moving bytes within and between segments in use
  // ---------------------------------------------------------------------------------------------

  /** Copies n bytes from position at to the end of the segment. */
  method MoveToEnd(sa: SegmentAllocator, segm: Segment, at: nat, n: nat, ghost ix: nat)
    requires sa.Valid() && ix < |sa.live| && sa.live[ix] == segm.View() && segm.Valid() && segm.blkSz == sa.arr.blkSz
    requires Mounted(sa.arr, segm) && at + n <= segm.DataSpaceSize() <= MAX_U32
    modifies sa.arr`buf, segm`raw
    ensures sa.Valid() && sa.live[ix] == segm.View() && segm.Valid() && Mounted(sa.arr, segm)
    ensures Untouched(old(sa.arr.buf), sa.arr.buf, SegPos(segm.exts, sa.arr.blkSz))
    ensures var flat0 := old(FlatOf(sa.arr, segm)); FlatOf(sa.arr, segm) == Over(flat0, |flat0| - n, flat0[at..at + n])
  {
    hide Balanced, NoneWhole, Tally, Exts, SegPos, Untouched, Over, Flat, Mounted;
    CopyToEnd(sa.arr, segm, at, n);
    ArrayMounted(sa.arr, segm);
  }

  /** Copies n bytes from `back` bytes before the end of one segment to the position `at` of another. */
  method CopyBetween(sa: SegmentAllocator, src: Segment, back: nat, dst: Segment, at: nat, n: nat, ghost i: nat,
      ghost j: nat)
    requires sa.Valid() && i < |sa.live| && j < |sa.live| && i != j && src != dst
    requires sa.live[i] == src.View() && src.Valid() && src.blkSz == sa.arr.blkSz && Mounted(sa.arr, src)
    requires sa.live[j] == dst.View() && dst.Valid() && dst.blkSz == sa.arr.blkSz && Mounted(sa.arr, dst)
    requires n <= back <= src.DataSpaceSize() <= MAX_U32 && at + n <= dst.DataSpaceSize() <= MAX_U32
    modifies sa.arr`buf, dst`raw
    ensures sa.Valid() && sa.live[j] == dst.View() && dst.Valid() && Mounted(sa.arr, dst) && Mounted(sa.arr, src)
    ensures Untouched(old(sa.arr.buf), sa.arr.buf, SegPos(dst.exts, sa.arr.blkSz))
    ensures var from := src.DataSpaceSize() - back;
            FlatOf(sa.arr, dst) == Over(old(FlatOf(sa.arr, dst)), at, old(FlatOf(sa.arr, src))[from..from + n])
  {
    hide Balanced, NoneWhole, Tally, Exts, SegPos, Untouched, Over, Flat, Mounted, Apart, DataSizes;
    LiveApart(sa.Sp(), sa.live, sa.lost, j, i, sa.arr.blkSz);
    CopyAcross(sa.arr, src, back, dst, at, n);
    ArrayMounted(sa.arr, dst);
  }

  // ---------------------------------------------------------------------------------------------
  // The bytes of a part, before and after
  // ---------------------------------------------------------------------------------------------

  /** The last n bytes. */
  function Last(flat: seq<Byte>, n: nat): seq<Byte>
    requires n <= |flat|
  {
    flat[|flat| - n..]
  }

  /**
   * The future bytes lie behind the present ones: behind csize - futureSz in a part, at the very end for a reader of
   * the segment.
   */
  function Future(flat: seq<Byte>, csize: nat, futureSz: nat): seq<Byte>
    requires futureSz <= csize <= |flat|
  {
    flat[csize - futureSz..csize]
  }

  /** How many bytes a resize to total bytes leaves at the front of a segment of sz0 bytes. */
  function Common(sz0: nat, total: nat): nat {
    if total < sz0 then total else sz0
  }

  /** The bytes that a resize takes for the hidden ones: those behind the present ones, or the last of the segment. */
  function Carried(flat0: seq<Byte>, csize: nat, total: nat, futureSz: nat): seq<Byte>
    requires futureSz <= csize <= |flat0|
  {
    if csize < total then Future(flat0, csize, futureSz) else Last(flat0, futureSz)
  }

  /**
   * The bytes of the segment after a resize from csize to total bytes, futureSz of them hidden; `more` are the bytes of
   * the space that it was given behind those that it kept.
   */
  ghost function After(flat0: seq<Byte>, more: seq<Byte>, csize: nat, total: nat, futureSz: nat): (flat: seq<Byte>)
    requires futureSz <= csize <= |flat0| && futureSz <= total <= Common(|flat0|, total) + |more|
    ensures |flat| == Common(|flat0|, total) + |more|
  {
    var flat1 := flat0[..Common(|flat0|, total)] + more;
    Over(flat1, |flat1| - futureSz, Carried(flat0, csize, total, futureSz))
  }

  ghost predicate Resized(flat0: seq<Byte>, flat: seq<Byte>, csize: nat, total: nat, futureSz: nat)
    requires futureSz <= csize <= |flat0| && futureSz <= total <= |flat|
  {
    if csize == total then flat == flat0
    else flat == After(flat0, flat[Common(|flat0|, total)..], csize, total, futureSz)
  }

  /** As long as a segment has no byte more than its part, the hidden bytes stay hidden behind the present ones. */
  lemma {:induction false} ExactResize(flat0: seq<Byte>, flat: seq<Byte>, csize: nat, total: nat, futureSz: nat)
    requires futureSz <= csize == |flat0| && futureSz <= total == |flat| && Resized(flat0, flat, csize, total, futureSz)
    ensures Future(flat, total, futureSz) == Future(flat0, csize, futureSz)
    ensures var kept := Common(csize, total) - futureSz; flat[..kept] == flat0[..kept]
  {
    PresentKept(flat0, flat, csize, total, futureSz);
    StillHidden(flat0, flat, csize, total, futureSz);
  }

  /** Without hidden bytes a segment of any size keeps the present ones. */
  lemma {:induction false} NothingHidden(flat0: seq<Byte>, flat: seq<Byte>, csize: nat, total: nat)
    requires csize <= |flat0| && total <= |flat| && Resized(flat0, flat, csize, total, 0)
    ensures var kept := Common(csize, total); flat[..kept] == flat0[..kept]
  {
    PresentKept(flat0, flat, csize, total, 0);
  }

  /** The present bytes are kept whatever is hidden, as far as the part is long enough. */
  lemma {:induction false} PresentKept(flat0: seq<Byte>, flat: seq<Byte>, csize: nat, total: nat, futureSz: nat)
    requires futureSz <= csize <= |flat0| && futureSz <= total <= |flat| && Resized(flat0, flat, csize, total, futureSz)
    ensures var kept := Common(csize, total) - futureSz; flat[..kept] == flat0[..kept]
  {
    var n, kept := Common(|flat0|, total), Common(csize, total) - futureSz;
    if csize != total {
      var flat1 := flat0[..n] + flat[n..];
      assert forall i :: 0 <= i < kept ==> flat[i] == flat1[i] == flat0[i];
    }
  }

  /**
   * Whether the hidden bytes survive: there are none, or the size stays, or the segment ends up as large as the part
   * and, for a smaller size, was so before.
   */
  predicate KeepsHidden(sz0: nat, sz: nat, csize: nat, total: nat, futureSz: nat) {
    futureSz == 0 || csize == total || (sz == total && (total < csize ==> sz0 == csize))
  }

  /**
   * The hidden bytes survive a resize, whatever the bytes of the segment are, exactly if KeepsHidden says so of the
   * size that the segment will have; it does not matter what is in the space that the segment is given.
   */
  lemma {:induction false} HiddenSurvive(exts: seq<Extent>, inlineSz: nat, req: Req, blkSz: nat, more: seq<Byte>,
      csize: nat, total: nat, futureSz: nat)
    requires futureSz <= csize <= DataSizes(exts, blkSz) + inlineSz && futureSz <= total && csize != total
    requires Common(DataSizes(exts, blkSz) + inlineSz, total) + |more| == SizeAfter(exts, inlineSz, total, req, blkSz)
    ensures total <= SizeAfter(exts, inlineSz, total, req, blkSz)
    ensures var sz0, sz := DataSizes(exts, blkSz) + inlineSz, SizeAfter(exts, inlineSz, total, req, blkSz);
            (forall flat0: seq<Byte> | |flat0| == sz0 ::
               Future(After(flat0, more, csize, total, futureSz), total, futureSz) == Future(flat0, csize, futureSz))
            <==> KeepsHidden(sz0, sz, csize, total, futureSz)
  {
    hide After, Future, SizeAfter;
    SizeAfterRange(exts, inlineSz, total, req, blkSz);
    var sz0, sz := DataSizes(exts, blkSz) + inlineSz, SizeAfter(exts, inlineSz, total, req, blkSz);
    if KeepsHidden(sz0, sz, csize, total, futureSz) {
      forall flat0: seq<Byte> | |flat0| == sz0
        ensures Future(After(flat0, more, csize, total, futureSz), total, futureSz) == Future(flat0, csize, futureSz)
      {
        AfterResized(flat0, more, csize, total, futureSz);
        StillHidden(flat0, After(flat0, more, csize, total, futureSz), csize, total, futureSz);
      }
    } else {
      var flat0 := SomeLost(more, sz0, csize, total, futureSz);
    }
  }

  lemma {:induction false} AfterResized(flat0: seq<Byte>, more: seq<Byte>, csize: nat, total: nat, futureSz: nat)
    requires futureSz <= csize <= |flat0| && futureSz <= total <= Common(|flat0|, total) + |more| && csize != total
    ensures Resized(flat0, After(flat0, more, csize, total, futureSz), csize, total, futureSz)
  {
    var n, flat := Common(|flat0|, total), After(flat0, more, csize, total, futureSz);
    var again := After(flat0, flat[n..], csize, total, futureSz);
    assert forall i :: 0 <= i < |flat| ==> again[i] == flat[i];
  }

  lemma {:induction false} StillHidden(flat0: seq<Byte>, flat: seq<Byte>, csize: nat, total: nat, futureSz: nat)
    requires futureSz <= csize <= |flat0| && futureSz <= total <= |flat| && Resized(flat0, flat, csize, total, futureSz)
    requires KeepsHidden(|flat0|, |flat|, csize, total, futureSz)
    ensures Future(flat, total, futureSz) == Future(flat0, csize, futureSz)
  {
  }

  /** Bytes of which the first hidden one is a one and all others are zero are missed where they are not. */
  lemma {:induction false} SomeLost(more: seq<Byte>, sz0: nat, csize: nat, total: nat,
      futureSz: nat) returns (flat0: seq<Byte>)
    requires futureSz <= csize <= sz0 && futureSz <= total <= Common(sz0, total) + |more| && csize != total
    requires !KeepsHidden(sz0, Common(sz0, total) + |more|, csize, total, futureSz)
    ensures |flat0| == sz0
    ensures Future(After(flat0, more, csize, total, futureSz), total, futureSz) != Future(flat0, csize, futureSz)
  {
    hide After, Resized, KeepsHidden;
    var sz := Common(sz0, total) + |more|;
    flat0 := Marked(sz0, csize - futureSz);
    AfterResized(flat0, more, csize, total, futureSz);
    SomeHidden(sz0, sz, csize, total, futureSz);
    if sz0 + futureSz <= total && total + futureSz <= sz {
      FreshSeen(flat0, more, csize, total, futureSz);
      if more[total - futureSz - sz0] == 1 {
        flat0 := Marked(sz0, sz0);
        FreshSeen(flat0, more, csize, total, futureSz);
        var seen := Future(After(flat0, more, csize, total, futureSz), total, futureSz);
        var hidden := Future(flat0, csize, futureSz);
        assert seen[0] == 1 && hidden[0] == 0;
        return;
      }
    }
    MarkLost(flat0, After(flat0, more, csize, total, futureSz), csize, total, futureSz);
  }

  lemma {:induction false} SomeHidden(sz0: nat, sz: nat, csize: nat, total: nat, futureSz: nat)
    requires !KeepsHidden(sz0, sz, csize, total, futureSz)
    ensures 0 < futureSz
  {
  }

  /** Behind the bytes it kept, and before those it carries, the segment has what is in the space it was given. */
  lemma {:induction false} FreshSeen(flat0: seq<Byte>, more: seq<Byte>, csize: nat, total: nat, futureSz: nat)
    requires 0 < futureSz <= csize <= |flat0| && |flat0| + futureSz <= total && total + futureSz <= |flat0| + |more|
    ensures After(flat0, more, csize, total, futureSz)[total - futureSz] == more[total - futureSz - |flat0|]
  {
  }

  /** The mark is lost, unless all that is looked at is space which the segment was given. */
  lemma {:induction false} MarkLost(flat0: seq<Byte>, flat: seq<Byte>, csize: nat, total: nat, futureSz: nat)
    requires futureSz <= csize <= |flat0| && futureSz <= total <= |flat| && Resized(flat0, flat, csize, total, futureSz)
    requires !KeepsHidden(|flat0|, |flat|, csize, total, futureSz) && flat0 == Marked(|flat0|, csize - futureSz)
    requires total < |flat0| + futureSz || |flat| < total + futureSz || flat[total - futureSz] != 1
    ensures Future(flat, total, futureSz) != Future(flat0, csize, futureSz)
  {
    hide Resized, After;
    var seen, hidden := Future(flat, total, futureSz), Future(flat0, csize, futureSz);
    assert hidden[0] == flat0[csize - futureSz] == 1;
    if total < |flat| && |flat0| + futureSz <= total && |flat| < total + futureSz {
      var pad := |flat| - total;
      ByteAt(flat0, flat, csize, total, futureSz, |flat| - futureSz);
      assert seen[pad] == flat[|flat| - futureSz] == 1 && hidden[pad] == flat0[csize - futureSz + pad] == 0;
    } else if total < |flat| {
      ByteAt(flat0, flat, csize, total, futureSz, total - futureSz);
      assert seen[0] == flat[total - futureSz];
    } else {
      ByteAt(flat0, flat, csize, total, futureSz, |flat| - futureSz);
      assert seen[0] == flat[|flat| - futureSz] == flat0[|flat0| - futureSz];
    }
  }

  /** A byte of the segment after a resize is one of those that were kept or carried. */
  lemma {:induction false} ByteAt(flat0: seq<Byte>, flat: seq<Byte>, csize: nat, total: nat, futureSz: nat, i: nat)
    requires futureSz <= csize <= |flat0| && futureSz <= total <= |flat| && Resized(flat0, flat, csize, total, futureSz)
    requires csize != total && i < |flat|
    ensures i < |flat| - futureSz && i < Common(|flat0|, total) ==> flat[i] == flat0[i]
    ensures |flat| - futureSz <= i ==>
              flat[i] == Carried(flat0, csize, total, futureSz)[i - (|flat| - futureSz)]
  {
    var n := Common(|flat0|, total);
    var flat1 := flat0[..n] + flat[n..];
    assert flat == Over(flat1, |flat1| - futureSz, Carried(flat0, csize, total, futureSz));
  }

  /** Zeros, but for a one at position at. */
  function Marked(n: nat, at: nat): (flat: seq<Byte>)
    ensures |flat| == n
  {
    seq(n, i => if i == at then 1 else 0)
  }

  /** How many bytes a holding has. */
  function SizeOf(h: Holding, blkSz: nat): nat {
    DataSizes(h.exts, blkSz) + h.inlineSz
  }

  // -- segments in use can be stored --

  /** Extents that share nothing are at a distance from one another. */
  lemma {:induction false} ChainedApart(prev: Extent, exts: seq<Extent>)
    requires (forall e :: e in exts ==> SegmentCodec.Writable(e) && !e.Empty())
    requires Disjoint([prev] + exts) && (prev == SegmentCodec.START || !prev.Empty())
    ensures SegmentCodec.Chained(prev, exts)
    decreases |exts|
  {
    if exts != [] {
      var e, rest := exts[0], exts[1..];
      assert e in exts && exts == [e] + rest;
      forall blk: nat, bit: nat | bit < 16
        ensures Covers([e] + rest, blk, bit) <= 1 && prev.Cover(blk, bit) + e.Cover(blk, bit) <= 1
      {
        CoversAppend([prev], exts, blk, bit);
        CoversAppend([e], rest, blk, bit);
        assert Covers([prev] + exts, blk, bit) <= 1;
      }
      if prev != SegmentCodec.START { OverlapIsShared(prev, e); }
      ChainedApart(e, rest);
    }
  }

  /** Each extent in use owns a block or a sub-block. */
  lemma {:induction false} CountBound(exts: seq<Extent>)
    requires Proper(exts)
    ensures |exts| <= FullBlks(exts) + SubBlks(exts)
  {
    if exts != [] {
      assert exts[0] in exts;
      CountBound(exts[1..]);
    }
  }

  lemma {:induction false} StorableExts(sp: Space, live: seq<Holding>, lost: seq<Extent>, ix: nat, blkSz: nat)
    requires Balanced(sp, Exts(live) + lost) && ix < |live| && GoodBlkSz(blkSz) && sp.pastEnd <= MAX_BLK_NR + 1
    ensures SegmentCodec.Chained(SegmentCodec.START, live[ix].exts) && |live[ix].exts| < SegmentCodec.MAX_LEN
  {
    hide Balanced, SegmentCodec.Chained;
    var exts, a, b := live[ix].exts, Exts(live[..ix]), Exts(live[ix + 1..]) + lost;
    Listed(live, lost, ix, blkSz);
    OwnedOnce(sp, a, exts, b, blkSz);
    forall e | e in exts
      ensures SegmentCodec.Writable(e) && !e.Empty()
    {
      assert e in a + exts + b;
      OwnedWithin(sp, a + exts + b, e);
      InUseSpan(sp, a + exts + b, e);
    }
    DisjointFromStart(exts);
    ChainedApart(SegmentCodec.START, exts);
    InUseCount(sp, a + exts + b);
  }

  lemma {:induction false} InUseSpan(sp: Space, owned: seq<Extent>, e: Extent)
    requires Balanced(sp, owned) && e in owned
    ensures e.Span() <= MAX_BLK_CNT
  {
  }

  lemma {:induction false} InUseCount(sp: Space, owned: seq<Extent>)
    requires Balanced(sp, owned)
    ensures |owned| <= 17 * sp.pastEnd
  {
    CountBound(owned);
  }

  lemma {:induction false} DisjointFromStart(exts: seq<Extent>)
    requires Disjoint(exts)
    ensures Disjoint([SegmentCodec.START] + exts)
  {
    forall blk: nat, bit: nat | bit < 16
      ensures Covers([SegmentCodec.START] + exts, blk, bit) <= 1
    {
      CoversAppend([SegmentCodec.START], exts, blk, bit);
    }
  }

  class ContentPart {
    var segm: Segment
    var csize: nat
    var futureCsize: nat

    /** The segment's place in the ledger of the allocator. */
    ghost var ix: nat

    constructor (blkSz: nat)
      ensures csize == 0 && futureCsize == 0 && segm.exts == [] && segm.Valid() && segm.blkSz == blkSz && fresh(segm)
    {
      segm := new Segment(blkSz);
      csize, futureCsize, ix := 0, 0, 0;
    }

    ghost predicate Valid(sa: SegmentAllocator)
      reads this, segm, sa, sa.arr, sa.fr, sa.sub
    {
      && sa.Valid() && futureCsize <= csize <= MAX_CSIZE && segm.Valid() && segm.blkSz == sa.arr.blkSz
      && (0 < csize ==>
            ix < |sa.live| && sa.live[ix] == segm.View() && csize <= segm.DataSpaceSize() && segm.HasEndOfSegment())
    }

    /** The bytes of the segment; only a part with content has a segment in use. */
    ghost function Bytes(sa: SegmentAllocator): (flat: seq<Byte>)
      requires Valid(sa) && 0 < csize
      reads this, segm, sa, sa.arr, sa.fr, sa.sub
      ensures |flat| == segm.DataSpaceSize()
    {
      sa.LiveMounted(segm, ix);
      FlatOf(sa.arr, segm)
    }

    /** The part as it is stored in the header of its descriptor. */
    function Stored(): DescriptorCodec.Part
      reads this, segm
    {
      DescriptorCodec.Part(csize, SegmentCodec.Struct(segm.exts, segm.HasEndOfSegment(), segm.raw))
    }

    /** A part with content can be stored and is read back equal: its segment has an end and its extents a distance. */
    lemma {:induction false} CanBeStored(sa: SegmentAllocator)
      requires Valid(sa) && 0 < csize
      ensures DescriptorCodec.GoodPart(Stored(), sa.arr.blkSz)
    {
      hide Balanced, NoneWhole, Tally, DataSizes, SegmentCodec.Chained;
      StorableExts(sa.Sp(), sa.live, sa.lost, ix, sa.arr.blkSz);
      assert sa.live[ix] in sa.live;
    }

    /** The size of the segment after a resize to total bytes, hidden ones included. */
    function SizeWith(total: nat, req: Req, blkSz: nat): nat
      reads this, segm
    {
      if total == csize then segm.DataSpaceSize() else SizeAfter(segm.exts, |segm.raw|, total, req, blkSz)
    }

    /** The part is as large as its segment. */
    ghost predicate Tight(sa: SegmentAllocator)
      reads this, segm
    {
      0 < csize ==> segm.DataSpaceSize() == csize
    }

    /** How many bytes a resize to total bytes, hidden ones included, requests. */
    function Need(total: nat, blkSz: nat): nat
      reads this, segm
    {
      if total == csize then 0 else Requested(segm.exts, |segm.raw|, total, blkSz)
    }

    predicate Parks(total: nat)
      reads this
    {
      total < csize && MEM_COPY_THRESHOLD <= futureCsize
    }

    /** The most blocks that a request for sz bytes makes the array grow by. */
    function Worst(sa: SegmentAllocator, req: Req, sz: nat): nat
      requires 0 < sa.arr.blkSz
    {
      WorstGrown(sz, req, sa.arr.blkSz, sa.fr.splitAbove)
    }

    /** The most blocks that such a resize makes the array grow by. */
    function Cost(sa: SegmentAllocator, req: Req, total: nat): nat
      requires 0 < sa.arr.blkSz
      reads this, segm
    {
      Worst(sa, req, Need(total, segm.blkSz)) + if Parks(total) then Worst(sa, req, futureCsize) else 0
    }

    /** Whether the requests of such a resize all succeed, whatever is free. */
    ghost predicate Feasible(sa: SegmentAllocator, req: Req, total: nat)
      requires 0 < sa.arr.blkSz
      reads this, segm, sa.arr`pastEnd, sa.arr`realEnd
    {
      && (0 < Need(total, segm.blkSz) ==> sa.WellAsked(Need(total, segm.blkSz), req))
      && (Parks(total) ==> sa.WellAsked(futureCsize, req))
      && sa.arr.CanReach(sa.arr.pastEnd + Cost(sa, req, total))
    }

    lemma {:induction false} FeasibleAffords(sa: SegmentAllocator, req: Req, total: nat)
      requires 0 < sa.arr.blkSz
      ensures Feasible(sa, req, total) ==> sa.Affords(Need(total, segm.blkSz), req)
      ensures Worst(sa, req, Need(total, segm.blkSz)) <= Cost(sa, req, total)
    {
      hide Reaches, WorstGrown;
      var cost := Cost(sa, req, total);
      sa.arr.CanReachLess(sa.arr.pastEnd + Worst(sa, req, Need(total, segm.blkSz)), sa.arr.pastEnd + cost);
    }

    lemma {:induction false} FeasiblePark(sa: SegmentAllocator, req: Req, total: nat)
      requires 0 < sa.arr.blkSz
      ensures Parks(total) && Feasible(sa, req, total) ==> sa.Granted(futureCsize, req)
      ensures Parks(total) ==>
                sa.MayGrow(futureCsize, req) + Worst(sa, req, Need(total, segm.blkSz)) <= Cost(sa, req, total)
      ensures Feasible(sa, req, total) ==>
                && (0 < Need(total, segm.blkSz) ==> sa.WellAsked(Need(total, segm.blkSz), req))
                && sa.arr.CanReach(sa.arr.pastEnd + Cost(sa, req, total))
    {
      hide Reaches, WorstGrown, SegmentAllocator.MayGrow;
      sa.AffordsGrants(futureCsize, req);
      if Parks(total) {
        sa.arr.CanReachLess(sa.arr.pastEnd + Worst(sa, req, futureCsize), sa.arr.pastEnd + Cost(sa, req, total));
      }
    }

    /** The most blocks that a resize to newSz present bytes makes the array grow by. */
    ghost function MayGrow(sa: SegmentAllocator, req: Req, newSz: nat): nat
      requires 0 < sa.arr.blkSz
      reads this, segm, sa.fr, sa.sub, sa.arr`pastEnd
    {
      if newSz + futureCsize == 0 then 0
      else if csize == 0 then sa.MayGrow(newSz, req)
      else Cost(sa, req, newSz + futureCsize)
    }

    /** Whether a resize to newSz present bytes will succeed. */
    ghost predicate Succeeds(sa: SegmentAllocator, req: Req, newSz: nat)
      requires 0 < sa.arr.blkSz
      reads this, segm, sa.fr, sa.sub, sa.arr`pastEnd, sa.arr`realEnd
    {
      || newSz + futureCsize == 0
      || (newSz + futureCsize <= MAX_CSIZE
          && if csize == 0 then sa.Granted(newSz, req) else Feasible(sa, req, newSz + futureCsize))
    }

    /** The content is expanding: its hidden bytes are copied from where they were to the end of the segment. */
    method Grow(sa: SegmentAllocator, req: Req, total: nat) returns (r: Outcome<()>)
      requires Valid(sa) && 0 < csize < total <= MAX_CSIZE
      modifies segm, sa, sa.fr, sa.sub, sa.arr
      ensures old(sa.lost) <= sa.lost
      ensures sa.arr.pastEnd <= old(sa.arr.pastEnd + Cost(sa, req, total)) && (old(Feasible(sa, req, total)) ==> r.Ok?)
      ensures sa.Valid() && sa.live == old(sa.live)[ix := segm.View()] && segm.Valid()
      ensures OthersSame(sa.live, ix, sa.arr.blkSz, old(sa.arr.buf), sa.arr.buf)
      ensures r.Ok? ==>
                && Mounted(sa.arr, segm) && segm.DataSpaceSize() == old(SizeWith(total, req, sa.arr.blkSz)) >= total
                && Resized(old(Bytes(sa)), FlatOf(sa.arr, segm), csize, total, futureCsize)
      ensures r.Throws? ==>
                sa.Refuses(total, req) && Mounted(sa.arr, segm) && FlatOf(sa.arr, segm) <= old(Bytes(sa))
    {
      hide WorstGrown, Requested, Reaches, SegmentAllocator.WellAsked, SegmentAllocator.Refuses, SegmentAllocator.Valid,
          SegPos, FlatOf, Over, OthersSame, AllKept, AllWithin, ApartFrom, Untouched, Mounted, DataSizes, Resized;
      sa.LiveSize(segm, ix);
      sa.GoodSize();
      FeasibleAffords(sa, req, total);
      ghost var buf0, flat0 := sa.arr.buf, FlatOf(sa.arr, segm);
      r := sa.Realloc(segm, total, req, ix);
      if r.Throws? { return; }
      sa.LiveSize(segm, ix);
      sa.LiveApartFrom(ix);
      ghost var live1, buf1, flat1 := sa.live, sa.arr.buf, FlatOf(sa.arr, segm);
      MoveToEnd(sa, segm, csize - futureCsize, futureCsize, ix);
      UntouchedKeeps(sa.live, ix, sa.arr.blkSz, buf1, sa.arr.buf);
      OthersThen(live1, sa.live, ix, sa.arr.blkSz, buf0, buf1, sa.arr.buf);
      GrownBytes(flat0, flat1, csize, total, futureCsize);
    }

    /** The content is shrinking: its hidden bytes are kept in memory meanwhile. */
    method ShrinkInMemory(sa: SegmentAllocator, req: Req, total: nat) returns (r: Outcome<()>)
      requires Valid(sa) && 0 < csize && futureCsize <= total < csize
      modifies segm, sa, sa.fr, sa.sub, sa.arr
      ensures old(sa.lost) <= sa.lost
      ensures sa.arr.pastEnd <= old(sa.arr.pastEnd + Cost(sa, req, total)) && (old(Feasible(sa, req, total)) ==> r.Ok?)
      ensures sa.Valid() && sa.live == old(sa.live)[ix := segm.View()] && segm.Valid()
      ensures OthersSame(sa.live, ix, sa.arr.blkSz, old(sa.arr.buf), sa.arr.buf)
      ensures r.Ok? ==>
                && Mounted(sa.arr, segm) && segm.DataSpaceSize() == old(SizeWith(total, req, sa.arr.blkSz)) >= total
                && Resized(old(Bytes(sa)), FlatOf(sa.arr, segm), csize, total, futureCsize)
      ensures r.Throws? ==>
                sa.Refuses(total, req) && Mounted(sa.arr, segm) && FlatOf(sa.arr, segm) <= old(Bytes(sa))
    {
      hide WorstGrown, Requested, Reaches, SegmentAllocator.WellAsked, SegmentAllocator.Refuses, SegmentAllocator.Valid,
          SegPos, FlatOf, Over, OthersSame, AllKept, AllWithin, ApartFrom, Untouched, Mounted, DataSizes, Resized;
      sa.LiveSize(segm, ix);
      sa.GoodSize();
      FeasibleAffords(sa, req, total);
      ghost var buf0, flat0 := sa.arr.buf, FlatOf(sa.arr, segm);
      var future := Save(sa.arr, segm, futureCsize, futureCsize);
      assert future == flat0[|flat0| - futureCsize..];
      r := sa.Realloc(segm, total, req, ix);
      if r.Throws? { return; }
      sa.LiveSize(segm, ix);
      sa.LiveApartFrom(ix);
      ghost var live1, buf1, flat1 := sa.live, sa.arr.buf, FlatOf(sa.arr, segm);
      sa.RestoreLive(segm, segm.DataSpaceSize() - futureCsize, future, ix);
      UntouchedKeeps(sa.live, ix, sa.arr.blkSz, buf1, sa.arr.buf);
      OthersThen(live1, sa.live, ix, sa.arr.blkSz, buf0, buf1, sa.arr.buf);
      ShrunkBytes(flat0, flat1, csize, total, futureCsize);
    }

    /** The content is shrinking: its many hidden bytes are kept in another segment meanwhile, which is never freed. */
    method ShrinkOnDisk(sa: SegmentAllocator, req: Req, total: nat) returns (r: Outcome<()>)
      requires Valid(sa) && 0 < csize && futureCsize <= total < csize
      modifies segm, sa, sa.fr, sa.sub, sa.arr
      ensures old(sa.lost) <= sa.lost
      ensures MEM_COPY_THRESHOLD <= futureCsize ==>
                && sa.arr.pastEnd <= old(sa.arr.pastEnd + Cost(sa, req, total))
                && (old(Feasible(sa, req, total)) ==> r.Ok?)
      ensures sa.Valid() && ix < |sa.live| && sa.live[ix] == segm.View() && segm.Valid()
      ensures |old(sa.live)| <= |sa.live| <= |old(sa.live)| + 1
          && sa.live[..|old(sa.live)|] == old(sa.live)[ix := segm.View()]
      ensures OthersSame(sa.live[..|old(sa.live)|], ix, sa.arr.blkSz, old(sa.arr.buf), sa.arr.buf)
      ensures r.Ok? ==>
                && |sa.live| == |old(sa.live)| + 1
                && Mounted(sa.arr, segm) && segm.DataSpaceSize() == old(SizeWith(total, req, sa.arr.blkSz)) >= total
                && Resized(old(Bytes(sa)), FlatOf(sa.arr, segm), csize, total, futureCsize)
      ensures r.Ok? ==> SizeOf(sa.live[|old(sa.live)|], sa.arr.blkSz) == AllocSize(futureCsize, req, sa.arr.blkSz)
      ensures r.Throws? ==>
                sa.Refuses(total, req) && Mounted(sa.arr, segm) && FlatOf(sa.arr, segm) <= old(Bytes(sa))
    {
      hide AllocSize, Cost, Feasible, Need, WorstGrown, Requested, Reaches, SegmentAllocator.MayGrow,
          SegmentAllocator.WellAsked, SegmentAllocator.Granted, SegmentAllocator.Refuses, SegmentAllocator.Valid,
          SegPos, FlatOf, Over, OthersSame, Kept, AllKept, Mounted, DataSizes, Resized;
      ghost var live0, buf0, flat0 := sa.live, sa.arr.buf, Bytes(sa);
      sa.GoodSize();
      ghost var need := Worst(sa, req, Need(total, segm.blkSz));
      ghost var goal := sa.arr.pastEnd + Cost(sa, req, total);
      FeasiblePark(sa, req, total);
      var t := Park(sa, req);
      if Parks(total) { sa.NotReached(old(sa.arr.pastEnd), old(sa.arr.realEnd), sa.arr.pastEnd + need, goal); }
      assert t.Throws? ==> sa.live[..|live0|] == sa.live == live0[ix := live0[ix]];
      if t.Throws? {
        sa.RefusesMore(futureCsize, total, req);
        return Throws(t.error);
      }
      r := ShrinkBeside(sa, req, total, t.value, live0, buf0, flat0);
    }

    /** Resizes the segment while its hidden bytes are in another one, and puts them back. */
    method ShrinkBeside(sa: SegmentAllocator, req: Req, total: nat, t: Segment, ghost live0: seq<Holding>,
        ghost buf0: seq<Byte>, ghost flat0: seq<Byte>) returns (r: Outcome<()>)
      requires Valid(sa) && 0 < csize && futureCsize <= total < csize && ix < |live0| && t != segm
      requires t.Valid() && t.blkSz == sa.arr.blkSz && Mounted(sa.arr, t) && sa.live == live0 + [t.View()]
      requires AllKept(live0, sa.arr.blkSz, buf0, sa.arr.buf) && flat0 == Bytes(sa) && futureCsize <= t.DataSpaceSize()
      requires FlatOf(sa.arr, t)[..futureCsize] == Last(flat0, futureCsize)
      modifies segm, sa, sa.fr, sa.sub, sa.arr
      ensures old(sa.lost) <= sa.lost
      ensures sa.arr.pastEnd <= old(sa.arr.pastEnd + Worst(sa, req, Need(total, segm.blkSz)))
      ensures old(sa.Affords(Need(total, segm.blkSz), req)) ==> r.Ok?
      ensures sa.Valid() && |sa.live| == |live0| + 1 && sa.live[..|live0|] == live0[ix := segm.View()] && segm.Valid()
      ensures OthersSame(sa.live[..|live0|], ix, sa.arr.blkSz, buf0, sa.arr.buf)
      ensures r.Ok? ==>
                && Mounted(sa.arr, segm) && segm.DataSpaceSize() == old(SizeWith(total, req, sa.arr.blkSz)) >= total
                && Resized(flat0, FlatOf(sa.arr, segm), csize, total, futureCsize)
      ensures sa.live[|live0|] == old(t.View())
      ensures r.Throws? ==>
                sa.Refuses(total, req) && Mounted(sa.arr, segm) && FlatOf(sa.arr, segm) <= flat0
    {
      hide SegmentAllocator.Affords, Worst, Need, SegmentAllocator.Refuses, SegmentAllocator.Valid, SegPos, FlatOf,
          Over, OthersSame, Kept, AllKept, Mounted, DataSizes, Resized;
      ghost var jx, buf1 := |live0|, sa.arr.buf;
      r := ReallocBeside(sa, req, total, t, jx);
      FirstOthers(live0, sa.live, ix, sa.arr.blkSz, buf0, buf1, sa.arr.buf);
      if r.Throws? { return; }
      ghost var buf2, flat1 := sa.arr.buf, FlatOf(sa.arr, segm);
      Unpark(sa, t, jx);
      FirstSame(live0, sa.live, ix, sa.arr.blkSz, buf0, buf2, sa.arr.buf);
      ShrunkBytes(flat0, flat1, csize, total, futureCsize);
    }

    /** Resizes the segment; the other one keeps its bytes. */
    method ReallocBeside(sa: SegmentAllocator, req: Req, total: nat, t: Segment, ghost jx: nat) returns (r: Outcome<()>)
      requires Valid(sa) && 0 < csize && total < csize && jx < |sa.live| && jx != ix && t != segm
      requires sa.live[jx] == t.View() && t.Valid() && t.blkSz == sa.arr.blkSz && Mounted(sa.arr, t)
      modifies segm, sa, sa.fr, sa.sub, sa.arr
      ensures old(sa.lost) <= sa.lost
      ensures sa.arr.pastEnd <= old(sa.arr.pastEnd + Worst(sa, req, Need(total, segm.blkSz)))
      ensures old(sa.Affords(Need(total, segm.blkSz), req)) ==> r.Ok?
      ensures sa.Valid() && sa.live == old(sa.live)[ix := segm.View()] && segm.Valid()
      ensures OthersSame(sa.live, ix, sa.arr.blkSz, old(sa.arr.buf), sa.arr.buf)
      ensures Mounted(sa.arr, t) && FlatOf(sa.arr, t) == old(FlatOf(sa.arr, t))
      ensures r.Ok? ==>
                && Mounted(sa.arr, segm) && segm.DataSpaceSize() == old(SizeWith(total, req, sa.arr.blkSz)) >= total
                && FlatOf(sa.arr, segm)[..total] == old(Bytes(sa))[..total]
      ensures r.Throws? ==>
                sa.Refuses(total, req) && Mounted(sa.arr, segm) && FlatOf(sa.arr, segm) <= old(Bytes(sa))
    {
      hide WorstGrown, Requested, Reaches, SegmentAllocator.Affords, SegmentAllocator.Refuses, SegmentAllocator.Valid,
          SegPos, FlatOf, OthersSame, Kept, Mounted, DataSizes;
      ghost var buf0 := sa.arr.buf;
      sa.LiveSize(segm, ix);
      FlatIs(sa.arr, t);
      r := sa.Realloc(segm, total, req, ix);
      sa.LiveSize(t, jx);
      FlatIs(sa.arr, t);
      OtherSame(sa.live, ix, jx, sa.arr.blkSz, buf0, sa.arr.buf);
      SameFlatOf(buf0, sa.arr.buf, SegPos(t.exts, sa.arr.blkSz), t.raw);
    }

    /** Copies the hidden bytes back, to the end of the segment. */
    method Unpark(sa: SegmentAllocator, t: Segment, ghost jx: nat)
      requires sa.Valid() && ix < |sa.live| && sa.live[ix] == segm.View() && segm.Valid() && segm.blkSz == sa.arr.blkSz
      requires jx < |sa.live| && jx != ix && t != segm && sa.live[jx] == t.View() && t.Valid()
          && t.blkSz == sa.arr.blkSz
      requires Mounted(sa.arr, segm) && Mounted(sa.arr, t) && futureCsize <= t.DataSpaceSize()
          && futureCsize <= segm.DataSpaceSize()
      modifies sa.arr`buf, segm`raw
      ensures sa.Valid() && sa.live[ix] == segm.View() && segm.Valid() && Mounted(sa.arr, segm)
      ensures AllKept(sa.live[..ix] + sa.live[ix + 1..], sa.arr.blkSz, old(sa.arr.buf), sa.arr.buf)
      ensures FlatOf(sa.arr, segm) == Over(old(FlatOf(sa.arr, segm)), segm.DataSpaceSize() - futureCsize,
          old(FlatOf(sa.arr, t))[..futureCsize])
    {
      hide SegmentAllocator.Valid, SegPos, FlatOf, Over, AllKept, AllWithin, ApartFrom, Untouched, Mounted, DataSizes;
      sa.LiveSize(segm, ix);
      sa.LiveSize(t, jx);
      sa.LiveApartFrom(ix);
      ghost var flat := FlatOf(sa.arr, t);
      assert flat[0..0 + futureCsize] == flat[..futureCsize];
      CopyBetween(sa, t, t.DataSpaceSize(), segm, segm.DataSpaceSize() - futureCsize, futureCsize, jx, ix);
      UntouchedKeeps(sa.live, ix, sa.arr.blkSz, old(sa.arr.buf), sa.arr.buf);
    }

    /** Copies the hidden bytes to a new segment. */
    method Park(sa: SegmentAllocator, req: Req) returns (r: Outcome<Segment>)
      requires Valid(sa) && 0 < csize
      modifies sa, sa.fr, sa.sub, sa.arr
      ensures old(sa.lost) <= sa.lost
      ensures old(sa.arr.pastEnd) <= sa.arr.pastEnd && old(sa.arr.realEnd) <= sa.arr.realEnd
      ensures sa.arr.pastEnd <= old(sa.arr.pastEnd + sa.MayGrow(futureCsize, req))
      ensures old(sa.Granted(futureCsize, req)) ==> r.Ok?
      ensures sa.Valid()
      ensures r.Throws? ==>
                sa.live == old(sa.live) && OthersSame(sa.live, ix, sa.arr.blkSz, old(sa.arr.buf), sa.arr.buf)
      ensures r.Ok? ==>
                && fresh(r.value) && r.value.Valid() && r.value.blkSz == sa.arr.blkSz
                    && sa.live == old(sa.live) + [r.value.View()]
                && AllKept(old(sa.live), sa.arr.blkSz, old(sa.arr.buf), sa.arr.buf)
                && Mounted(sa.arr, r.value)
                && futureCsize <= r.value.DataSpaceSize() == AllocSize(futureCsize, req, sa.arr.blkSz)
                && FlatOf(sa.arr, r.value)[..futureCsize] == Last(old(Bytes(sa)), futureCsize)
                && Mounted(sa.arr, segm) && FlatOf(sa.arr, segm) == old(Bytes(sa))
      ensures r.Throws? ==>
                sa.Refuses(futureCsize, req) && Mounted(sa.arr, segm) && FlatOf(sa.arr, segm) == old(Bytes(sa))
    {
      hide AllocSize, SegmentAllocator.MayGrow, SegmentAllocator.Granted, SegmentAllocator.Refuses,
          SegmentAllocator.Valid, SegPos, FlatOf, Over, OthersSame, Kept, AllKept, AllWithin, ApartFrom, Untouched,
          Mounted, DataSizes;
      ghost var live0, buf0, flat0 := sa.live, sa.arr.buf, Bytes(sa);
      sa.LiveSize(segm, ix);
      FlatIs(sa.arr, segm);
      r := sa.Alloc(futureCsize, req);
      KeptOf(live0, ix, sa.arr.blkSz, buf0, sa.arr.buf);
      sa.LiveSize(segm, ix);
      FlatIs(sa.arr, segm);
      SameFlatOf(buf0, sa.arr.buf, SegPos(segm.exts, sa.arr.blkSz), segm.raw);
      if r.Throws? { return; }
      ghost var jx := |live0|;
      ParkIn(sa, r.value, jx, live0, buf0);
    }

    /** Copies the hidden bytes to a segment that was added to the ledger. */
    method ParkIn(sa: SegmentAllocator, t: Segment, ghost jx: nat, ghost live0: seq<Holding>, ghost buf0: seq<Byte>)
      requires Valid(sa) && 0 < csize && futureCsize <= t.DataSpaceSize() && ix < |live0| && Mounted(sa.arr, segm)
      requires t.Valid() && t.blkSz == sa.arr.blkSz && t != segm && jx == |live0| && sa.live == live0 + [t.View()]
      requires AllKept(live0, sa.arr.blkSz, buf0, sa.arr.buf)
      modifies sa.arr`buf, t`raw
      ensures sa.Valid() && t.Valid() && sa.live == live0 + [t.View()]
      ensures AllKept(live0, sa.arr.blkSz, buf0, sa.arr.buf) && Mounted(sa.arr, t) && t.exts == old(t.exts)
      ensures futureCsize <= t.DataSpaceSize() == old(t.DataSpaceSize())
          && FlatOf(sa.arr, t)[..futureCsize] == Last(old(FlatOf(sa.arr, segm)), futureCsize)
      ensures Mounted(sa.arr, segm) && FlatOf(sa.arr, segm) == old(FlatOf(sa.arr, segm))
    {
      hide SegmentAllocator.Valid, SegPos, FlatOf, Over, OthersSame, Kept, AllKept, AllWithin, ApartFrom, Untouched,
          Mounted, DataSizes;
      ghost var buf1, flat0 := sa.arr.buf, FlatOf(sa.arr, segm);
      sa.LiveSize(segm, ix);
      sa.LiveSize(t, jx);
      FlatIs(sa.arr, segm);
      sa.LiveApartFrom(jx);
      ghost var parked0 := FlatOf(sa.arr, t);
      assert flat0[|flat0| - futureCsize..|flat0| - futureCsize + futureCsize] == Last(flat0, futureCsize);
      CopyBetween(sa, segm, futureCsize, t, 0, futureCsize, ix, jx);
      UntouchedKeeps(sa.live, jx, sa.arr.blkSz, buf1, sa.arr.buf);
      AllKeptThen(live0, sa.live, sa.arr.blkSz, buf0, buf1, sa.arr.buf);
      KeptHere(live0, sa.live, jx, ix, sa.arr.blkSz, buf1, sa.arr.buf);
      FlatIs(sa.arr, segm);
      SameFlatOf(buf1, sa.arr.buf, SegPos(segm.exts, sa.arr.blkSz), segm.raw);
      OverFrontBytes(parked0, Last(flat0, futureCsize));
    }

    /** The holdings of others. */
    ghost function Theirs(sa: SegmentAllocator): seq<Holding>
      requires Valid(sa)
      reads this, segm, sa, sa.arr, sa.fr, sa.sub
    {
      if 0 < csize then sa.live[..ix] + sa.live[ix + 1..] else sa.live
    }

    /** Whether a resize to newSz keeps the hidden bytes in a segment that is never freed. */
    predicate ParksForGood(newSz: nat)
      reads this
    {
      MEM_COPY_THRESHOLD <= futureCsize && newSz + futureCsize < csize
    }

    /** Whether a resize to newSz keeps the hidden bytes. */
    predicate Safe(newSz: nat, req: Req, blkSz: nat)
      reads this, segm
    {
      var total := newSz + futureCsize;
      KeepsHidden(segm.DataSpaceSize(), SizeWith(total, req, blkSz), csize, total, futureCsize)
    }

    /** Changes the size of the present content; the hidden bytes of a future version stay behind it. */
    method Resize(sa: SegmentAllocator, req: Req, newSz: nat) returns (r: Outcome<()>)
      requires Valid(sa)
      modifies this, segm, sa, sa.fr, sa.sub, sa.arr
      ensures old(sa.lost) <= sa.lost
      ensures sa.arr.pastEnd <= old(sa.arr.pastEnd + MayGrow(sa, req, newSz))
      ensures (old(Succeeds(sa, req, newSz)) ==> r.Ok?)
      ensures sa.Valid() && csize == (if r.Ok? then newSz + futureCsize else old(csize))
      ensures futureCsize == old(futureCsize)
      ensures MAX_CSIZE < newSz + futureCsize && (0 < old(csize) || 0 < newSz) ==> r.Throws?
      ensures r.Throws? ==> MAX_CSIZE < newSz + futureCsize || sa.Refuses(newSz + futureCsize, req)
      ensures r.Throws? && 0 < old(csize) ==>
                && segm == old(segm) && ix < |sa.live| && sa.live[ix] == segm.View() && segm.Valid()
                && Mounted(sa.arr, segm) && FlatOf(sa.arr, segm) <= old(Bytes(sa))
      ensures AllKept(old(Theirs(sa)), sa.arr.blkSz, old(sa.arr.buf), sa.arr.buf)
      ensures r.Ok? ==> Valid(sa) && old(Theirs(sa)) <= Theirs(sa) && (segm == old(segm) || fresh(segm))
      ensures r.Ok? && 0 < csize ==> segm.HasEndOfSegment()
      ensures r.Ok? && csize == 0 < old(csize) ==>
                segm.exts == [] && segm.raw == [] && !segm.HasEndOfSegment() && sa.arr.buf == old(sa.arr.buf)
      ensures r.Ok? ==> |Theirs(sa)| == |old(Theirs(sa))| + if old(ParksForGood(newSz)) then 1 else 0
      ensures r.Ok? && old(ParksForGood(newSz)) ==>
                var theirs := Theirs(sa);
                SizeOf(theirs[|theirs| - 1], sa.arr.blkSz) == AllocSize(futureCsize, req, sa.arr.blkSz)
      ensures r.Ok? && 0 < old(csize) && 0 < csize ==>
                Resized(old(Bytes(sa)), Bytes(sa), old(csize), csize, futureCsize)
      ensures r.Ok? && 0 < old(csize) && 0 < csize && old(Safe(newSz, req, sa.arr.blkSz)) ==>
                Future(Bytes(sa), csize, futureCsize) == old(Future(Bytes(sa), csize, futureCsize))
      ensures r.Ok? && old(csize) == 0 < csize ==> segm.DataSpaceSize() == AllocSize(newSz, req, sa.arr.blkSz)
      ensures r.Ok? && 0 < old(csize) && 0 < csize ==>
                segm.DataSpaceSize() == old(SizeWith(newSz + futureCsize, req, sa.arr.blkSz))
      ensures r.Ok? && req.Exact(sa.arr.blkSz) && old(Tight(sa)) ==> Tight(sa)
    {
      hide Cost, Feasible, SegmentAllocator.MayGrow, SegmentAllocator.Granted, SegmentAllocator.Refuses,
          SegmentAllocator.Valid, SegPos, FlatOf, OthersSame, AllKept, Mounted, DataSizes, Resized, SizeAfter, Future,
          AllocSize;
      TheirsKept(sa);
      sa.GoodSize();
      SizeAfterRange(segm.exts, |segm.raw|, newSz + futureCsize, req, sa.arr.blkSz);
      if csize == 0 && newSz == 0 { return Ok(()); }
      if 0 < csize { StillMounted(sa); }
      if newSz + futureCsize > MAX_CSIZE { return Throws(BadRequest); }
      if csize == 0 {
        r := First(sa, req, newSz);
      } else if newSz == 0 && futureCsize == 0 {
        Empty(sa);
        r := Ok(());
      } else {
        r := Change(sa, req, newSz + futureCsize);
        if r.Ok? { csize := newSz + futureCsize; }
      }
    }

    lemma {:induction false} StillMounted(sa: SegmentAllocator)
      requires Valid(sa) && 0 < csize
      ensures Mounted(sa.arr, segm) && FlatOf(sa.arr, segm) == Bytes(sa)
    {
      sa.LiveMounted(segm, ix);
    }

    lemma {:induction false} TheirsKept(sa: SegmentAllocator)
      requires Valid(sa)
      ensures AllKept(Theirs(sa), sa.arr.blkSz, sa.arr.buf, sa.arr.buf)
    {
      sa.NothingHappens();
    }

    /** No content any more, and none that is hidden. */
    method Empty(sa: SegmentAllocator)
      requires Valid(sa) && 0 < csize && futureCsize == 0
      modifies this, segm, sa, sa.fr, sa.sub, sa.arr`buf
      ensures Valid(sa) && csize == 0 && futureCsize == 0 && segm == old(segm) && sa.lost == old(sa.lost)
      ensures segm.exts == [] && segm.raw == [] && !segm.HasEndOfSegment() && sa.arr.buf == old(sa.arr.buf)
      ensures Theirs(sa) == old(Theirs(sa)) && AllKept(Theirs(sa), sa.arr.blkSz, old(sa.arr.buf), sa.arr.buf)
    {
      hide SegmentAllocator.Valid, SegPos, AllKept, DataSizes;
      sa.Dealloc(segm, false, ix);
      segm.RemoveInlineData();
      var unmarked := segm.RemoveEndOfSegment();
      segm.Clear();
      csize := 0;
    }

    /** The first content: a new segment. */
    method First(sa: SegmentAllocator, req: Req, newSz: nat) returns (r: Outcome<()>)
      requires Valid(sa) && csize == 0 && 0 < newSz <= MAX_CSIZE
      modifies this, sa, sa.fr, sa.sub, sa.arr
      ensures old(sa.lost) <= sa.lost
      ensures sa.arr.pastEnd <= old(sa.arr.pastEnd + sa.MayGrow(newSz, req))
      ensures old(sa.Granted(newSz, req)) ==> r.Ok?
      ensures sa.Valid() && csize == (if r.Ok? then newSz else 0) && futureCsize == 0
      ensures AllKept(old(sa.live), sa.arr.blkSz, old(sa.arr.buf), sa.arr.buf)
      ensures r.Ok? ==> Valid(sa) && segm.DataSpaceSize() == AllocSize(newSz, req, sa.arr.blkSz)
      ensures r.Throws? ==> sa.Refuses(newSz, req)
      ensures r.Ok? ==> Theirs(sa) == old(sa.live) && fresh(segm)
    {
      hide SegmentAllocator.MayGrow, SegmentAllocator.Granted, SegmentAllocator.Refuses, SegmentAllocator.Valid,
          SegmentAllocator.ReusedFor, SegPos, AllKept, DataSizes;
      var t := sa.Alloc(newSz, req);
      if t.Throws? { return Throws(t.error); }
      segm := t.value;
      segm.AddEndOfSegment();
      csize := newSz;
      ix := |sa.live| - 1;
      r := Ok(());
    }

    /** Another size, neither from nothing nor to nothing. */
    method Change(sa: SegmentAllocator, req: Req, total: nat) returns (r: Outcome<()>)
      requires Valid(sa) && 0 < csize && futureCsize <= total <= MAX_CSIZE
      modifies segm, sa, sa.fr, sa.sub, sa.arr
      ensures old(sa.lost) <= sa.lost
      ensures sa.arr.pastEnd <= old(sa.arr.pastEnd + Cost(sa, req, total)) && (old(Feasible(sa, req, total)) ==> r.Ok?)
      ensures sa.Valid() && AllKept(old(Theirs(sa)), sa.arr.blkSz, old(sa.arr.buf), sa.arr.buf)
      ensures r.Ok? ==>
                && ix < |sa.live| && sa.live[ix] == segm.View() && segm.Valid() && Mounted(sa.arr, segm)
                && segm.HasEndOfSegment()
                && segm.DataSpaceSize() == old(SizeWith(total, req, sa.arr.blkSz)) >= total
                && Resized(old(Bytes(sa)), FlatOf(sa.arr, segm), csize, total, futureCsize)
                && (KeepsHidden(old(segm.DataSpaceSize()), segm.DataSpaceSize(), csize, total, futureCsize) ==>
                      Future(FlatOf(sa.arr, segm), total, futureCsize) == Future(old(Bytes(sa)), csize, futureCsize))
      ensures r.Ok? ==>
                var theirs := sa.live[..ix] + sa.live[ix + 1..];
                var parked := if total < csize && MEM_COPY_THRESHOLD <= futureCsize then 1 else 0;
                old(Theirs(sa)) <= theirs && |theirs| == |old(Theirs(sa))| + parked
      ensures r.Ok? && Parks(total) ==>
                var theirs := sa.live[..ix] + sa.live[ix + 1..];
                SizeOf(theirs[|theirs| - 1], sa.arr.blkSz) == AllocSize(futureCsize, req, sa.arr.blkSz)
      ensures r.Throws? ==>
                sa.Refuses(total, req) && Mounted(sa.arr, segm) && FlatOf(sa.arr, segm) <= old(Bytes(sa))
      ensures r.Throws? ==> ix < |sa.live| && sa.live[ix] == segm.View() && segm.Valid()
    {
      hide AllocSize, Cost, Feasible, SegmentAllocator.Refuses, SegmentAllocator.Valid, SegPos, FlatOf, AllKept,
          Mounted, DataSizes, Resized, SizeWith, Future, KeepsHidden;
      ghost var live0, flat0 := sa.live, Bytes(sa);
      r := Reshape(sa, req, total);
      if r.Throws? { return; }
      TheirsGrown(live0, sa.live, ix);
      FlatIs(sa.arr, segm);
      segm.AddEndOfSegment();
      sa.LiveMounted(segm, ix);
      FlatIs(sa.arr, segm);
      if KeepsHidden(|flat0|, segm.DataSpaceSize(), csize, total, futureCsize) {
        StillHidden(flat0, FlatOf(sa.arr, segm), csize, total, futureCsize);
      }
    }

    /** Grows or shrinks the segment; the end marker may be gone. */
    method Reshape(sa: SegmentAllocator, req: Req, total: nat) returns (r: Outcome<()>)
      requires Valid(sa) && 0 < csize && futureCsize <= total <= MAX_CSIZE
      modifies segm, sa, sa.fr, sa.sub, sa.arr
      ensures old(sa.lost) <= sa.lost
      ensures sa.arr.pastEnd <= old(sa.arr.pastEnd + Cost(sa, req, total)) && (old(Feasible(sa, req, total)) ==> r.Ok?)
      ensures sa.Valid() && AllKept(old(Theirs(sa)), sa.arr.blkSz, old(sa.arr.buf), sa.arr.buf)
      ensures r.Ok? ==>
                && |sa.live| == |old(sa.live)| + (if total < csize && MEM_COPY_THRESHOLD <= futureCsize then 1 else 0)
                && sa.live[..|old(sa.live)|] == old(sa.live)[ix := segm.View()]
      ensures r.Ok? ==>
                && ix < |sa.live| && sa.live[ix] == segm.View() && segm.Valid() && Mounted(sa.arr, segm)
                && segm.DataSpaceSize() == old(SizeWith(total, req, sa.arr.blkSz)) >= total
                && Resized(old(Bytes(sa)), FlatOf(sa.arr, segm), csize, total, futureCsize)
      ensures r.Ok? && Parks(total) ==>
                SizeOf(sa.live[|old(sa.live)|], sa.arr.blkSz) == AllocSize(futureCsize, req, sa.arr.blkSz)
      ensures r.Throws? ==>
                sa.Refuses(total, req) && Mounted(sa.arr, segm) && FlatOf(sa.arr, segm) <= old(Bytes(sa))
      ensures r.Throws? ==> ix < |sa.live| && sa.live[ix] == segm.View() && segm.Valid()
    {
      hide AllocSize, Cost, Feasible, SegmentAllocator.Refuses, SegmentAllocator.Valid, SegPos, FlatOf, OthersSame,
          AllKept, Mounted, DataSizes, Resized;
      ghost var live0, buf0 := sa.live, sa.arr.buf;
      sa.LiveMounted(segm, ix);
      if csize < total {
        r := Grow(sa, req, total);
        TheirsOf(live0, sa.live, ix, sa.arr.blkSz, buf0, sa.arr.buf);
      } else if csize > total {
        if futureCsize < MEM_COPY_THRESHOLD {
          r := ShrinkInMemory(sa, req, total);
          TheirsOf(live0, sa.live, ix, sa.arr.blkSz, buf0, sa.arr.buf);
        } else {
          r := ShrinkOnDisk(sa, req, total);
          TheirsOf(live0, sa.live[..|live0|], ix, sa.arr.blkSz, buf0, sa.arr.buf);
        }
      } else {
        TheirsKept(sa);
        ResizedSame(FlatOf(sa.arr, segm), csize, futureCsize);
        r := Ok(());
      }
    }
  }

  lemma {:induction false} ResizedSame(flat: seq<Byte>, csize: nat, futureSz: nat)
    requires futureSz <= csize <= |flat|
    ensures Resized(flat, flat, csize, csize, futureSz)
  {
  }

  lemma {:induction false} TheirsGrown(hs: seq<Holding>, now: seq<Holding>, ix: nat)
    requires ix < |hs| <= |now| && now[..|hs|] == hs[ix := now[ix]]
    ensures var theirs0, theirs := hs[..ix] + hs[ix + 1..], now[..ix] + now[ix + 1..];
            theirs0 <= theirs && |theirs| == |theirs0| + |now| - |hs|
  {
    var theirs0, theirs := hs[..ix] + hs[ix + 1..], now[..ix] + now[ix + 1..];
    forall i | 0 <= i < |theirs0|
      ensures theirs[i] == theirs0[i]
    {
      var k := if i < ix then i else i + 1;
      assert now[..|hs|][k] == hs[k];
    }
  }

  lemma {:induction false} TheirsOf(hs: seq<Holding>, now: seq<Holding>, ix: nat, blkSz: nat, buf0: seq<Byte>,
      buf: seq<Byte>)
    requires ix < |hs| == |now| && now == hs[ix := now[ix]] && OthersSame(now, ix, blkSz, buf0, buf)
    ensures AllKept(hs[..ix] + hs[ix + 1..], blkSz, buf0, buf)
  {
    var others := hs[..ix] + hs[ix + 1..];
    forall i | 0 <= i < |others|
      ensures Kept(buf0, buf, SegPos(others[i].exts, blkSz))
    {
      assert others[i] == now[if i < ix then i else i + 1];
    }
  }

  lemma {:induction false} SameFlatOf(buf0: seq<Byte>, buf: seq<Byte>, pos: seq<nat>, raw: seq<Byte>)
    requires Layout.Within(pos, |buf0|) && Layout.Within(pos, |buf|) && Kept(buf0, buf, pos)
    ensures Flat(buf, pos, raw) == Flat(buf0, pos, raw)
  {
  }

  lemma {:induction false} OverFrontBytes(flat: seq<Byte>, data: seq<Byte>)
    requires |data| <= |flat|
    ensures Over(flat, 0, data)[..|data|] == data
  {
  }

  lemma {:induction false} AllKeptThen(hs: seq<Holding>, more: seq<Holding>, blkSz: nat, buf0: seq<Byte>,
      buf1: seq<Byte>, buf2: seq<Byte>)
    requires |more| == |hs| + 1 && more[..|hs|] == hs && AllKept(hs, blkSz, buf0, buf1)
    requires AllKept(more[..|hs|] + more[|hs| + 1..], blkSz, buf1, buf2)
    ensures AllKept(hs, blkSz, buf0, buf2)
  {
    assert more[..|hs|] + more[|hs| + 1..] == hs;
    forall i | 0 <= i < |hs|
      ensures Kept(buf0, buf2, SegPos(hs[i].exts, blkSz))
    {
      KeptThen(buf0, buf1, buf2, SegPos(hs[i].exts, blkSz));
    }
  }

  lemma {:induction false} KeptHere(hs: seq<Holding>, more: seq<Holding>, jx: nat, ix: nat, blkSz: nat,
      buf0: seq<Byte>, buf: seq<Byte>)
    requires jx == |hs| && |more| == |hs| + 1 && more[..|hs|] == hs && ix < |hs|
    requires AllKept(more[..jx] + more[jx + 1..], blkSz, buf0, buf)
    ensures more[ix] == hs[ix] && Kept(buf0, buf, SegPos(more[ix].exts, blkSz))
  {
    assert more[..jx] + more[jx + 1..] == hs && more[..|hs|][ix] == hs[ix];
  }

  lemma {:induction false} FirstOthers(hs: seq<Holding>, now: seq<Holding>, ix: nat, blkSz: nat, buf0: seq<Byte>,
      buf1: seq<Byte>, buf2: seq<Byte>)
    requires ix < |hs| && |now| == |hs| + 1 && now[..|hs|] == hs[ix := now[ix]]
    requires AllKept(hs, blkSz, buf0, buf1) && OthersSame(now, ix, blkSz, buf1, buf2)
    ensures OthersSame(now[..|hs|], ix, blkSz, buf0, buf2)
  {
    forall i | 0 <= i < |hs| && i != ix
      ensures Kept(buf0, buf2, SegPos(now[..|hs|][i].exts, blkSz))
    {
      assert now[..|hs|][i] == hs[i] && now[i] == hs[i];
      KeptThen(buf0, buf1, buf2, SegPos(hs[i].exts, blkSz));
    }
  }

  lemma {:induction false} FirstSame(hs: seq<Holding>, now: seq<Holding>, ix: nat, blkSz: nat, buf0: seq<Byte>,
      buf1: seq<Byte>, buf2: seq<Byte>)
    requires ix < |hs| && |now| == |hs| + 1
    requires OthersSame(now[..|hs|], ix, blkSz, buf0, buf1) && AllKept(now[..ix] + now[ix + 1..], blkSz, buf1, buf2)
    ensures OthersSame(now[..|hs|], ix, blkSz, buf0, buf2)
  {
    var first, others := now[..|hs|], now[..ix] + now[ix + 1..];
    forall i | 0 <= i < |hs| && i != ix
      ensures Kept(buf0, buf2, SegPos(first[i].exts, blkSz))
    {
      assert others[if i < ix then i else i - 1] == first[i];
      KeptThen(buf0, buf1, buf2, SegPos(first[i].exts, blkSz));
    }
  }

  lemma {:induction false} OtherSame(hs: seq<Holding>, ix: nat, j: nat, blkSz: nat, buf0: seq<Byte>, buf: seq<Byte>)
    requires OthersSame(hs, ix, blkSz, buf0, buf) && j < |hs| && j != ix
    ensures Kept(buf0, buf, SegPos(hs[j].exts, blkSz))
  {
  }

  lemma {:induction false} GrownBytes(flat0: seq<Byte>, flat1: seq<Byte>, csize: nat, total: nat, futureSz: nat)
    requires futureSz <= csize <= |flat0| && csize < total <= |flat1|
    requires flat1[..Common(|flat0|, total)] == flat0[..Common(|flat0|, total)]
    ensures var flat := Over(flat1, |flat1| - futureSz, flat1[csize - futureSz..csize]);
            |flat| == |flat1| && Resized(flat0, flat, csize, total, futureSz)
  {
    hide After, Resized;
    var n := Common(|flat0|, total);
    PartOfPrefix(flat0, n, csize - futureSz, csize);
    PartOfPrefix(flat1, n, csize - futureSz, csize);
    CarriedOver(flat0, flat1, csize, total, futureSz);
  }

  lemma {:induction false} ShrunkBytes(flat0: seq<Byte>, flat1: seq<Byte>, csize: nat, total: nat, futureSz: nat)
    requires futureSz <= total < csize <= |flat0| && total <= |flat1|
    requires flat1[..total] == flat0[..total]
    ensures var flat := Over(flat1, |flat1| - futureSz, flat0[|flat0| - futureSz..]);
            |flat| == |flat1| && Resized(flat0, flat, csize, total, futureSz)
  {
    CarriedOver(flat0, flat1, csize, total, futureSz);
  }

  lemma {:induction false} CarriedOver(flat0: seq<Byte>, flat1: seq<Byte>, csize: nat, total: nat, futureSz: nat)
    requires futureSz <= csize <= |flat0| && futureSz <= total <= |flat1| && csize != total
    requires flat1[..Common(|flat0|, total)] == flat0[..Common(|flat0|, total)]
    ensures var flat := Over(flat1, |flat1| - futureSz, Carried(flat0, csize, total, futureSz));
            |flat| == |flat1| && Resized(flat0, flat, csize, total, futureSz)
  {
    var n := Common(|flat0|, total);
    assert flat1 == flat0[..n] + flat1[n..];
    AfterResized(flat0, flat1[n..], csize, total, futureSz);
  }

  lemma {:induction false} PartOfPrefix(s: seq<Byte>, n: nat, i: nat, j: nat)
    requires i <= j <= n <= |s|
    ensures s[..n][i..j] == s[i..j]
  {
  }
}
