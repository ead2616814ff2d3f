/** Who owns each sub-block: one free chunk, one free bit, or one extent in use (xoz/alloc/segment_allocator.cpp). */
module Ownership {
  import opened Extents
  import opened Layout
  import opened Products
  import FreeMaps
  import SubBlockFreeMaps

  /** The allocator's maps over the blocks [begin, pastEnd), suballocCnt of which are cut into sub-blocks. */
  datatype Space = Space(free: seq<FreeMaps.Chunk>, subs: SubBlockFreeMaps.BitsOf, suballocCnt: nat, begin: nat,
      pastEnd: nat)

  /** How many owners sub-block `bit` of block `blk` has. */
  ghost function Owners(sp: Space, owned: seq<Extent>, blk: nat, bit: nat): nat {
    FreeMaps.Cover(sp.free, blk) + SubBlockFreeMaps.Cover(sp.subs, blk, bit) + Covers(owned, blk, bit)
  }

  function FullBlks(exts: seq<Extent>): nat {
    if exts == [] then 0 else (if exts[0].Full? then exts[0].cnt else 0) + FullBlks(exts[1..])
  }

  function SubBlks(exts: seq<Extent>): nat {
    if exts == [] then 0 else (if exts[0].Sub? then |exts[0].bits| else 0) + SubBlks(exts[1..])
  }

  lemma {:induction false} BlksAppend(s: seq<Extent>, t: seq<Extent>)
    ensures FullBlks(s + t) == FullBlks(s) + FullBlks(t)
    ensures SubBlks(s + t) == SubBlks(s) + SubBlks(t)
  {
    if s == [] {
      assert s + t == t;
    } else {
      assert (s + t)[1..] == s[1..] + t;
      BlksAppend(s[1..], t);
    }
  }

  lemma {:induction false} OneExtent(e: Extent)
    ensures FullBlks([e]) == (if e.Full? then e.cnt else 0) && SubBlks([e]) == if e.Sub? then |e.bits| else 0
  {
  }

  ghost predicate Proper(exts: seq<Extent>) {
    forall e :: e in exts ==> !e.Empty() && e.Span() <= MAX_BLK_CNT
  }

  ghost predicate NoneEmpty(subs: SubBlockFreeMaps.BitsOf) {
    forall nr :: nr in subs ==> subs[nr] != {}
  }

  /** Every sub-block of the space has exactly one owner, nothing outside has any, and the totals agree. */
  ghost predicate Balanced(sp: Space, owned: seq<Extent>) {
    && FreeMaps.WellSized(sp.free) && FreeMaps.Ascending(sp.free) && NoneEmpty(sp.subs) && Proper(owned)
    && sp.begin <= sp.pastEnd
    && (forall blk: nat, bit: nat | bit < 16 ::
          Owners(sp, owned, blk, bit) == if sp.begin <= blk < sp.pastEnd then 1 else 0)
    && FreeMaps.Total(sp.free) + FullBlks(owned) + sp.suballocCnt == sp.pastEnd - sp.begin
    && SubBlockFreeMaps.FreeCnt(sp.subs) + SubBlks(owned) == 16 * sp.suballocCnt
  }

  lemma {:induction false} OneOwner(sp: Space, owned: seq<Extent>, blk: nat, bit: nat)
    requires Balanced(sp, owned) && bit < 16
    ensures Owners(sp, owned, blk, bit) == if sp.begin <= blk < sp.pastEnd then 1 else 0
  {
  }

  /** What is owned may be listed in another order. */
  lemma {:induction false} Reorder(sp: Space, a: seq<Extent>, b: seq<Extent>, c: seq<Extent>, d: seq<Extent>)
    requires Balanced(sp, a + b + c + d)
    ensures Balanced(sp, a + c + b + d)
  {
    SumsReorder(a, b, c, d, 0, 0);
    forall blk: nat, bit: nat | bit < 16
      ensures Owners(sp, a + c + b + d, blk, bit) == if sp.begin <= blk < sp.pastEnd then 1 else 0
    {
      SumsReorder(a, b, c, d, blk, bit);
      OneOwner(sp, a + b + c + d, blk, bit);
    }
  }

  lemma {:induction false} SumsReorder(a: seq<Extent>, b: seq<Extent>, c: seq<Extent>, d: seq<Extent>, blk: nat,
      bit: nat)
    ensures Covers(a + c + b + d, blk, bit) == Covers(a + b + c + d, blk, bit)
    ensures FullBlks(a + c + b + d) == FullBlks(a + b + c + d)
    ensures SubBlks(a + c + b + d) == SubBlks(a + b + c + d)
    ensures forall e :: e in a + c + b + d ==> e in a + b + c + d
  {
    hide *;
    FourSums(a, c, b, d, blk, bit);
    FourSums(a, b, c, d, blk, bit);
  }

  lemma {:induction false} FourSums(a: seq<Extent>, b: seq<Extent>, c: seq<Extent>, d: seq<Extent>, blk: nat, bit: nat)
    ensures Covers(a + b + c + d, blk, bit)
         == Covers(a, blk, bit) + Covers(b, blk, bit) + Covers(c, blk, bit) + Covers(d, blk, bit)
    ensures FullBlks(a + b + c + d) == FullBlks(a) + FullBlks(b) + FullBlks(c) + FullBlks(d)
    ensures SubBlks(a + b + c + d) == SubBlks(a) + SubBlks(b) + SubBlks(c) + SubBlks(d)
  {
    hide *;
    CoversAppend(a + b + c, d, blk, bit);
    CoversAppend(a + b, c, blk, bit);
    CoversAppend(a, b, blk, bit);
    BlksAppend(a + b + c, d);
    BlksAppend(a + b, c);
    BlksAppend(a, b);
  }

  /** The sums over a list with one extent more. */
  lemma {:induction false} OneMore(a: seq<Extent>, e: Extent, b: seq<Extent>, blk: nat, bit: nat)
    ensures Covers(a + [e] + b, blk, bit) == Covers(a + b, blk, bit) + e.Cover(blk, bit)
    ensures FullBlks(a + [e] + b) == FullBlks(a + b) + if e.Full? then e.cnt else 0
    ensures SubBlks(a + [e] + b) == SubBlks(a + b) + if e.Sub? then |e.bits| else 0
    ensures Proper(a + [e] + b) <==> Proper(a + b) && Proper([e])
  {
    CoversAppend(a + [e], b, blk, bit);
    CoversAppend(a, [e], blk, bit);
    CoversAppend(a, b, blk, bit);
    BlksAppend(a + [e], b);
    BlksAppend(a, [e]);
    BlksAppend(a, b);
    assert forall x :: x in a + [e] + b <==> x in a + b || x in [e];
  }

  // ---------------------------------------------------------------------------------------------
  // Steps that hand space out
  // ---------------------------------------------------------------------------------------------

  /** The first n blocks of free chunk i become an extent in use. */
  lemma {:induction false} TakeBlocks(sp: Space, a: seq<Extent>, b: seq<Extent>, i: nat, n: nat)
    requires Balanced(sp, a + b) && i < |sp.free| && 0 < n <= sp.free[i].cnt
    ensures Balanced(sp.(free := FreeMaps.Taken(sp.free, i, n)), a + [Full(sp.free[i].nr, n)] + b)
  {
    var e := Full(sp.free[i].nr, n);
    var sp1 := sp.(free := FreeMaps.Taken(sp.free, i, n));
    FreeMaps.TakenWellFormed(sp.free, i, n);
    hide FreeMaps.Taken, FreeMaps.Ascending, FreeMaps.WellSized, Owners;
    forall blk: nat, bit: nat | bit < 16
      ensures Owners(sp1, a + [e] + b, blk, bit) == Owners(sp, a + b, blk, bit)
    {
      TakeBlocksCell(sp, a, b, i, n, blk, bit);
    }
    OneMore(a, e, b, 0, 0);
    FreeMaps.TakenCounts(sp.free, i, n, 0);
    assert !e.Empty() && e.Span() <= MAX_BLK_CNT by { SizeBound(sp.free, i); }
  }

  lemma {:induction false} SizeBound(s: seq<FreeMaps.Chunk>, i: nat)
    requires FreeMaps.WellSized(s) && i < |s|
    ensures 0 < s[i].cnt <= MAX_BLK_CNT
  {
  }

  lemma {:induction false} TakeBlocksCell(sp: Space, a: seq<Extent>, b: seq<Extent>, i: nat, n: nat, blk: nat, bit: nat)
    requires i < |sp.free| && 0 < n <= sp.free[i].cnt && bit < 16
    ensures Owners(sp.(free := FreeMaps.Taken(sp.free, i, n)), a + [Full(sp.free[i].nr, n)] + b, blk, bit) == Owners(sp,
        a + b, blk, bit)
  {
    hide FreeMaps.Taken;
    FreeMaps.TakenCounts(sp.free, i, n, blk);
    OneMore(a, Full(sp.free[i].nr, n), b, blk, bit);
  }

  /** A block of free chunk i is cut into sub-blocks, all of them free. */
  lemma {:induction false} CutBlock(sp: Space, owned: seq<Extent>, i: nat)
    requires Balanced(sp, owned) && i < |sp.free|
    ensures 0 < sp.free[i].cnt && sp.free[i].nr !in sp.subs
    ensures Balanced(Cut(sp, i), owned)
  {
    SizeBound(sp.free, i);
    var nr := sp.free[i].nr;
    ChunkUnowned(sp, owned, sp.free[i], nr);
    var sp1 := Cut(sp, i);
    FreeMaps.TakenWellFormed(sp.free, i, 1);
    hide FreeMaps.Taken, FreeMaps.Ascending, FreeMaps.WellSized, Owners;
    forall blk: nat, bit: nat | bit < 16
      ensures Owners(sp1, owned, blk, bit) == Owners(sp, owned, blk, bit)
    {
      CutBlockCell(sp, owned, i, blk, bit);
    }
    FreeMaps.TakenCounts(sp.free, i, 1, 0);
    NewBlock(sp.subs, nr);
  }

  function Cut(sp: Space, i: nat): Space
    requires i < |sp.free| && 0 < sp.free[i].cnt
  {
    sp.(free := FreeMaps.Taken(sp.free, i, 1), subs := SubBlockFreeMaps.Put(sp.subs, sp.free[i].nr, ALL_BITS),
        suballocCnt := sp.suballocCnt + 1)
  }

  lemma {:induction false} NewBlock(subs: SubBlockFreeMaps.BitsOf, nr: nat)
    requires nr !in subs
    ensures SubBlockFreeMaps.FreeCnt(SubBlockFreeMaps.Put(subs, nr, ALL_BITS)) == SubBlockFreeMaps.FreeCnt(subs) + 16
    ensures NoneEmpty(subs) ==> NoneEmpty(SubBlockFreeMaps.Put(subs, nr, ALL_BITS))
  {
    SubBlockFreeMaps.WithFreeCnt(subs, nr, ALL_BITS);
    BitsBounded(ALL_BITS);
    assert 0 in ALL_BITS;
  }

  lemma {:induction false} CutBlockCell(sp: Space, owned: seq<Extent>, i: nat, blk: nat, bit: nat)
    requires i < |sp.free| && 0 < sp.free[i].cnt && bit < 16 && sp.free[i].nr !in sp.subs
    ensures Owners(Cut(sp, i), owned, blk, bit) == Owners(sp, owned, blk, bit)
  {
    FreeMaps.TakenCounts(sp.free, i, 1, blk);
    hide FreeMaps.Taken, FreeMaps.Cover;
  }

  /** No free bit and no extent in use lies in a free chunk. */
  lemma {:induction false} ChunkUnowned(sp: Space, owned: seq<Extent>, c: FreeMaps.Chunk, blk: nat)
    requires Balanced(sp, owned) && c in sp.free && c.Holds(blk)
    ensures blk !in sp.subs && sp.begin <= blk < sp.pastEnd
    ensures forall bit: nat | bit < 16 :: Covers(owned, blk, bit) == 0
  {
    FreeMaps.CoverPositive(sp.free, blk);
    forall bit: nat | bit < 16
      ensures Covers(owned, blk, bit) == 0
    {
      OneOwner(sp, owned, blk, bit);
    }
    OneOwner(sp, owned, blk, 0);
    if blk in sp.subs {
      var bit :| bit in sp.subs[blk];
      OneOwner(sp, owned, blk, bit);
    }
  }

  lemma {:induction false} TakenBitsOwner(sp: Space, a: seq<Extent>, b: seq<Extent>, nr: nat, bits: Bitmap, blk: nat,
      bit: nat)
    requires nr in sp.subs && bits <= sp.subs[nr]
    ensures Owners(sp.(subs := SubBlockFreeMaps.Without(sp.subs, nr, bits)), a + [Sub(nr, bits)] + b, blk, bit)
         == Owners(sp, a + b, blk, bit)
  {
    SubBlockFreeMaps.WithoutCover(sp.subs, nr, bits, blk, bit);
    OneMore(a, Sub(nr, bits), b, blk, bit);
  }

  /** Free bits of one block become an extent in use. */
  lemma {:induction false} TakeBits(sp: Space, a: seq<Extent>, b: seq<Extent>, nr: nat, bits: Bitmap)
    requires Balanced(sp, a + b) && nr in sp.subs && bits <= sp.subs[nr] && bits != {}
    ensures Balanced(sp.(subs := SubBlockFreeMaps.Without(sp.subs, nr, bits)), a + [Sub(nr, bits)] + b)
  {
    hide Owners, FreeMaps.Ascending, FreeMaps.WellSized, FreeMaps.Cover;
    var sp1 := sp.(subs := SubBlockFreeMaps.Without(sp.subs, nr, bits));
    forall blk: nat, bit: nat | bit < 16
      ensures Owners(sp1, a + [Sub(nr, bits)] + b, blk, bit) == Owners(sp, a + b, blk, bit)
    {
      TakenBitsOwner(sp, a, b, nr, bits, blk, bit);
    }
    OneMore(a, Sub(nr, bits), b, 0, 0);
    SubBlockFreeMaps.WithoutFreeCnt(sp.subs, nr, bits);
    assert NoneEmpty(sp1.subs);
  }

  // ---------------------------------------------------------------------------------------------
  // Steps that take space back
  // ---------------------------------------------------------------------------------------------

  function ChunkOf(e: Extent): FreeMaps.Chunk
    requires e.Full?
  {
    FreeMaps.Chunk(e.nr, e.cnt)
  }

  /** Blocks that no free chunk holds overlap none. */
  lemma {:induction false} ClearOfCover(s: seq<FreeMaps.Chunk>, c: FreeMaps.Chunk)
    requires FreeMaps.WellSized(s) && 0 < c.cnt && forall blk: nat | c.Holds(blk) :: FreeMaps.Cover(s, blk) == 0
    ensures FreeMaps.Clear(s, c)
  {
    forall i | 0 <= i < |s|
      ensures !s[i].Overlaps(c)
    {
      if s[i].Overlaps(c) {
        var blk := if s[i].nr < c.nr then c.nr else s[i].nr;
        SizeBound(s, i);
        assert c.Holds(blk) && s[i].Holds(blk);
        FreeMaps.CoverPositive(s, blk);
      }
    }
  }

  /** An extent of blocks in use overlaps no free chunk; freeing it adds exactly its blocks to them. */
  lemma {:induction false} FreeBlocks(sp: Space, a: seq<Extent>, e: Extent, b: seq<Extent>, coalescing: bool)
    requires Balanced(sp, a + [e] + b) && e.Full?
    ensures 0 < e.cnt <= MAX_BLK_CNT && FreeMaps.Clear(sp.free, ChunkOf(e))
    ensures Balanced(sp.(free := FreeMaps.Freed(sp.free, ChunkOf(e), coalescing)), a + b)
  {
    OneMore(a, e, b, 0, 0);
    assert e in [e];
    var c := ChunkOf(e);
    forall blk: nat | c.Holds(blk)
      ensures FreeMaps.Cover(sp.free, blk) == 0
    {
      OneMore(a, e, b, blk, 0);
      OneOwner(sp, a + [e] + b, blk, 0);
    }
    ClearOfCover(sp.free, c);
    FreeMaps.FreedWellFormed(sp.free, c, coalescing);
    var sp1 := sp.(free := FreeMaps.Freed(sp.free, c, coalescing));
    FreeMaps.FreedCounts(sp.free, c, coalescing, 0);
    hide FreeMaps.Freed, FreeMaps.Ascending, FreeMaps.WellSized, FreeMaps.Clear, Owners, Covers, FullBlks, SubBlks;
    forall blk: nat, bit: nat | bit < 16
      ensures Owners(sp1, a + b, blk, bit) == Owners(sp, a + [e] + b, blk, bit)
    {
      FreeBlocksCell(sp, a, e, b, coalescing, blk, bit);
    }
  }

  lemma {:induction false} FreeBlocksCell(sp: Space, a: seq<Extent>, e: Extent, b: seq<Extent>, coalescing: bool,
      blk: nat, bit: nat)
    requires FreeMaps.WellSized(sp.free) && FreeMaps.Ascending(sp.free) && bit < 16
    requires e.Full? && 0 < e.cnt <= MAX_BLK_CNT && FreeMaps.Clear(sp.free, ChunkOf(e))
    ensures Owners(sp.(free := FreeMaps.Freed(sp.free, ChunkOf(e), coalescing)), a + b, blk, bit) == Owners(sp,
        a + [e] + b, blk, bit)
  {
    hide FreeMaps.Freed, FreeMaps.Ascending, FreeMaps.WellSized, FreeMaps.Clear;
    FreeMaps.FreedCounts(sp.free, ChunkOf(e), coalescing, blk);
    OneMore(a, e, b, blk, bit);
  }

  /** The bits of an extent in use are not free; freeing it adds exactly them. */
  lemma {:induction false} FreeBits(sp: Space, a: seq<Extent>, e: Extent, b: seq<Extent>)
    requires Balanced(sp, a + [e] + b) && e.Sub?
    ensures e.bits != {} && (e.nr in sp.subs ==> sp.subs[e.nr] !! e.bits)
    ensures Balanced(sp.(subs := SubBlockFreeMaps.With(sp.subs, e.nr, e.bits)), a + b)
  {
    OneMore(a, e, b, 0, 0);
    assert e in [e];
    if e.nr in sp.subs {
      forall bit | bit in e.bits
        ensures bit !in sp.subs[e.nr]
      {
        OneMore(a, e, b, e.nr, bit);
        OneOwner(sp, a + [e] + b, e.nr, bit);
      }
    }
    var sp1 := sp.(subs := SubBlockFreeMaps.With(sp.subs, e.nr, e.bits));
    forall blk: nat, bit: nat | bit < 16
      ensures Owners(sp1, a + b, blk, bit) == Owners(sp, a + [e] + b, blk, bit)
    {
      SubBlockFreeMaps.WithCover(sp.subs, e.nr, e.bits, blk, bit);
      OneMore(a, e, b, blk, bit);
    }
    hide Owners, FreeMaps.Ascending, FreeMaps.WellSized;
    SubBlockFreeMaps.WithFreeCnt(sp.subs, e.nr, e.bits);
  }

  /** A block all of whose sub-blocks are free becomes a free block again. */
  lemma {:induction false} MendBlock(sp: Space, owned: seq<Extent>, nr: nat, coalescing: bool)
    requires Balanced(sp, owned) && nr in sp.subs && sp.subs[nr] == ALL_BITS
    ensures FreeMaps.Clear(sp.free, FreeMaps.Chunk(nr, 1)) && 0 < sp.suballocCnt
    ensures Balanced(Mended(sp, nr, coalescing), owned)
  {
    var c := FreeMaps.Chunk(nr, 1);
    OneOwner(sp, owned, nr, 0);
    ClearOfCover(sp.free, c);
    SubBlockFreeMaps.FreeCntSplit(sp.subs, nr);
    BitsBounded(ALL_BITS);
    FreeMaps.FreedWellFormed(sp.free, c, coalescing);
    FreeMaps.FreedCounts(sp.free, c, coalescing, 0);
    var sp1 := Mended(sp, nr, coalescing);
    hide FreeMaps.Freed, FreeMaps.Ascending, FreeMaps.WellSized, FreeMaps.Clear, Owners, Covers, FullBlks, SubBlks;
    forall blk: nat, bit: nat | bit < 16
      ensures Owners(sp1, owned, blk, bit) == Owners(sp, owned, blk, bit)
    {
      MendBlockCell(sp, owned, nr, coalescing, blk, bit);
    }
  }

  function Mended(sp: Space, nr: nat, coalescing: bool): Space
    requires FreeMaps.WellSized(sp.free) && FreeMaps.Ascending(sp.free)
  {
    sp.(free := FreeMaps.Freed(sp.free, FreeMaps.Chunk(nr, 1), coalescing), subs := sp.subs - {nr},
        suballocCnt := if sp.suballocCnt == 0 then 0 else sp.suballocCnt - 1)
  }

  lemma {:induction false} MendBlockCell(sp: Space, owned: seq<Extent>, nr: nat, coalescing: bool, blk: nat, bit: nat)
    requires FreeMaps.WellSized(sp.free) && FreeMaps.Ascending(sp.free) && bit < 16
    requires nr in sp.subs && sp.subs[nr] == ALL_BITS && FreeMaps.Clear(sp.free, FreeMaps.Chunk(nr, 1))
    ensures Owners(Mended(sp, nr, coalescing), owned, blk, bit) == Owners(sp, owned, blk, bit)
  {
    hide FreeMaps.Freed, FreeMaps.Ascending, FreeMaps.WellSized, FreeMaps.Clear;
    FreeMaps.FreedCounts(sp.free, FreeMaps.Chunk(nr, 1), coalescing, blk);
  }

  // ---------------------------------------------------------------------------------------------
  // The tail
  // ---------------------------------------------------------------------------------------------

  /** cnt new blocks at the end become free blocks. */
  lemma {:induction false} GrowTail(sp: Space, owned: seq<Extent>, cnt: nat, coalescing: bool)
    requires Balanced(sp, owned) && 0 < cnt <= MAX_BLK_CNT
    ensures FreeMaps.Clear(sp.free, FreeMaps.Chunk(sp.pastEnd, cnt))
    ensures Balanced(Grown(sp, cnt, coalescing), owned)
  {
    var c := FreeMaps.Chunk(sp.pastEnd, cnt);
    forall blk: nat | c.Holds(blk)
      ensures FreeMaps.Cover(sp.free, blk) == 0
    {
      OneOwner(sp, owned, blk, 0);
    }
    ClearOfCover(sp.free, c);
    FreeMaps.FreedWellFormed(sp.free, c, coalescing);
    FreeMaps.FreedCounts(sp.free, c, coalescing, 0);
    var sp1 := Grown(sp, cnt, coalescing);
    hide FreeMaps.Freed, FreeMaps.Ascending, FreeMaps.WellSized, FreeMaps.Clear, Owners, Covers, FullBlks, SubBlks;
    forall blk: nat, bit: nat | bit < 16
      ensures Owners(sp1, owned, blk, bit) == if sp1.begin <= blk < sp1.pastEnd then 1 else 0
    {
      OneOwner(sp, owned, blk, bit);
      GrowTailCell(sp, owned, cnt, coalescing, blk, bit);
    }
  }

  function Grown(sp: Space, cnt: nat, coalescing: bool): Space
    requires FreeMaps.WellSized(sp.free) && FreeMaps.Ascending(sp.free)
  {
    sp.(free := FreeMaps.Freed(sp.free, FreeMaps.Chunk(sp.pastEnd, cnt), coalescing), pastEnd := sp.pastEnd + cnt)
  }

  lemma {:induction false} GrowTailCell(sp: Space, owned: seq<Extent>, cnt: nat, coalescing: bool, blk: nat, bit: nat)
    requires FreeMaps.WellSized(sp.free) && FreeMaps.Ascending(sp.free) && bit < 16
    requires 0 < cnt <= MAX_BLK_CNT && FreeMaps.Clear(sp.free, FreeMaps.Chunk(sp.pastEnd, cnt))
    ensures Owners(Grown(sp, cnt, coalescing), owned, blk, bit)
         == Owners(sp, owned, blk, bit) + if sp.pastEnd <= blk < sp.pastEnd + cnt then 1 else 0
  {
    hide FreeMaps.Freed, FreeMaps.Ascending, FreeMaps.WellSized, FreeMaps.Clear;
    FreeMaps.FreedCounts(sp.free, FreeMaps.Chunk(sp.pastEnd, cnt), coalescing, blk);
  }

  /** The last free chunk lies within the space. */
  lemma {:induction false} LastChunkWithin(sp: Space, owned: seq<Extent>)
    requires Balanced(sp, owned) && sp.free != []
    ensures var k := |sp.free| - 1;
            var c := sp.free[k];
            && 0 < c.cnt <= MAX_BLK_CNT && sp.begin <= c.nr && c.PastEnd() <= sp.pastEnd
            && FreeMaps.WellSized(sp.free[..k]) && FreeMaps.Ascending(sp.free[..k])
  {
    var k := |sp.free| - 1;
    var c := sp.free[k];
    SizeBound(sp.free, k);
    ChunkUnowned(sp, owned, c, c.nr);
    ChunkUnowned(sp, owned, c, c.PastEnd() - 1);
    FreeMaps.DropLastChunk(sp.free);
  }

  /** A free chunk that ends where the space ends can be cut off. */
  lemma {:induction false} ShrinkTail(sp: Space, owned: seq<Extent>)
    requires Balanced(sp, owned) && sp.free != [] && sp.free[|sp.free| - 1].PastEnd() == sp.pastEnd
    ensures Balanced(Shrunk(sp), owned)
  {
    hide FreeMaps.Ascending, FreeMaps.WellSized, Owners, Covers, FullBlks, SubBlks;
    LastChunkWithin(sp, owned);
    LastCounts(sp.free, 0);
    var sp1 := Shrunk(sp);
    forall blk: nat, bit: nat | bit < 16
      ensures Owners(sp1, owned, blk, bit) == if sp1.begin <= blk < sp1.pastEnd then 1 else 0
    {
      OneOwner(sp, owned, blk, bit);
      ShrinkTailCell(sp, owned, blk, bit);
    }
  }

  function Shrunk(sp: Space): Space
    requires sp.free != []
  {
    var k := |sp.free| - 1;
    sp.(free := sp.free[..k], pastEnd := sp.free[k].nr)
  }

  lemma {:induction false} LastCounts(s: seq<FreeMaps.Chunk>, blk: nat)
    requires s != []
    ensures var k := |s| - 1;
            FreeMaps.Cover(s, blk) == FreeMaps.Cover(s[..k], blk) + (if s[k].Holds(blk) then 1 else 0)
            && FreeMaps.Total(s) == FreeMaps.Total(s[..k]) + s[k].cnt
  {
    var k := |s| - 1;
    assert s == s[..k] + [s[k]];
    FreeMaps.CoverAppend(s[..k], [s[k]], blk);
    FreeMaps.TotalAppend(s[..k], [s[k]]);
  }

  lemma {:induction false} ShrinkTailCell(sp: Space, owned: seq<Extent>, blk: nat, bit: nat)
    requires sp.free != [] && bit < 16
    ensures var c := sp.free[|sp.free| - 1];
            Owners(Shrunk(sp), owned, blk, bit) + (if c.Holds(blk) then 1 else 0) == Owners(sp, owned, blk, bit)
  {
    LastCounts(sp.free, blk);
    hide FreeMaps.Cover;
  }

  // ---------------------------------------------------------------------------------------------
  // What the balance means for the extents in use
  // ---------------------------------------------------------------------------------------------

  lemma {:induction false} CoversMember(exts: seq<Extent>, e: Extent, blk: nat, bit: nat)
    requires e in exts
    ensures e.Cover(blk, bit) <= Covers(exts, blk, bit)
  {
    if e != exts[0] {
      CoversMember(exts[1..], e, blk, bit);
    }
  }

  /** Extents in use lie within the space. */
  lemma {:induction false} OwnedWithin(sp: Space, owned: seq<Extent>, e: Extent)
    requires Balanced(sp, owned) && e in owned
    ensures sp.begin <= e.nr < e.PastEnd() <= sp.pastEnd && !e.Empty()
  {
    var bit := 0;
    if e.Sub? { bit :| bit in e.bits; }
    CoversMember(owned, e, e.nr, bit);
    OneOwner(sp, owned, e.nr, bit);
    CoversMember(owned, e, e.PastEnd() - 1, bit);
    OneOwner(sp, owned, e.PastEnd() - 1, bit);
  }

  /** No two extents in use share a sub-block. */
  lemma {:induction false} OwnedOnce(sp: Space, a: seq<Extent>, s: seq<Extent>, b: seq<Extent>, blkSz: nat)
    requires Balanced(sp, a + s + b) && GoodBlkSz(blkSz)
    ensures Disjoint(s) && Distinct(SegPos(s, blkSz))
    ensures Apart(SegPos(s, blkSz), SegPos(a, blkSz)) && Apart(SegPos(s, blkSz), SegPos(b, blkSz))
  {
    forall blk: nat, bit: nat | bit < 16
      ensures Covers(s, blk, bit) + Covers(a, blk, bit) <= 1 && Covers(s, blk, bit) + Covers(b, blk, bit) <= 1
    {
      OneOwner(sp, a + s + b, blk, bit);
      CoversAppend(a + s, b, blk, bit);
      CoversAppend(a, s, blk, bit);
    }
    hide Balanced, Owners, Covers, SegPos;
    SegPosDistinct(s, blkSz);
    SegPosApart(s, a, blkSz);
    SegPosApart(s, b, blkSz);
  }

  /** The extents in use have no more bytes than the space. */
  lemma {:induction false} OwnedFits(sp: Space, owned: seq<Extent>, blkSz: nat)
    requires Balanced(sp, owned) && GoodBlkSz(blkSz)
    ensures Times(FullBlks(owned), blkSz) + Times(SubBlks(owned), SubSz(blkSz)) <= Times(sp.pastEnd, blkSz)
  {
    var subSz := SubSz(blkSz);
    LessEqual(SubBlks(owned), 16 * sp.suballocCnt, subSz);
    TimesIsProduct(16 * sp.suballocCnt, subSz);
    TimesIsProduct(sp.suballocCnt, blkSz);
    assert 16 * subSz <= blkSz;
    SixteenFold(sp.suballocCnt, subSz, blkSz);
    Distribute(FullBlks(owned), sp.suballocCnt, blkSz);
    LessEqual(FullBlks(owned) + sp.suballocCnt, sp.pastEnd, blkSz);
  }

  lemma {:induction false} SixteenFold(n: nat, subSz: nat, blkSz: nat)
    requires 16 * subSz <= blkSz
    ensures 16 * n * subSz <= n * blkSz
  {
    assert n * (16 * subSz) <= n * blkSz;
  }
}
