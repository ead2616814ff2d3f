/** The free space as the complement of a list of extents in use (xoz/alloc/segment_allocator.cpp). */
module Complement {
  import opened Extents
  import opened Layout
  import opened Ownership
  import FreeMaps
  import SubBlockFreeMaps

  // ---------------------------------------------------------------------------------------------
  // Sorting by block number
  // ---------------------------------------------------------------------------------------------

  ghost predicate SortedByNr(s: seq<Extent>) {
    forall i, j :: 0 <= i < j < |s| ==> s[i].nr <= s[j].nr
  }

  function InsertByNr(e: Extent, s: seq<Extent>): seq<Extent> {
    if s == [] || e.nr <= s[0].nr then [e] + s else [s[0]] + InsertByNr(e, s[1..])
  }

  /** std::list::sort: stable. */
  function SortByNr(s: seq<Extent>): seq<Extent> {
    if s == [] then [] else InsertByNr(s[0], SortByNr(s[1..]))
  }

  lemma {:induction false} InsertedElements(e: Extent, s: seq<Extent>)
    ensures forall x :: x in InsertByNr(e, s) <==> x == e || x in s
  {
    if s != [] && s[0].nr < e.nr {
      InsertedElements(e, s[1..]);
      assert s == [s[0]] + s[1..];
    }
  }

  lemma {:induction false} InsertedSorted(e: Extent, s: seq<Extent>)
    requires SortedByNr(s)
    ensures SortedByNr(InsertByNr(e, s))
  {
    if s != [] && s[0].nr < e.nr {
      InsertedSorted(e, s[1..]);
      InsertedElements(e, s[1..]);
      var t := InsertByNr(e, s[1..]);
      forall j | 0 <= j < |t|
        ensures s[0].nr <= t[j].nr
      {
        assert t[j] in t;
      }
    }
  }

  lemma {:induction false} SortSorts(s: seq<Extent>)
    ensures SortedByNr(SortByNr(s)) && forall x :: x in SortByNr(s) <==> x in s
  {
    if s != [] {
      SortSorts(s[1..]);
      InsertedSorted(s[0], SortByNr(s[1..]));
      InsertedElements(s[0], SortByNr(s[1..]));
      assert s == [s[0]] + s[1..];
    }
  }

  // ---------------------------------------------------------------------------------------------
  // The extents of blocks and the extents of sub-blocks, apart
  // ---------------------------------------------------------------------------------------------

  ghost function Fulls(exts: seq<Extent>): seq<Extent> {
    if exts == [] then [] else (if exts[0].Full? then [exts[0]] else []) + Fulls(exts[1..])
  }

  ghost function Subs(exts: seq<Extent>): seq<Extent> {
    if exts == [] then [] else (if exts[0].Sub? then [exts[0]] else []) + Subs(exts[1..])
  }

  lemma {:induction false} FullsAppend(s: seq<Extent>, t: seq<Extent>)
    ensures Fulls(s + t) == Fulls(s) + Fulls(t)
  {
    if s == [] {
      assert s + t == t;
    } else {
      assert (s + t)[0] == s[0] && (s + t)[1..] == s[1..] + t;
      FullsAppend(s[1..], t);
    }
  }

  lemma {:induction false} SubsAppend(s: seq<Extent>, t: seq<Extent>)
    ensures Subs(s + t) == Subs(s) + Subs(t)
  {
    if s == [] {
      assert s + t == t;
    } else {
      assert (s + t)[0] == s[0] && (s + t)[1..] == s[1..] + t;
      SubsAppend(s[1..], t);
    }
  }

  lemma {:induction false} FullsElements(s: seq<Extent>)
    ensures forall x :: x in Fulls(s) <==> x in s && x.Full?
  {
    if s != [] {
      FullsElements(s[1..]);
      assert s == [s[0]] + s[1..];
    }
  }

  /** The sums over a list are those over its two kinds together. */
  lemma {:induction false} KindsSums(s: seq<Extent>, blk: nat, bit: nat)
    ensures Covers(s, blk, bit) == Covers(Fulls(s), blk, bit) + Covers(Subs(s), blk, bit)
    ensures FullBlks(s) == FullBlks(Fulls(s)) && SubBlks(s) == SubBlks(Subs(s)) && SubBlks(Fulls(s)) == 0
  {
    if s != [] {
      KindsSums(s[1..], blk, bit);
      var e := s[0];
      assert s == [e] + s[1..];
      if e.Full? {
        assert Fulls(s)[1..] == Fulls(s[1..]) && Subs(s) == Subs(s[1..]);
      } else {
        assert Subs(s)[1..] == Subs(s[1..]) && Fulls(s) == Fulls(s[1..]);
      }
    }
  }

  /** Sorting changes no sum. */
  lemma {:induction false} SortSums(s: seq<Extent>, blk: nat, bit: nat)
    ensures Covers(SortByNr(s), blk, bit) == Covers(s, blk, bit)
    ensures Covers(Fulls(SortByNr(s)), blk, bit) == Covers(Fulls(s), blk, bit)
    ensures FullBlks(Fulls(SortByNr(s))) == FullBlks(Fulls(s))
    ensures SubBlks(SortByNr(s)) == SubBlks(s)
  {
    if s != [] {
      SortSums(s[1..], blk, bit);
      InsertSums(s[0], SortByNr(s[1..]), blk, bit);
      OneKind(s[0], s[1..], blk, bit);
    }
  }

  lemma {:induction false} OneKind(e: Extent, s: seq<Extent>, blk: nat, bit: nat)
    ensures Covers([e] + s, blk, bit) == e.Cover(blk, bit) + Covers(s, blk, bit)
    ensures Covers(Fulls([e] + s), blk, bit) == (if e.Full? then e.Cover(blk, bit) else 0) + Covers(Fulls(s), blk, bit)
    ensures FullBlks(Fulls([e] + s)) == (if e.Full? then e.cnt else 0) + FullBlks(Fulls(s))
    ensures SubBlks([e] + s) == (if e.Sub? then |e.bits| else 0) + SubBlks(s)
  {
    var t := [e] + s;
    assert t[0] == e && t[1..] == s;
    if e.Full? {
      assert Fulls(t) == [e] + Fulls(s) && Fulls(t)[1..] == Fulls(s);
    } else {
      assert Fulls(t) == Fulls(s);
    }
  }

  lemma {:induction false} InsertSums(e: Extent, s: seq<Extent>, blk: nat, bit: nat)
    ensures Covers(InsertByNr(e, s), blk, bit) == e.Cover(blk, bit) + Covers(s, blk, bit)
    ensures Covers(Fulls(InsertByNr(e, s)), blk, bit)
         == (if e.Full? then e.Cover(blk, bit) else 0) + Covers(Fulls(s), blk, bit)
    ensures FullBlks(Fulls(InsertByNr(e, s))) == (if e.Full? then e.cnt else 0) + FullBlks(Fulls(s))
    ensures SubBlks(InsertByNr(e, s)) == (if e.Sub? then |e.bits| else 0) + SubBlks(s)
  {
    hide Covers, Fulls, FullBlks, SubBlks;
    if s == [] || e.nr <= s[0].nr {
      OneKind(e, s, blk, bit);
    } else {
      InsertSums(e, s[1..], blk, bit);
      OneKind(s[0], InsertByNr(e, s[1..]), blk, bit);
      OneKind(s[0], s[1..], blk, bit);
      assert s == [s[0]] + s[1..];
    }
  }

  // ---------------------------------------------------------------------------------------------
  // The bits in use
  // ---------------------------------------------------------------------------------------------

  /** m has the bits of the extents of sub-blocks of s. */
  ghost predicate IsTaken(m: SubBlockFreeMaps.BitsOf, s: seq<Extent>) {
    && NoneEmpty(m)
    && (forall blk: nat, bit: nat | bit < 16 :: Covers(Subs(s), blk, bit) == SubBlockFreeMaps.Cover(m, blk, bit))
    && SubBlks(s) == SubBlockFreeMaps.FreeCnt(m)
    && (forall nr :: nr in m ==> exists e :: e in s && e.Sub? && e.nr == nr)
  }

  lemma {:induction false} TakenNone(s: seq<Extent>)
    ensures IsTaken(map[], s[..0])
  {
  }

  /** The next extent, if none of its bits is taken yet. */
  lemma {:induction false} TakenNext(m: SubBlockFreeMaps.BitsOf, s: seq<Extent>, i: nat)
    requires i < |s| && IsTaken(m, s[..i])
    ensures s[i].Full? ==> IsTaken(m, s[..i + 1])
    ensures s[i].Sub? && s[i].bits != {} && (s[i].nr in m ==> m[s[i].nr] !! s[i].bits) ==>
              IsTaken(SubBlockFreeMaps.With(m, s[i].nr, s[i].bits), s[..i + 1])
  {
    var e := s[i];
    assert s[..i + 1] == s[..i] + [e];
    SubsAppend(s[..i], [e]);
    BlksAppend(s[..i], [e]);
    OneMoreElement(s, i);
    hide SubBlockFreeMaps.Cover, FullBlks, Covers;
    if e.Full? {
      assert Subs([e]) == [];
      assert Subs(s[..i + 1]) == Subs(s[..i]);
    } else if e.bits != {} && (e.nr in m ==> m[e.nr] !! e.bits) {
      assert Subs([e]) == [e];
      TakenCells(m, Subs(s[..i]), e);
      SubBlockFreeMaps.WithFreeCnt(m, e.nr, e.bits);
    }
  }

  lemma {:induction false} OneMoreElement(s: seq<Extent>, i: nat)
    requires i < |s|
    ensures s[i] in s[..i + 1] && forall x :: x in s[..i] ==> x in s[..i + 1]
  {
    assert s[..i + 1] == s[..i] + [s[i]];
  }

  lemma {:induction false} TakenCells(m: SubBlockFreeMaps.BitsOf, subs: seq<Extent>, e: Extent)
    requires forall blk: nat, bit: nat | bit < 16 :: Covers(subs, blk, bit) == SubBlockFreeMaps.Cover(m, blk, bit)
    requires e.Sub? && (e.nr in m ==> m[e.nr] !! e.bits)
    ensures forall blk: nat, bit: nat | bit < 16 ::
              Covers(subs + [e], blk, bit) == SubBlockFreeMaps.Cover(SubBlockFreeMaps.With(m, e.nr, e.bits), blk, bit)
  {
    forall blk: nat, bit: nat | bit < 16
      ensures Covers(subs + [e], blk, bit) == SubBlockFreeMaps.Cover(SubBlockFreeMaps.With(m, e.nr, e.bits), blk, bit)
    {
      CoversAppend(subs, [e], blk, bit);
      SubBlockFreeMaps.WithCover(m, e.nr, e.bits, blk, bit);
    }
  }

  /** A bit that is taken already is owned twice. */
  lemma {:induction false} TakenTwice(m: SubBlockFreeMaps.BitsOf, s: seq<Extent>, i: nat, bit: nat)
    requires i < |s| && IsTaken(m, s[..i]) && s[i].Sub? && s[i].nr in m && bit in m[s[i].nr] && bit in s[i].bits
    ensures bit < 16 && Covers(s, s[i].nr, bit) >= 2
  {
    var e := s[i];
    assert s == s[..i] + [e] + s[i + 1..];
    CoversAppend(s[..i] + [e], s[i + 1..], e.nr, bit);
    CoversAppend(s[..i], [e], e.nr, bit);
    KindsSums(s[..i], e.nr, bit);
    assert SubBlockFreeMaps.Cover(m, e.nr, bit) == 1;
  }

  // ---------------------------------------------------------------------------------------------
  // The blocks with bits in use
  // ---------------------------------------------------------------------------------------------

  /** subs has the free bits of the blocks `done` of m; left are the others. */
  ghost predicate IsFreeOf(subs: SubBlockFreeMaps.BitsOf, m: SubBlockFreeMaps.BitsOf, done: set<nat>) {
    && done <= m.Keys
    && (forall nr :: nr in subs <==> nr in done && m[nr] != ALL_BITS)
    && (forall nr :: nr in subs ==> subs[nr] == ALL_BITS - m[nr])
    && SubBlockFreeMaps.FreeCnt(subs) + SubBlockFreeMaps.FreeCnt(m) == 16 * |done| + SubBlockFreeMaps.FreeCnt(m - done)
  }

  lemma {:induction false} FreeOfNone(m: SubBlockFreeMaps.BitsOf)
    ensures IsFreeOf(map[], m, {})
  {
    assert m - {} == m;
  }

  lemma {:induction false} Negated(bits: Bitmap)
    ensures |ALL_BITS - bits| + |bits| == 16
  {
    BitsBounded(ALL_BITS);
    assert ALL_BITS == (ALL_BITS - bits) + bits;
  }

  lemma {:induction false} FreeOfNext(subs: SubBlockFreeMaps.BitsOf, m: SubBlockFreeMaps.BitsOf, done: set<nat>,
      nr: nat)
    requires IsFreeOf(subs, m, done) && nr in m && nr !in done
    ensures m[nr] == ALL_BITS ==> IsFreeOf(subs, m, done + {nr})
    ensures m[nr] != ALL_BITS ==> IsFreeOf(SubBlockFreeMaps.Put(subs, nr, ALL_BITS - m[nr]), m, done + {nr})
  {
    hide SubBlockFreeMaps.FreeCnt;
    FreeOfCount(subs, m, done, nr);
    assert |done + {nr}| == |done| + 1;
  }

  lemma {:induction false} FreeOfCount(subs: SubBlockFreeMaps.BitsOf, m: SubBlockFreeMaps.BitsOf, done: set<nat>,
      nr: nat)
    requires nr in m && nr !in done && nr !in subs
    ensures SubBlockFreeMaps.FreeCnt(m - done) == |m[nr]| + SubBlockFreeMaps.FreeCnt(m - (done + {nr}))
    ensures SubBlockFreeMaps.FreeCnt(SubBlockFreeMaps.Put(subs, nr, ALL_BITS - m[nr]))
        == SubBlockFreeMaps.FreeCnt(subs) + 16 - |m[nr]|
    ensures m[nr] == ALL_BITS ==> |m[nr]| == 16
  {
    hide SubBlockFreeMaps.FreeCnt;
    Negated(m[nr]);
    BitsBounded(m[nr]);
    SubBlockFreeMaps.FreeCntSplit(m - done, nr);
    assert m - done - {nr} == m - (done + {nr});
    SubBlockFreeMaps.WithFreeCnt(subs, nr, ALL_BITS - m[nr]);
  }

  /** The blocks themselves, as extents of one block each. */
  ghost predicate AreBlocks(cuts: seq<Extent>, done: set<nat>) {
    && (forall e :: e in cuts ==> e.Full? && e.cnt == 1 && e.nr in done)
    && (forall blk: nat, bit: nat :: Covers(cuts, blk, bit) == if blk in done then 1 else 0)
    && FullBlks(cuts) == |done| && Fulls(cuts) == cuts
  }

  lemma {:induction false} OneBlockMore(cuts: seq<Extent>, done: set<nat>, nr: nat)
    requires AreBlocks(cuts, done) && nr !in done
    ensures AreBlocks(cuts + [Full(nr, 1)], done + {nr})
  {
    var e := Full(nr, 1);
    forall blk: nat, bit: nat
      ensures Covers(cuts + [e], blk, bit) == if blk in done + {nr} then 1 else 0
    {
      CoversAppend(cuts, [e], blk, bit);
    }
    BlksAppend(cuts, [e]);
    FullsAppend(cuts, [e]);
    assert Fulls([e]) == [e];
  }

  // ---------------------------------------------------------------------------------------------
  // The gaps between the extents of blocks
  // ---------------------------------------------------------------------------------------------

  /** What lies before block cur is free or in one of the extents. */
  ghost predicate Covered(free: seq<FreeMaps.Chunk>, begin: nat, cur: nat, owned: seq<Extent>) {
    Balanced(Space(free, map[], 0, begin, cur), owned)
  }

  lemma {:induction false} CoveredNothing(begin: nat)
    ensures Covered([], begin, begin, [])
  {
  }

  lemma {:induction false} CoveredGap(free: seq<FreeMaps.Chunk>, begin: nat, cur: nat, owned: seq<Extent>, len: nat,
      coalescing: bool)
    requires Covered(free, begin, cur, owned) && 0 < len <= MAX_BLK_CNT
    ensures FreeMaps.WellSized(free) && FreeMaps.Ascending(free) && FreeMaps.Clear(free, FreeMaps.Chunk(cur, len))
    ensures Covered(FreeMaps.Freed(free, FreeMaps.Chunk(cur, len), coalescing), begin, cur + len, owned)
  {
    hide FreeMaps.Clear, FreeMaps.Freed;
    GrowTail(Space(free, map[], 0, begin, cur), owned, len, coalescing);
  }

  lemma {:induction false} CoveredExtent(free: seq<FreeMaps.Chunk>, begin: nat, cur: nat, owned: seq<Extent>, e: Extent)
    requires Covered(free, begin, cur, owned) && e.Full? && e.nr == cur && 0 < e.cnt <= MAX_BLK_CNT
    ensures Covered(free, begin, e.PastEnd(), owned + [e])
  {
    hide Owners, FreeMaps.WellSized, FreeMaps.Ascending, FreeMaps.Total, FullBlks, SubBlks, SubBlockFreeMaps.FreeCnt;
    var sp, sp1 := Space(free, map[], 0, begin, cur), Space(free, map[], 0, begin, e.PastEnd());
    OneMore(owned, e, [], 0, 0);
    assert owned + [e] + [] == owned + [e] && owned + [] == owned;
    forall blk: nat, bit: nat | bit < 16
      ensures Owners(sp1, owned + [e], blk, bit) == if begin <= blk < e.PastEnd() then 1 else 0
    {
      CoveredExtentCell(sp, sp1, owned, e, blk, bit);
      OneOwner(sp, owned, blk, bit);
    }
  }

  lemma {:induction false} CoveredExtentCell(sp: Space, sp1: Space, owned: seq<Extent>, e: Extent, blk: nat, bit: nat)
    requires sp1.free == sp.free && sp1.subs == sp.subs
    ensures Owners(sp1, owned + [e], blk, bit) == Owners(sp, owned, blk, bit) + e.Cover(blk, bit)
  {
    CoversAppend(owned, [e], blk, bit);
  }

  /** No chunk could be longer: one that another follows on at once counts as many blocks as it can. */
  ghost predicate Chopped(free: seq<FreeMaps.Chunk>) {
    forall i :: 0 < i < |free| ==> free[i - 1].PastEnd() < free[i].nr || free[i - 1].cnt == MAX_BLK_CNT
  }

  /** That stays so if the next chunk begins at block `at`. */
  ghost predicate ChoppedTo(free: seq<FreeMaps.Chunk>, at: nat) {
    && Chopped(free) && (forall i :: 0 <= i < |free| ==> free[i].PastEnd() <= at)
    && (free != [] ==> free[|free| - 1].PastEnd() < at || free[|free| - 1].cnt == MAX_BLK_CNT)
  }

  /** Nothing merges with such a chunk. */
  lemma {:induction false} GapChopped(free: seq<FreeMaps.Chunk>, at: nat, len: nat, coalescing: bool)
    requires FreeMaps.WellSized(free) && FreeMaps.Ascending(free) && ChoppedTo(free, at) && 0 < len <= MAX_BLK_CNT
    ensures var now := FreeMaps.Freed(free, FreeMaps.Chunk(at, len), coalescing);
            && Chopped(now) && (len == MAX_BLK_CNT ==> ChoppedTo(now, at + len))
            && forall next: nat :: at + len < next ==> ChoppedTo(now, next)
  {
    hide FreeMaps.Freed, FreeMaps.Ascending, FreeMaps.WellSized;
    NothingMerges(free, at, len, coalescing);
    var now := free + [FreeMaps.Chunk(at, len)];
    forall j | 0 < j < |now|
      ensures now[j - 1].PastEnd() < now[j].nr || now[j - 1].cnt == MAX_BLK_CNT
    {
      if j < |free| { assert now[j] == free[j]; }
    }
  }

  lemma {:induction false} NothingMerges(free: seq<FreeMaps.Chunk>, at: nat, len: nat, coalescing: bool)
    requires FreeMaps.WellSized(free) && FreeMaps.Ascending(free) && ChoppedTo(free, at) && 0 < len
    ensures FreeMaps.Freed(free, FreeMaps.Chunk(at, len), coalescing) == free + [FreeMaps.Chunk(at, len)]
  {
    var c, i := FreeMaps.Chunk(at, len), FreeMaps.LowerBoundNr(free, at);
    forall k | 0 <= k < |free|
      ensures free[k].nr < at
    {
      assert free[k].PastEnd() <= at;
    }
    assert i == |free| && !FreeMaps.MergesNext(free, c) && !FreeMaps.MergesPrev(free, c);
  }

  lemma {:induction false} ChoppedNothing(at: nat)
    ensures ChoppedTo([], at)
  {
  }

  // ---------------------------------------------------------------------------------------------
  // The two together
  // ---------------------------------------------------------------------------------------------

  /** The extents lie within [begin, pastEnd) and share no sub-block. */
  ghost predicate Placeable(s: seq<Extent>, begin: nat, pastEnd: nat) {
    (forall e :: e in s ==> begin <= e.nr < pastEnd && e.PastEnd() <= pastEnd) && Disjoint(s)
  }

  /** The list of all extents of blocks, with the blocks that extents of sub-blocks are in. */
  ghost predicate IsMerged(all: seq<Extent>, s: seq<Extent>, m: SubBlockFreeMaps.BitsOf) {
    && SortedByNr(all)
    && (forall e :: e in all && e.Full? ==> e in s || (e.cnt == 1 && e.nr in m))
    && (forall e :: e in s && e.Full? ==> e in all) && (forall nr :: nr in m ==> Full(nr, 1) in all)
    && (forall blk: nat, bit: nat ::
          Covers(Fulls(all), blk, bit) == Covers(Fulls(s), blk, bit) + if blk in m then 1 else 0)
    && FullBlks(Fulls(all)) == FullBlks(s) + |m|
  }

  lemma {:induction false} MergedBySort(s: seq<Extent>, m: SubBlockFreeMaps.BitsOf, cuts: seq<Extent>)
    requires AreBlocks(cuts, m.Keys)
    requires forall nr :: nr in m ==> Full(nr, 1) in cuts
    ensures IsMerged(SortByNr(SortByNr(s) + cuts), s, m)
  {
    hide Covers, FullBlks, Fulls, SortByNr, SortedByNr;
    var t := SortByNr(s) + cuts;
    SortSorts(s);
    SortSorts(t);
    assert |m| == |m.Keys|;
    MergedSums(s, m, cuts, 0, 0);
    forall blk: nat, bit: nat
      ensures Covers(Fulls(SortByNr(t)), blk, bit) == Covers(Fulls(s), blk, bit) + if blk in m then 1 else 0
    {
      MergedSums(s, m, cuts, blk, bit);
    }
  }

  lemma {:induction false} MergedSums(s: seq<Extent>, m: SubBlockFreeMaps.BitsOf, cuts: seq<Extent>, blk: nat, bit: nat)
    requires AreBlocks(cuts, m.Keys)
    ensures var all := SortByNr(SortByNr(s) + cuts);
            && Covers(Fulls(all), blk, bit) == Covers(Fulls(s), blk, bit) + (if blk in m then 1 else 0)
            && FullBlks(Fulls(all)) == FullBlks(s) + |m.Keys|
  {
    hide Covers, FullBlks, Fulls, SortByNr;
    var t := SortByNr(s) + cuts;
    FullsAppend(SortByNr(s), cuts);
    KindsSums(s, blk, bit);
    BlksAppend(Fulls(SortByNr(s)), cuts);
    CoversAppend(Fulls(SortByNr(s)), cuts, blk, bit);
    SortSums(s, blk, bit);
    SortSums(t, blk, bit);
  }

  /** The free blocks and the free bits are exactly what the extents leave. */
  lemma {:induction false} ComplementBalanced(free: seq<FreeMaps.Chunk>, begin: nat, pastEnd: nat, all: seq<Extent>,
      s: seq<Extent>,
                           m: SubBlockFreeMaps.BitsOf, subs: SubBlockFreeMaps.BitsOf)
    requires Covered(free, begin, pastEnd, Fulls(all)) && IsMerged(all, s, m) && Proper(s)
    requires IsTaken(m, s) && IsFreeOf(subs, m, m.Keys)
    ensures Balanced(Space(free, subs, |m|, begin, pastEnd), s)
  {
    var sp := Space(free, subs, |m|, begin, pastEnd);
    var sp0 := Space(free, map[], 0, begin, pastEnd);
    forall blk: nat, bit: nat | bit < 16
      ensures Owners(sp, s, blk, bit) == if begin <= blk < pastEnd then 1 else 0
    {
      OneOwner(sp0, Fulls(all), blk, bit);
      KindsSums(s, blk, bit);
      FreeOrTaken(subs, m, blk, bit);
    }
    hide FreeMaps.WellSized, FreeMaps.Ascending, Owners, Covers, FullBlks, SubBlks, Fulls, Subs;
    assert m - m.Keys == map[];
    assert |m| == |m.Keys|;
    FreeOfNotEmpty(subs, m);
  }

  lemma {:induction false} FreeOrTaken(subs: SubBlockFreeMaps.BitsOf, m: SubBlockFreeMaps.BitsOf, blk: nat, bit: nat)
    requires IsFreeOf(subs, m, m.Keys) && bit < 16
    ensures SubBlockFreeMaps.Cover(subs, blk, bit) + SubBlockFreeMaps.Cover(m, blk, bit) == if blk in m then 1 else 0
  {
    assert bit in ALL_BITS;
    assert blk in m && m[blk] == ALL_BITS ==> bit in m[blk];
  }

  lemma {:induction false} FreeOfNotEmpty(subs: SubBlockFreeMaps.BitsOf, m: SubBlockFreeMaps.BitsOf)
    requires IsFreeOf(subs, m, m.Keys)
    ensures NoneEmpty(subs) && (NoneEmpty(m) ==> forall nr :: nr in subs ==> subs[nr] != ALL_BITS)
  {
    forall nr | nr in subs
      ensures subs[nr] != {} && (m[nr] != {} ==> subs[nr] != ALL_BITS)
    {
      assert ALL_BITS == subs[nr] + m[nr];
      if m[nr] != {} {
        var bit :| bit in m[nr];
        assert bit in ALL_BITS && bit !in subs[nr];
      }
    }
  }

  /**
   * Two extents of blocks that meet, be they from the list or blocks of its extents of sub-blocks, own a sub-block
   * twice.
   */
  lemma {:induction false} MeetingFulls(all: seq<Extent>, s: seq<Extent>, m: SubBlockFreeMaps.BitsOf, i: nat,
      prev: Extent)
    requires IsMerged(all, s, m) && IsTaken(m, s) && i < |all| && all[i].Full? && 0 < all[i].cnt
    requires prev in Fulls(all[..i]) && prev.Full? && prev.nr <= all[i].nr < prev.PastEnd()
    ensures !Disjoint(s)
  {
    hide Fulls, Subs, Covers, SortedByNr;
    var blk := all[i].nr;
    var bit: nat := 0;
    if blk in m {
      bit :| bit in m[blk];
    }
    CoveredTwice(all, i, prev, bit);
    KindsSums(s, blk, bit);
    assert bit < 16 && Covers(s, blk, bit) >= 2;
  }

  lemma {:induction false} CoveredTwice(all: seq<Extent>, i: nat, prev: Extent, bit: nat)
    requires i < |all| && all[i].Full? && 0 < all[i].cnt
    requires prev in Fulls(all[..i]) && prev.Full? && prev.nr <= all[i].nr < prev.PastEnd()
    ensures Covers(Fulls(all), all[i].nr, bit) >= 2
  {
    var e := all[i];
    OneKind(e, [], e.nr, bit);
    hide Fulls, Covers;
    assert all == all[..i] + [e] + all[i + 1..] && [e] + [] == [e];
    FullsAppend(all[..i] + [e], all[i + 1..]);
    FullsAppend(all[..i], [e]);
    CoversAppend(Fulls(all[..i]) + Fulls([e]), Fulls(all[i + 1..]), e.nr, bit);
    CoversAppend(Fulls(all[..i]), Fulls([e]), e.nr, bit);
    CoversMember(Fulls(all[..i]), prev, e.nr, bit);
  }

  /** An extent of blocks out of bounds comes from an extent out of bounds. */
  lemma {:induction false} OutOfBounds(all: seq<Extent>, s: seq<Extent>, m: SubBlockFreeMaps.BitsOf, e: Extent,
      begin: nat, pastEnd: nat)
    requires IsMerged(all, s, m) && IsTaken(m, s) && e in all && e.Full?
    requires !(begin <= e.nr < pastEnd && e.PastEnd() <= pastEnd)
    ensures !Placeable(s, begin, pastEnd)
  {
    if e !in s {
      var x :| x in s && x.Sub? && x.nr == e.nr;
    }
  }

  /** Balanced extents are placeable. */
  lemma {:induction false} BalancedPlaceable(sp: Space, s: seq<Extent>)
    requires Balanced(sp, s)
    ensures Placeable(s, sp.begin, sp.pastEnd)
  {
    forall e | e in s
      ensures sp.begin <= e.nr < sp.pastEnd && e.PastEnd() <= sp.pastEnd
    {
      OwnedWithin(sp, s, e);
    }
    forall blk: nat, bit: nat | bit < 16
      ensures Covers(s, blk, bit) <= 1
    {
      OneOwner(sp, s, blk, bit);
    }
  }
}
