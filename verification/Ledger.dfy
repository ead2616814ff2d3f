/**
 * What an allocator has handed out and not yet taken back, and the sums its counters show
 * (xoz/alloc/segment_allocator.cpp).
 */
module Ledger {
  import opened Extents
  import opened Layout
  import opened Products
  import opened Ownership
  import opened Segments

  /** The extents of all the holdings. */
  ghost function Exts(live: seq<Holding>): seq<Extent> {
    if live == [] then [] else live[0].exts + Exts(live[1..])
  }

  /** The inline bytes of all the holdings. */
  ghost function Inlined(live: seq<Holding>): nat {
    if live == [] then 0 else live[0].inlineSz + Inlined(live[1..])
  }

  lemma {:induction false} LiveAppend(s: seq<Holding>, t: seq<Holding>)
    ensures Exts(s + t) == Exts(s) + Exts(t)
    ensures Inlined(s + t) == Inlined(s) + Inlined(t)
  {
    if s == [] {
      assert s + t == t;
    } else {
      assert (s + t)[1..] == s[1..] + t;
      LiveAppend(s[1..], t);
    }
  }

  lemma {:induction false} LiveParts(a: seq<Holding>, h: Holding, b: seq<Holding>)
    ensures Exts(a + [h] + b) == Exts(a) + h.exts + Exts(b)
    ensures Inlined(a + [h] + b) == Inlined(a) + h.inlineSz + Inlined(b)
  {
    LiveAppend(a + [h], b);
    LiveAppend(a, [h]);
    assert Exts([h]) == h.exts;
    assert Inlined([h]) == h.inlineSz;
  }

  /**
   * What the allocator's counters are about: bytes at the user's disposal, blocks, sub-blocks, extents, inline bytes.
   */
  datatype Sums = Sums(userSz: int, fullBlks: int, subBlks: int, exts: int, inlined: int) {
    function Plus(o: Sums): Sums {
      Sums(userSz + o.userSz, fullBlks + o.fullBlks, subBlks + o.subBlks, exts + o.exts, inlined + o.inlined)
    }
  }

  ghost function SumsOf(exts: seq<Extent>, inlined: nat, blkSz: nat): Sums {
    Sums(DataSizes(exts, blkSz) + inlined, FullBlks(exts), SubBlks(exts), |exts|, inlined)
  }

  ghost function Tally(live: seq<Holding>, blkSz: nat): Sums {
    SumsOf(Exts(live), Inlined(live), blkSz)
  }

  lemma {:induction false} SumsAppend(s: seq<Extent>, t: seq<Extent>, m: nat, n: nat, blkSz: nat)
    ensures SumsOf(s + t, m + n, blkSz) == SumsOf(s, m, blkSz).Plus(SumsOf(t, n, blkSz))
  {
    SegPosAppend(s, t, blkSz);
    BlksAppend(s, t);
  }

  /** The sums of a holding are part of the sums of the ledger. */
  lemma {:induction false} TallyParts(a: seq<Holding>, h: Holding, b: seq<Holding>, blkSz: nat)
    ensures Tally(a + [h] + b, blkSz) == Tally(a + b, blkSz).Plus(SumsOf(h.exts, h.inlineSz, blkSz))
  {
    hide SumsOf, Exts, Inlined;
    LiveParts(a, h, b);
    LiveAppend(a, b);
    SumsAppend(Exts(a) + h.exts, Exts(b), Inlined(a) + h.inlineSz, Inlined(b), blkSz);
    SumsAppend(Exts(a), h.exts, Inlined(a), h.inlineSz, blkSz);
    SumsAppend(Exts(a), Exts(b), Inlined(a), Inlined(b), blkSz);
  }

  /** The extents of holding ix, between those before it and those after it. */
  lemma {:induction false} Listed(live: seq<Holding>, lost: seq<Extent>, ix: nat, blkSz: nat)
    requires ix < |live|
    ensures Exts(live) + lost == Exts(live[..ix]) + live[ix].exts + (Exts(live[ix + 1..]) + lost)
    ensures Exts(live[..ix] + live[ix + 1..]) + lost == Exts(live[..ix]) + (Exts(live[ix + 1..]) + lost)
    ensures Tally(live, blkSz) == Tally(live[..ix] + live[ix + 1..], blkSz).Plus(SumsOf(live[ix].exts,
        live[ix].inlineSz, blkSz))
  {
    hide Exts, Inlined, Tally, SumsOf;
    var a, h, b := live[..ix], live[ix], live[ix + 1..];
    assert live == a + [h] + b;
    LiveParts(a, h, b);
    LiveAppend(a, b);
    TallyParts(a, h, b, blkSz);
    Regroup(Exts(a), h.exts, Exts(b), lost);
  }

  lemma {:induction false} Regroup(a: seq<Extent>, s: seq<Extent>, b: seq<Extent>, c: seq<Extent>)
    ensures a + s + b + c == a + s + (b + c) && a + b + c == a + (b + c)
  {
  }

  // ---------------------------------------------------------------------------------------------
  // Moving extents between holdings
  // ---------------------------------------------------------------------------------------------

  /** One holding cut in two: the front stays where it is, the back comes last. */
  ghost function Parted(live: seq<Holding>, ix: nat, front: Holding, back: Holding): seq<Holding>
    requires ix < |live|
  {
    live[ix := front] + [back]
  }

  /** The extents and sums of a ledger with one holding cut in two. */
  lemma {:induction false} PartedExts(live: seq<Holding>, ix: nat, front: Holding, back: Holding, blkSz: nat)
    requires ix < |live|
    ensures Exts(Parted(live, ix, front, back)) == Exts(live[..ix]) + front.exts + Exts(live[ix + 1..]) + back.exts
    ensures Tally(Parted(live, ix, front, back), blkSz)
         == Tally(live[..ix] + live[ix + 1..], blkSz).Plus(SumsOf(front.exts + back.exts,
             front.inlineSz + back.inlineSz, blkSz))
  {
    hide Exts, Inlined, Tally, SumsOf, Sums.Plus;
    var a, b := live[..ix], live[ix + 1..];
    assert Parted(live, ix, front, back) == a + [front] + (b + [back]);
    assert live[..ix] + (b + [back]) == a + b + [back] + [];
    LiveParts(a, front, b + [back]);
    LiveAppend(b, [back]);
    OneHolding(back);
    TallyParts(a, front, b + [back], blkSz);
    TallyParts(a + b, back, [], blkSz);
    assert a + b + [] == a + b;
    SumsAppend(front.exts, back.exts, front.inlineSz, back.inlineSz, blkSz);
    PlusAssociative(Tally(a + b, blkSz), SumsOf(front.exts, front.inlineSz, blkSz), SumsOf(back.exts, back.inlineSz,
        blkSz));
  }

  lemma {:induction false} OneHolding(h: Holding)
    ensures Exts([h]) == h.exts
  {
  }

  lemma {:induction false} PlusAssociative(s: Sums, t: Sums, u: Sums)
    ensures s.Plus(u).Plus(t) == s.Plus(t.Plus(u))
  {
  }

  /** Cutting a holding in two, or joining two, changes neither the balance nor the sums. */
  lemma {:induction false} PartedBalance(sp: Space, live: seq<Holding>, lost: seq<Extent>, ix: nat, front: Holding,
      back: Holding, blkSz: nat)
    requires ix < |live| && live[ix] == Holding(front.exts + back.exts, front.inlineSz + back.inlineSz)
    ensures Balanced(sp, Exts(Parted(live, ix, front, back)) + lost) <==> Balanced(sp, Exts(live) + lost)
    ensures Tally(Parted(live, ix, front, back), blkSz) == Tally(live, blkSz)
  {
    hide Exts, Tally, SumsOf, Sums.Plus, Balanced;
    var a, b := Exts(live[..ix]), Exts(live[ix + 1..]);
    Listed(live, lost, ix, blkSz);
    PartedExts(live, ix, front, back, blkSz);
    var whole, parts := a + front.exts + back.exts + b + lost, a + front.exts + b + back.exts + lost;
    assert a + (front.exts + back.exts) + (b + lost) == whole;
    if Balanced(sp, whole) { Reorder(sp, a + front.exts, back.exts, b, lost); }
    if Balanced(sp, parts) { Reorder(sp, a + front.exts, b, back.exts, lost); }
  }

  /** The last extent of one holding becomes the last of the last holding. */
  lemma {:induction false} PassOn(sp: Space, live: seq<Holding>, lost: seq<Extent>, ix: nat, front: seq<Extent>,
      e: Extent, back: seq<Extent>, blkSz: nat)
    requires ix < |live| && Balanced(sp, Exts(Parted(live, ix, Holding(front + [e], 0), Holding(back, 0))) + lost)
    ensures Balanced(sp, Exts(Parted(live, ix, Holding(front, 0), Holding(back + [e], 0))) + lost)
    ensures Tally(Parted(live, ix, Holding(front, 0), Holding(back + [e], 0)), blkSz)
         == Tally(Parted(live, ix, Holding(front + [e], 0), Holding(back, 0)), blkSz)
  {
    hide Exts, Tally, SumsOf, Sums.Plus, Balanced;
    var a, b := Exts(live[..ix]), Exts(live[ix + 1..]);
    PartedExts(live, ix, Holding(front + [e], 0), Holding(back, 0), blkSz);
    PartedExts(live, ix, Holding(front, 0), Holding(back + [e], 0), blkSz);
    assert a + (front + [e]) + b + back + lost == (a + front) + [e] + (b + back) + lost;
    Reorder(sp, a + front, [e], b + back, lost);
    assert (a + front) + (b + back) + [e] + lost == a + front + b + (back + [e]) + lost;
    SumsOrder(front, e, back, blkSz);
  }

  lemma {:induction false} SumsOrder(front: seq<Extent>, e: Extent, back: seq<Extent>, blkSz: nat)
    ensures SumsOf(front + (back + [e]), 0, blkSz) == SumsOf(front + [e] + back, 0, blkSz)
  {
    SumsAppend(front, back + [e], 0, 0, blkSz);
    SumsAppend(back, [e], 0, 0, blkSz);
    SumsAppend(front + [e], back, 0, 0, blkSz);
    SumsAppend(front, [e], 0, 0, blkSz);
  }

  /** Another number of inline bytes in one holding. */
  lemma {:induction false} InlineChanged(live: seq<Holding>, ix: nat, inlineSz: nat, blkSz: nat)
    requires ix < |live|
    ensures var live2 := live[ix := Holding(live[ix].exts, inlineSz)];
            var d := inlineSz - live[ix].inlineSz;
            Exts(live2) == Exts(live) && Tally(live2, blkSz) == Tally(live, blkSz).Plus(Sums(d, 0, 0, 0, d))
  {
    hide Exts, Inlined, DataSizes, FullBlks, SubBlks;
    var a, h, b := live[..ix], live[ix], live[ix + 1..];
    assert live == a + [h] + b;
    assert live[ix := Holding(h.exts, inlineSz)] == a + [Holding(h.exts, inlineSz)] + b;
    LiveParts(a, h, b);
    LiveParts(a, Holding(h.exts, inlineSz), b);
  }

  // ---------------------------------------------------------------------------------------------
  // The bytes of the holdings
  // ---------------------------------------------------------------------------------------------

  /** The bytes at the positions are the same in both buffers. */
  ghost predicate Kept(buf0: seq<Byte>, buf: seq<Byte>, pos: seq<nat>) {
    forall k :: 0 <= k < |pos| ==> pos[k] < |buf0| && pos[k] < |buf| && buf[pos[k]] == buf0[pos[k]]
  }

  ghost predicate AllKept(hs: seq<Holding>, blkSz: nat, buf0: seq<Byte>, buf: seq<Byte>) {
    forall i :: 0 <= i < |hs| ==> Kept(buf0, buf, SegPos(hs[i].exts, blkSz))
  }

  lemma {:induction false} KeptThen(b0: seq<Byte>, b1: seq<Byte>, b2: seq<Byte>, pos: seq<nat>)
    requires Kept(b0, b1, pos) && Kept(b1, b2, pos)
    ensures Kept(b0, b2, pos)
  {
  }

  lemma {:induction false} KeptByPrefix(buf0: seq<Byte>, buf: seq<Byte>, pos: seq<nat>)
    requires buf0 <= buf || buf <= buf0
    requires Within(pos, |buf0|) && Within(pos, |buf|)
    ensures Kept(buf0, buf, pos)
  {
  }

  lemma {:induction false} KeptElsewhere(buf0: seq<Byte>, buf: seq<Byte>, pos: seq<nat>, other: seq<nat>)
    requires |buf| == |buf0| && forall x :: 0 <= x < |buf0| && x !in pos ==> buf[x] == buf0[x]
    requires Apart(pos, other) && Within(other, |buf0|)
    ensures Kept(buf0, buf, other)
  {
    forall k | 0 <= k < |other|
      ensures buf[other[k]] == buf0[other[k]]
    {
      assert other[k] !in pos;
    }
  }

  /** A holding lies within the space. */
  lemma {:induction false} LiveWithin(sp: Space, live: seq<Holding>, lost: seq<Extent>, ix: nat, blkSz: nat)
    requires Balanced(sp, Exts(live) + lost) && ix < |live| && GoodBlkSz(blkSz)
    ensures Within(SegPos(live[ix].exts, blkSz), Times(sp.pastEnd, blkSz))
  {
    hide Tally, Exts, Balanced, SegPos;
    Listed(live, lost, ix, blkSz);
    forall e | e in live[ix].exts
      ensures e.PastEnd() <= sp.pastEnd
    {
      assert e in Exts(live) + lost;
      OwnedWithin(sp, Exts(live) + lost, e);
    }
    SegPosWithin(live[ix].exts, blkSz, sp.pastEnd);
  }

  /** Two holdings share no byte. */
  lemma {:induction false} LiveApart(sp: Space, live: seq<Holding>, lost: seq<Extent>, i: nat, j: nat, blkSz: nat)
    requires Balanced(sp, Exts(live) + lost) && i < |live| && j < |live| && i != j && GoodBlkSz(blkSz)
    ensures Apart(SegPos(live[i].exts, blkSz), SegPos(live[j].exts, blkSz))
  {
    hide Tally, SegPos, Covers, GoodBlkSz;
    var s, t := live[i].exts, live[j].exts;
    forall blk: nat, bit: nat | bit < 16
      ensures Covers(s, blk, bit) + Covers(t, blk, bit) <= 1
    {
      if i < j { CoversTwo(live, i, j, blk, bit); } else { CoversTwo(live, j, i, blk, bit); }
      CoversAppend(Exts(live), lost, blk, bit);
      OneOwner(sp, Exts(live) + lost, blk, bit);
    }
    SegPosApart(s, t, blkSz);
  }

  lemma {:induction false} CoversTwo(live: seq<Holding>, i: nat, j: nat, blk: nat, bit: nat)
    requires i < j < |live|
    ensures Covers(live[i].exts, blk, bit) + Covers(live[j].exts, blk, bit) <= Covers(Exts(live), blk, bit)
  {
    hide Exts, Covers;
    var a, m, b := live[..i], live[i + 1..j], live[j + 1..];
    assert live == a + [live[i]] + (m + [live[j]] + b);
    LiveParts(a, live[i], m + [live[j]] + b);
    LiveParts(m, live[j], b);
    CoversAppend(Exts(a) + live[i].exts, Exts(m) + live[j].exts + Exts(b), blk, bit);
    CoversAppend(Exts(a), live[i].exts, blk, bit);
    CoversAppend(Exts(m) + live[j].exts, Exts(b), blk, bit);
    CoversAppend(Exts(m), live[j].exts, blk, bit);
  }
}
