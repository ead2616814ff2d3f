/** Cutting an extent in two: its bytes are those of the first part, then those of the second (xoz/ext/extent.h). */
module Splitting {
  import opened Extents
  import opened Layout
  import opened Products
  import opened Ownership
  import opened Segments
  import opened Ledger
  import FreeMaps

  /** The first part keeps n blocks, or the n most significant sub-blocks. */
  ghost predicate IsSplit(e: Extent, n: nat, front: Extent, back: Extent) {
    match e
    case Full(nr, cnt) => n <= cnt && front == Full(nr, n) && back == Full(nr + n, cnt - n)
    case Sub(nr, bits) =>
      && front.Sub? && back.Sub? && front.nr == back.nr == nr && |front.bits| == n
      && front.bits + back.bits == bits && forall i, j :: i in front.bits && j in back.bits ==> j < i
  }

  /** split: the second part of an extent of sub-blocks takes the least significant bits. */
  method Split(e: Extent, n: nat) returns (front: Extent, back: Extent)
    requires n <= if e.Full? then e.cnt else |e.bits|
    ensures IsSplit(e, n, front, back)
  {
    if e.Full? {
      return Full(e.nr, n), Full(e.nr + n, e.cnt - n);
    }
    var low := LowBits(e.bits, |e.bits| - n);
    front, back := Sub(e.nr, e.bits - low), Sub(e.nr, low);
    assert e.bits == (e.bits - low) + low;
  }

  /** Walks from the least significant bit up until k bits were transferred. */
  method LowBits(bits: Bitmap, k: nat) returns (low: Bitmap)
    requires k <= |bits|
    ensures low <= bits && |low| == k && forall a, b :: a in bits - low && b in low ==> b < a
  {
    low := {};
    var keep, transfer: nat, i: nat := bits, k, 0;
    while i < 16 && transfer > 0
      invariant i <= 16 && transfer + |low| == k && keep + low == bits && |keep| + |low| == |bits|
      invariant (forall a :: a in keep ==> i <= a) && forall b :: b in low ==> b < i
    {
      if i in keep {
        keep := keep - {i};
        low := low + {i};
        transfer := transfer - 1;
      }
      i := i + 1;
    }
    assert i == 16 ==> keep == {};
  }

  /** The two parts own what the extent owned. */
  lemma {:induction false} SplitCover(e: Extent, n: nat, front: Extent, back: Extent, blk: nat, bit: nat)
    requires IsSplit(e, n, front, back)
    ensures e.Cover(blk, bit) == front.Cover(blk, bit) + back.Cover(blk, bit)
  {
  }

  lemma {:induction false} SplitCounts(e: Extent, n: nat, front: Extent, back: Extent)
    requires IsSplit(e, n, front, back)
    ensures e.Sub? ==> |front.bits| + |back.bits| == |e.bits| && front.bits !! back.bits
  {
    if e.Sub? {
      assert front.bits !! back.bits;
      assert |front.bits + back.bits| == |front.bits| + |back.bits|;
    }
  }

  /** The positions of the extent are those of the first part and then those of the second. */
  lemma {:induction false} SplitPositions(e: Extent, n: nat, front: Extent, back: Extent, blkSz: nat)
    requires IsSplit(e, n, front, back)
    ensures ExtPos(e, blkSz) == ExtPos(front, blkSz) + ExtPos(back, blkSz)
    ensures DataSize(e, blkSz) == DataSize(front, blkSz) + DataSize(back, blkSz)
  {
    if e.Full? {
      Distribute(e.nr, n, blkSz);
      Distribute(n, e.cnt - n, blkSz);
    } else {
      SplitSubPos(Times(e.nr, blkSz), SubSz(blkSz), front.bits, back.bits, e.bits, 0);
      SplitCounts(e, n, front, back);
      Distribute(|front.bits|, |back.bits|, SubSz(blkSz));
    }
  }

  lemma {:induction false} SplitSubPos(at: nat, subSz: nat, hi: Bitmap, lo: Bitmap, bits: Bitmap, i: nat)
    requires i <= 16 && bits == hi + lo && forall a, b :: a in hi && b in lo ==> b < a
    ensures SubPos(at, subSz, bits, i) == SubPos(at, subSz, hi, i) + SubPos(at, subSz, lo, i)
    ensures (forall a :: a in hi ==> 16 - i <= a) ==> SubPos(at, subSz, hi, i) == []
    decreases 16 - i
  {
    if i < 16 {
      SplitSubPos(at + subSz, subSz, hi, lo, bits, i + 1);
      if 15 - i in lo {
        assert SubPos(at, subSz, hi, i) == [];
      }
    }
  }

  /** Cutting an extent in use in two keeps the balance. */
  lemma {:induction false} SplitBalance(sp: Space, a: seq<Extent>, e: Extent, b: seq<Extent>, n: nat, front: Extent,
      back: Extent)
    requires Balanced(sp, a + [e] + b) && IsSplit(e, n, front, back) && !front.Empty() && !back.Empty()
    ensures Balanced(sp, a + [front] + ([back] + b))
  {
    hide IsSplit;
    forall blk: nat, bit: nat | bit < 16
      ensures Owners(sp, a + [front] + ([back] + b), blk, bit) == Owners(sp, a + [e] + b, blk, bit)
    {
      SplitSums(a, e, b, n, front, back, blk, bit);
    }
    hide Owners, FreeMaps.WellSized, FreeMaps.Ascending, Proper;
    SplitSums(a, e, b, n, front, back, 0, 0);
    SplitProper(a, e, b, n, front, back);
  }

  lemma {:induction false} SplitSums(a: seq<Extent>, e: Extent, b: seq<Extent>, n: nat, front: Extent, back: Extent,
      blk: nat, bit: nat)
    requires IsSplit(e, n, front, back)
    ensures Covers(a + [front] + ([back] + b), blk, bit) == Covers(a + [e] + b, blk, bit)
    ensures FullBlks(a + [front] + ([back] + b)) == FullBlks(a + [e] + b)
    ensures SubBlks(a + [front] + ([back] + b)) == SubBlks(a + [e] + b)
  {
    SplitCover(e, n, front, back, blk, bit);
    SplitCounts(e, n, front, back);
    OneMore(a, e, b, blk, bit);
    OneMore(a, front, [back] + b, blk, bit);
    OneMore(a, back, b, blk, bit);
    assert a + [back] + b == a + ([back] + b);
  }

  lemma {:induction false} SplitProper(a: seq<Extent>, e: Extent, b: seq<Extent>, n: nat, front: Extent, back: Extent)
    requires IsSplit(e, n, front, back) && Proper(a + [e] + b) && !front.Empty() && !back.Empty()
    ensures Proper(a + [front] + ([back] + b))
  {
    assert e in a + [e] + b;
    forall x | x in a + [front] + ([back] + b)
      ensures !x.Empty() && x.Span() <= MAX_BLK_CNT
    {
      assert x in a + [e] + b || x == front || x == back;
    }
  }

  /** Like PassOn, but only the second part of the last extent is passed on; the ledger then has one extent more. */
  lemma {:induction false} PassOnPart(sp: Space, live: seq<Holding>, lost: seq<Extent>, ix: nat, rest: seq<Extent>,
      e: Extent, n: nat,
                   front: Extent, back: Extent, toFree: seq<Extent>, blkSz: nat)
    requires ix < |live| && Balanced(sp, Exts(Parted(live, ix, Holding(rest + [e], 0), Holding(toFree, 0))) + lost)
    requires IsSplit(e, n, front, back) && !front.Empty() && !back.Empty()
    ensures Balanced(sp, Exts(Parted(live, ix, Holding(rest + [front], 0), Holding(toFree + [back], 0))) + lost)
    ensures Tally(Parted(live, ix, Holding(rest + [front], 0), Holding(toFree + [back], 0)), blkSz)
         == Tally(Parted(live, ix, Holding(rest + [e], 0), Holding(toFree, 0)), blkSz).Plus(Sums(0, 0, 0, 1, 0))
  {
    hide Exts, Tally, SumsOf, Sums.Plus, Balanced, IsSplit;
    var a, b := Exts(live[..ix]) + rest, Exts(live[ix + 1..]) + toFree;
    PartedExts(live, ix, Holding(rest + [e], 0), Holding(toFree, 0), blkSz);
    PartedExts(live, ix, Holding(rest + [front], 0), Holding(toFree + [back], 0), blkSz);
    assert Exts(live[..ix]) + (rest + [e]) + Exts(live[ix + 1..]) + toFree + lost == a + [e] + (b + lost);
    SplitBalance(sp, a, e, b + lost, n, front, back);
    assert a + [front] + ([back] + (b + lost)) == (a + [front]) + [back] + b + lost;
    Reorder(sp, a + [front], [back], b, lost);
    assert (a + [front]) + b + [back] + lost
        == Exts(live[..ix]) + (rest + [front]) + Exts(live[ix + 1..]) + (toFree + [back]) + lost;
    SplitTally(rest, e, n, front, back, toFree, blkSz);
    PlusOne(Tally(live[..ix] + live[ix + 1..], blkSz), SumsOf(rest + [e] + toFree, 0, blkSz));
  }

  lemma {:induction false} PlusOne(s: Sums, t: Sums)
    ensures s.Plus(t.Plus(Sums(0, 0, 0, 1, 0))) == s.Plus(t).Plus(Sums(0, 0, 0, 1, 0))
  {
  }

  lemma {:induction false} SplitTally(rest: seq<Extent>, e: Extent, n: nat, front: Extent, back: Extent,
      toFree: seq<Extent>, blkSz: nat)
    requires IsSplit(e, n, front, back)
    ensures SumsOf(rest + [front] + (toFree + [back]), 0, blkSz) == SumsOf(rest + [e] + toFree, 0, blkSz).Plus(Sums(0,
        0, 0, 1, 0))
  {
    SplitPositions(e, n, front, back, blkSz);
    SplitCounts(e, n, front, back);
    SumsAppend(rest + [front], toFree + [back], 0, 0, blkSz);
    SumsAppend(rest, [front], 0, 0, blkSz);
    SumsAppend(toFree, [back], 0, 0, blkSz);
    SumsAppend(rest + [e], toFree, 0, 0, blkSz);
    SumsAppend(rest, [e], 0, 0, blkSz);
    SumsOfOne(e, blkSz);
    SumsOfOne(front, blkSz);
    SumsOfOne(back, blkSz);
  }

  lemma {:induction false} SumsOfOne(e: Extent, blkSz: nat)
    ensures SumsOf([e], 0, blkSz)
         == Sums(DataSize(e, blkSz), if e.Full? then e.cnt else 0, if e.Sub? then |e.bits| else 0, 1, 0)
  {
    assert DataSizes([e], blkSz) == DataSize(e, blkSz);
    OneExtent(e);
  }
}
