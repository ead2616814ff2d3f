/** Cutting a segment of one array where the blocks of another array end (xoz/blk/segment_block_array.cpp). */
module Geometry {
  import opened Extents
  import opened Layout
  import opened Products
  import opened Ownership
  import opened Requests

  ghost predicate Multiple(n: nat, unit: nat) {
    exists k: nat :: n == Times(k, unit)
  }

  lemma {:induction false} MultipleSum(a: nat, b: nat, unit: nat)
    requires Multiple(a, unit) && Multiple(b, unit)
    ensures Multiple(a + b, unit)
  {
    var i: nat :| a == Times(i, unit);
    var j: nat :| b == Times(j, unit);
    Distribute(i, j, unit);
  }

  lemma {:induction false} MultipleDifference(a: nat, b: nat, unit: nat)
    requires Multiple(a, unit) && Multiple(b, unit) && b <= a
    ensures Multiple(a - b, unit)
  {
    var i: nat :| a == Times(i, unit);
    var j: nat :| b == Times(j, unit);
    if j <= i {
      Distribute(i - j, j, unit);
    } else {
      LessEqual(i, j, unit);
      assert a - b == Times(0, unit);
    }
  }

  lemma {:induction false} MultipleTimes(n: nat, a: nat, unit: nat)
    requires Multiple(a, unit)
    ensures Multiple(Times(n, a), unit)
  {
    if n == 0 {
      assert 0 == Times(0, unit);
    } else {
      MultipleTimes(n - 1, a, unit);
      MultipleSum(Times(n - 1, a), a, unit);
    }
  }

  lemma {:induction false} BlocksOf(n: nat, unit: nat)
    requires Multiple(n, unit) && 0 < unit
    ensures n % unit == 0 && n == Times(n / unit, unit)
  {
    var k: nat :| n == Times(k, unit);
    DivMod(k, 0, unit);
  }

  /** The smallest piece that can be cut off an extent. */
  function Unit(e: Extent, blkSz: nat): nat {
    if e.Sub? then SubSz(blkSz) else blkSz
  }

  /** How many of n bytes cannot be cut off; with `release` the last extent that stays may be cut in two. */
  function Uncut(exts: seq<Extent>, n: nat, release: bool, blkSz: nat): (left: nat)
    ensures left <= n
  {
    var (front, rest) := Trim(exts, n, blkSz);
    if release && SplitsOne(exts, n, blkSz) then rest % Unit(front[|front| - 1], blkSz) else rest
  }

  /** Whether an extent is cut in two when n bytes are released: the one that stays has a whole piece to give. */
  predicate SplitsOne(exts: seq<Extent>, n: nat, blkSz: nat) {
    var (front, rest) := Trim(exts, n, blkSz);
    front != [] && 0 < Unit(front[|front| - 1], blkSz) <= rest
  }

  lemma {:induction false} UncutOf(exts: seq<Extent>, n: nat, release: bool, blkSz: nat, front: seq<Extent>, rest: nat)
    requires (front, rest) == Trim(exts, n, blkSz) && (0 < rest ==> front != [])
    ensures rest == 0 || !release ==> Uncut(exts, n, release, blkSz) == rest
    ensures rest == 0 ==> !SplitsOne(exts, n, blkSz)
    ensures 0 < rest ==>
              var unit := Unit(front[|front| - 1], blkSz);
              && (0 < unit && release ==> Uncut(exts, n, release, blkSz) == rest % unit)
              && (0 < unit ==> (SplitsOne(exts, n, blkSz) <==> unit <= rest))
  {
    hide Trim;
    if 0 < rest {
      var unit := Unit(front[|front| - 1], blkSz);
      if rest < unit { DivMod(0, rest, unit); }
    }
  }

  /** All bytes can be cut off. */
  lemma {:induction false} NothingUncut(exts: seq<Extent>, release: bool, blkSz: nat)
    ensures Uncut(exts, DataSizes(exts, blkSz), release, blkSz) == 0
  {
    var n := DataSizes(exts, blkSz);
    TrimSizes(exts, n, blkSz);
    var (front, rest) := Trim(exts, n, blkSz);
    if 0 < rest { FrontSize(front, blkSz); }
  }

  /** A block of the background, and a sub-block if there may be any, is a multiple of the foreground block. */
  ghost predicate Fitting(exts: seq<Extent>, allowSuballoc: bool, blkSz: nat, fgBlkSz: nat) {
    && Multiple(blkSz, fgBlkSz)
    && (Multiple(SubSz(blkSz), fgBlkSz) || (!allowSuballoc && AllFull(exts)))
  }

  predicate AllFull(exts: seq<Extent>) {
    forall e :: e in exts ==> e.Full?
  }

  lemma {:induction false} FittingFront(exts: seq<Extent>, front: seq<Extent>, allowSuballoc: bool, blkSz: nat,
      fgBlkSz: nat)
    requires Fitting(exts, allowSuballoc, blkSz, fgBlkSz) && front <= exts
    ensures Fitting(front, allowSuballoc, blkSz, fgBlkSz)
  {
  }

  lemma {:induction false} FittingSizes(exts: seq<Extent>, allowSuballoc: bool, blkSz: nat, fgBlkSz: nat)
    requires Fitting(exts, allowSuballoc, blkSz, fgBlkSz)
    ensures Multiple(DataSizes(exts, blkSz), fgBlkSz)
  {
    if exts == [] {
      assert 0 == Times(0, fgBlkSz);
    } else {
      FittingSizes(exts[1..], allowSuballoc, blkSz, fgBlkSz);
      var e := exts[0];
      if e.Full? { MultipleTimes(e.cnt, blkSz, fgBlkSz); } else { MultipleTimes(|e.bits|, SubSz(blkSz), fgBlkSz); }
      MultipleSum(DataSize(e, blkSz), DataSizes(exts[1..], blkSz), fgBlkSz);
    }
  }

  // ---------------------------------------------------------------------------------------------
  // Which geometries keep whole blocks
  // ---------------------------------------------------------------------------------------------

  /** If a segment has whole foreground blocks, it still does after k of them were cut off as far as extents allow. */
  ghost predicate StaysWhole(exts: seq<Extent>, k: nat, release: bool, blkSz: nat, fgBlkSz: nat) {
    var size, n := DataSizes(exts, blkSz), Times(k, fgBlkSz);
    Multiple(size, fgBlkSz) && n <= size ==> Multiple(size - n + Uncut(exts, n, release, blkSz), fgBlkSz)
  }

  ghost predicate AllStayWhole(suballoc: bool, blkSz: nat, fgBlkSz: nat) {
    forall exts: seq<Extent>, k: nat, release: bool :: Proper(exts) && (suballoc || AllFull(exts)) ==>
        StaysWhole(exts, k, release, blkSz, fgBlkSz)
  }

  /**
   * Every segment of whole foreground blocks stays one under every cut exactly if the smallest piece of the background,
   * a block or else a sub-block, is a multiple of the foreground block.
   */
  lemma {:induction false} WholeIffMultiple(suballoc: bool, blkSz: nat, fgBlkSz: nat)
    requires GoodBlkSz(blkSz) && 2 <= blkSz && 0 < fgBlkSz <= 0x10000 && (suballoc ==> 0 < SubSz(blkSz))
    ensures AllStayWhole(suballoc, blkSz, fgBlkSz) <==> Multiple(if suballoc then SubSz(blkSz) else blkSz, fgBlkSz)
  {
    hide StaysWhole, Multiple, GoodBlkSz;
    if Multiple(if suballoc then SubSz(blkSz) else blkSz, fgBlkSz) {
      forall exts: seq<Extent>, k: nat, release: bool | Proper(exts) && (suballoc || AllFull(exts))
        ensures StaysWhole(exts, k, release, blkSz, fgBlkSz)
      {
        if suballoc { BlockOfSubBlks(blkSz, fgBlkSz); }
        MultipleStays(exts, k, release, suballoc, blkSz, fgBlkSz);
      }
    } else {
      OneIsEnough(if suballoc then SubSz(blkSz) else blkSz, fgBlkSz);
      var exts, k := CutsPiece(suballoc, blkSz, fgBlkSz);
      assert !StaysWhole(exts, k, false, blkSz, fgBlkSz);
    }
  }

  lemma {:induction false} OneIsEnough(n: nat, unit: nat)
    requires !Multiple(n, unit)
    ensures unit != 1
  {
    TimesIsProduct(n, unit);
  }

  lemma {:induction false} BlockOfSubBlks(blkSz: nat, fgBlkSz: nat)
    requires GoodBlkSz(blkSz) && 0 < SubSz(blkSz) && Multiple(SubSz(blkSz), fgBlkSz)
    ensures Multiple(blkSz, fgBlkSz)
  {
    SixteenSubBlks(blkSz);
    MultipleTimes(16, SubSz(blkSz), fgBlkSz);
  }

  lemma {:induction false} MultipleStays(exts: seq<Extent>, k: nat, release: bool, suballoc: bool, blkSz: nat,
      fgBlkSz: nat)
    requires Multiple(blkSz, fgBlkSz) && (Multiple(SubSz(blkSz), fgBlkSz) || AllFull(exts))
    ensures StaysWhole(exts, k, release, blkSz, fgBlkSz)
  {
    hide Multiple;
    var size, n := DataSizes(exts, blkSz), Times(k, fgBlkSz);
    if n <= size {
      TrimSizes(exts, n, blkSz);
      var (front, rest) := Trim(exts, n, blkSz);
      FittingSizes(front, false, blkSz, fgBlkSz);
      if release && SplitsOne(exts, n, blkSz) {
        var unit := Unit(front[|front| - 1], blkSz);
        assert front[|front| - 1] in exts;
        DivModBack(rest, unit);
        MultipleTimes(rest / unit, unit, fgBlkSz);
        MultipleDifference(DataSizes(front, blkSz), Times(rest / unit, unit), fgBlkSz);
      }
    }
  }

  /** A segment whose last extent is the smallest piece, and a cut of it that goes into the extent before. */
  lemma {:induction false} CutsPiece(suballoc: bool, blkSz: nat, fgBlkSz: nat) returns (exts: seq<Extent>, k: nat)
    requires GoodBlkSz(blkSz) && 2 <= blkSz && 1 < fgBlkSz <= 0x10000 && (suballoc ==> 0 < SubSz(blkSz))
    ensures Proper(exts) && (suballoc || AllFull(exts))
    ensures StaysWhole(exts, k, false, blkSz, fgBlkSz) ==> Multiple(if suballoc then SubSz(blkSz) else blkSz, fgBlkSz)
  {
    hide Multiple, StaysWhole, Proper, GoodBlkSz;
    var piece := if suballoc then SubSz(blkSz) else blkSz;
    exts := if suballoc then WithSubBlks(fgBlkSz) else [Full(0, fgBlkSz - 1), Full(fgBlkSz, 1)];
    k := (piece + fgBlkSz - 1) / fgBlkSz;
    PieceSizes(suballoc, blkSz, fgBlkSz, exts, piece);
    JustBeyond(piece, fgBlkSz, k);
    CutGoesOn(exts, k, piece, blkSz, fgBlkSz);
  }

  /** 15 sub-blocks, blocks, and one more sub-block: as many bytes as fgBlkSz blocks. */
  function WithSubBlks(fgBlkSz: nat): seq<Extent>
    requires 0 < fgBlkSz
  {
    [Sub(0, ALL_BITS - {0}), Full(1, fgBlkSz - 1), Sub(fgBlkSz + 1, {0})]
  }

  lemma {:induction false} PieceSizes(suballoc: bool, blkSz: nat, fgBlkSz: nat, exts: seq<Extent>, piece: nat)
    requires GoodBlkSz(blkSz) && 2 <= blkSz && 1 < fgBlkSz <= 0x10000 && (suballoc ==> 0 < SubSz(blkSz))
    requires piece == if suballoc then SubSz(blkSz) else blkSz
    requires exts == if suballoc then WithSubBlks(fgBlkSz) else [Full(0, fgBlkSz - 1), Full(fgBlkSz, 1)]
    ensures Proper(exts) && Multiple(DataSizes(exts, blkSz), fgBlkSz)
    ensures 2 <= |exts| && DataSize(exts[|exts| - 1], blkSz) == piece
    ensures piece + fgBlkSz - 1 < DataSizes(exts, blkSz) && fgBlkSz - 1 < DataSize(exts[|exts| - 2], blkSz)
  {
    hide Times, DataSizes, Multiple;
    if suballoc {
      SubBlksSizes(blkSz, fgBlkSz);
    } else {
      BlocksSizes(blkSz, fgBlkSz);
    }
    TotalSize(fgBlkSz - 1, blkSz);
  }

  lemma {:induction false} TotalSize(m: nat, blkSz: nat)
    requires 0 < m && 2 <= blkSz
    ensures m < Times(m, blkSz) && Multiple(Times(m, blkSz) + blkSz, m + 1)
  {
    TimesIsProduct(m, blkSz);
    assert 2 * m <= m * blkSz;
    TimesIsProduct(blkSz, m + 1);
    assert Times(m, blkSz) + blkSz == Times(blkSz, m + 1);
  }

  lemma {:induction false} BlocksSizes(blkSz: nat, fgBlkSz: nat)
    requires 1 < fgBlkSz <= 0x10000
    ensures var exts := [Full(0, fgBlkSz - 1), Full(fgBlkSz, 1)];
            && Proper(exts) && DataSizes(exts, blkSz) == Times(fgBlkSz - 1, blkSz) + blkSz
            && DataSize(exts[1], blkSz) == blkSz && DataSize(exts[0], blkSz) == Times(fgBlkSz - 1, blkSz)
  {
    var exts := [Full(0, fgBlkSz - 1), Full(fgBlkSz, 1)];
    OneUnit(0, blkSz);
    assert exts[1..] == [exts[1]] && Times(0 + 1, blkSz) == blkSz;
    assert DataSizes([exts[1]], blkSz) == DataSize(exts[1], blkSz);
  }

  lemma {:induction false} SubBlksSizes(blkSz: nat, fgBlkSz: nat)
    requires GoodBlkSz(blkSz) && 1 < fgBlkSz <= 0x10000 && 0 < SubSz(blkSz)
    ensures var exts := WithSubBlks(fgBlkSz);
            && Proper(exts) && DataSizes(exts, blkSz) == Times(fgBlkSz - 1, blkSz) + blkSz
            && DataSize(exts[2], blkSz) == SubSz(blkSz) <= blkSz
            && DataSize(exts[1], blkSz) == Times(fgBlkSz - 1, blkSz)
  {
    hide GoodBlkSz;
    var exts := WithSubBlks(fgBlkSz);
    BitsBounded(ALL_BITS);
    assert |exts[0].bits| == 15 && |exts[2].bits| == 1 && Times(0 + 1, SubSz(blkSz)) == SubSz(blkSz);
    OneUnit(0, SubSz(blkSz));
    OneUnit(15, SubSz(blkSz));
    SixteenSubBlks(blkSz);
    SumOfThree(exts, blkSz);
  }

  lemma {:induction false} SumOfThree(exts: seq<Extent>, blkSz: nat)
    requires |exts| == 3
    ensures DataSizes(exts, blkSz) == DataSize(exts[0], blkSz) + DataSize(exts[1], blkSz) + DataSize(exts[2], blkSz)
  {
    hide DataSize;
    assert exts[1..] == [exts[1], exts[2]] && [exts[1], exts[2]][1..] == [exts[2]];
    assert DataSizes([exts[2]], blkSz) == DataSize(exts[2], blkSz);
    assert DataSizes([exts[1], exts[2]], blkSz) == DataSize(exts[1], blkSz) + DataSize(exts[2], blkSz);
  }

  lemma {:induction false} JustBeyond(piece: nat, unit: nat, k: nat)
    requires 0 < unit && k == (piece + unit - 1) / unit
    ensures piece <= Times(k, unit) <= piece + unit - 1
  {
    DivModBack(piece + unit - 1, unit);
  }

  lemma {:induction false} CutGoesOn(exts: seq<Extent>, k: nat, piece: nat, blkSz: nat, fgBlkSz: nat)
    requires 0 < fgBlkSz && 2 <= |exts| && DataSize(exts[|exts| - 1], blkSz) == piece
    requires fgBlkSz - 1 < DataSize(exts[|exts| - 2], blkSz) && Multiple(DataSizes(exts, blkSz), fgBlkSz)
    requires 0 < piece <= Times(k, fgBlkSz) <= piece + fgBlkSz - 1 < DataSizes(exts, blkSz)
    ensures StaysWhole(exts, k, false, blkSz, fgBlkSz) ==> Multiple(piece, fgBlkSz)
  {
    hide Multiple;
    var n, front := Times(k, fgBlkSz), exts[..|exts| - 1];
    TrimStep(exts, n, blkSz);
    if n == piece {
      TrimNone(front, blkSz);
    } else {
      TrimStep(front, n - piece, blkSz);
    }
    assert Uncut(exts, n, false, blkSz) == n - piece;
    if StaysWhole(exts, k, false, blkSz, fgBlkSz) {
      var size := DataSizes(exts, blkSz);
      MultipleDifference(size, size - piece, fgBlkSz);
    }
  }

  /** Foreground blocks of 128 bytes on background blocks of 64: a cut of one block leaves half a block behind. */
  lemma {:induction false} HalfABlockLeft()
    ensures !StaysWhole([Full(0, 3), Full(5, 1)], 1, false, 64, 128)
  {
    var exts := [Full(0, 3), Full(5, 1)];
    TimesIsProduct(3, 64);
    TimesIsProduct(1, 64);
    TimesIsProduct(1, 128);
    TimesIsProduct(2, 128);
    assert exts[1..] == [Full(5, 1)] && exts[..1] == [Full(0, 3)];
    assert DataSizes(exts, 64) == Times(2, 128);
    forall k: nat
      ensures Times(k, 128) != 192
    {
      TimesIsProduct(k, 128);
    }
  }
}
