/**
 * What a request for bytes gets, and what is left of a list of extents when bytes are cut off
 * (xoz/alloc/segment_allocator.cpp).
 */
module Requests {
  import opened Extents
  import opened Layout
  import opened Products

  /** What a caller asks for besides the size. */
  datatype Req = Req(fragThreshold: nat, maxInlineSz: nat, allowSuballoc: bool, singleExtent: bool) {
    /** The last piece of a segment is rounded up to this size. */
    function Granule(blkSz: nat): nat {
      if allowSuballoc then SubSz(blkSz) else blkSz
    }

    /** Whatever does not fill the smallest piece may be stored inline: no size is rounded up. */
    predicate Exact(blkSz: nat) {
      Granule(blkSz) <= maxInlineSz + 1
    }

    predicate Bad(blkSz: nat) {
      || (allowSuballoc && SubSz(blkSz) == 0)
      || (singleExtent && (allowSuballoc || fragThreshold != 1 || maxInlineSz != 0))
    }
  }

  /** How many bytes a request for sz bytes gets: what is too much for inline data is rounded up to the granule. */
  function AllocSize(sz: nat, req: Req, blkSz: nat): (n: nat)
    ensures sz <= n && (0 < req.Granule(blkSz) ==> n < sz + req.Granule(blkSz)) && (req.Exact(blkSz) ==> n == sz)
  {
    var g := req.Granule(blkSz);
    if g == 0 || sz % g <= req.maxInlineSz then sz else sz - sz % g + g
  }

  /** How many of them are stored inline. */
  function InlinePart(sz: nat, req: Req, blkSz: nat): (n: nat)
    ensures n <= req.maxInlineSz && n <= AllocSize(sz, req, blkSz)
  {
    var g := req.Granule(blkSz);
    if g == 0 || sz % g > req.maxInlineSz then 0 else sz % g
  }

  /** sz bytes cut into blocks, sub-blocks and inline bytes: at least sz bytes, and less than a granule more. */
  datatype Plan = Plan(blks: nat, subs: nat, inlineSz: nat) {
    function Size(blkSz: nat): nat {
      Times(blks, blkSz) + Times(subs, SubSz(blkSz)) + inlineSz
    }

    ghost predicate Serves(sz: nat, req: Req, blkSz: nat) {
      && Size(blkSz) == AllocSize(sz, req, blkSz) < sz + req.Granule(blkSz)
      && subs < 16 && inlineSz == InlinePart(sz, req, blkSz) && (!req.allowSuballoc ==> subs == 0)
    }
  }

  /** The only plan for sz bytes. */
  function PlanOf(sz: nat, req: Req, blkSz: nat): Plan
    requires 0 < blkSz
  {
    var inlineSz := InlinePart(sz, req, blkSz);
    var rest := AllocSize(sz, req, blkSz) - inlineSz;
    Plan(Wholes(rest, blkSz), if SubSz(blkSz) == 0 then 0 else Wholes(Left(rest, blkSz), SubSz(blkSz)), inlineSz)
  }

  lemma {:induction false} ServesOnce(plan: Plan, sz: nat, req: Req, blkSz: nat)
    requires GoodBlkSz(blkSz) && !req.Bad(blkSz) && plan.Serves(sz, req, blkSz)
    ensures plan == PlanOf(sz, req, blkSz)
  {
    hide Times, AllocSize, InlinePart, SubSz;
    OneUnit(0, SubSz(blkSz));
    if plan.subs == 0 {
      DivMod(plan.blks, 0, blkSz);
      if 0 < SubSz(blkSz) { DivMod(0, 0, SubSz(blkSz)); }
    } else {
      SixteenSubBlks(blkSz);
      LessSubBlks(plan.subs, blkSz);
      DivMod(plan.blks, Times(plan.subs, SubSz(blkSz)), blkSz);
      DivMod(plan.subs, 0, SubSz(blkSz));
    }
  }

  lemma {:induction false} LessSubBlks(n: nat, blkSz: nat)
    requires GoodBlkSz(blkSz) && 0 < SubSz(blkSz) && n < 16
    ensures Times(n, SubSz(blkSz)) < blkSz
  {
    SixteenSubBlks(blkSz);
    LessEqual(n + 1, 16, SubSz(blkSz));
    OneUnit(n, SubSz(blkSz));
  }

  lemma {:induction false} SixteenSubBlks(blkSz: nat)
    requires GoodBlkSz(blkSz) && 0 < SubSz(blkSz)
    ensures Times(16, SubSz(blkSz)) == blkSz
  {
    TimesIsProduct(16, SubSz(blkSz));
  }

  /** How many units fit into x, and what remains. */
  method SplitBy(x: nat, unit: nat) returns (q: nat, r: nat)
    requires 0 < unit
    ensures x == Times(q, unit) + r && r < unit
  {
    q, r := x / unit, x % unit;
    Quotient(x, unit, q, r);
  }

  lemma {:induction false} FewerThanSixteen(r: nat, q: nat, m: nat, blkSz: nat)
    requires GoodBlkSz(blkSz) && 0 < SubSz(blkSz) && r < blkSz && r == Times(q, SubSz(blkSz)) + m
    ensures q < 16
  {
    SixteenSubBlks(blkSz);
    LessCancel(q, 16, SubSz(blkSz));
  }

  /** A remainder that is too large for inline data takes one more sub-block or block. */
  lemma {:induction false} RoundUp(exact: Plan, plan: Plan, sz: nat, req: Req, blkSz: nat)
    requires GoodBlkSz(blkSz) && !req.Bad(blkSz)
    requires exact.Size(blkSz) == sz && exact.inlineSz < req.Granule(blkSz) && exact.subs < 16
        && (!req.allowSuballoc ==> exact.subs == 0)
    requires plan == if exact.inlineSz <= req.maxInlineSz then exact
                     else if req.allowSuballoc && exact.subs < 15 then Plan(exact.blks, exact.subs + 1, 0)
                     else Plan(exact.blks + 1, 0, 0)
    ensures plan.Serves(sz, req, blkSz)
  {
    hide Times, GoodBlkSz, SubSz;
    OneUnit(exact.blks, blkSz);
    OneUnit(exact.subs, SubSz(blkSz));
    if req.allowSuballoc {
      SixteenSubBlks(blkSz);
    }
    InlineIsRemainder(exact, sz, req, blkSz);
  }

  /** What is left for inline data is what no granule holds. */
  lemma {:induction false} InlineIsRemainder(exact: Plan, sz: nat, req: Req, blkSz: nat)
    requires GoodBlkSz(blkSz) && !req.Bad(blkSz)
    requires exact.Size(blkSz) == sz && exact.inlineSz < req.Granule(blkSz) && (!req.allowSuballoc ==> exact.subs == 0)
    ensures sz % req.Granule(blkSz) == exact.inlineSz
  {
    hide GoodBlkSz, SubSz, Times;
    if req.allowSuballoc {
      SixteenSubBlks(blkSz);
      TimesTimes(exact.blks, 16, SubSz(blkSz));
      Distribute(exact.blks * 16, exact.subs, SubSz(blkSz));
      DivMod(exact.blks * 16 + exact.subs, exact.inlineSz, SubSz(blkSz));
    } else {
      OneUnit(0, SubSz(blkSz));
      DivMod(exact.blks, exact.inlineSz, blkSz);
    }
  }

  lemma {:induction false} TimesTimes(n: nat, k: nat, unit: nat)
    ensures Times(n, Times(k, unit)) == Times(n * k, unit)
  {
    TimesIsProduct(n, Times(k, unit));
    TimesIsProduct(k, unit);
    TimesIsProduct(n * k, unit);
    assert n * (k * unit) == n * k * unit;
  }

  lemma {:induction false} OneUnit(n: nat, unit: nat)
    ensures Times(n + 1, unit) == Times(n, unit) + unit && Times(0, unit) == 0
  {
  }

  /** The cascade from blocks over sub-blocks to inline bytes, and back up where a remainder does not fit. */
  method PlanSizes(sz: nat, req: Req, blkSz: nat) returns (plan: Plan)
    requires GoodBlkSz(blkSz) && !req.Bad(blkSz)
    ensures plan.Serves(sz, req, blkSz) && plan == PlanOf(sz, req, blkSz)
  {
    hide Times, Plan.Serves, PlanOf;
    var blks, remain := SplitBy(sz, blkSz);
    OneUnit(0, SubSz(blkSz));
    var subs: nat := 0;
    if req.allowSuballoc {
      ghost var r := remain;
      subs, remain := SplitBy(remain, SubSz(blkSz));
      FewerThanSixteen(r, subs, remain, blkSz);
    }
    var inlineSz := remain;
    ghost var exact := Plan(blks, subs, inlineSz);
    if inlineSz > req.maxInlineSz {
      if req.allowSuballoc {
        subs := subs + 1;
      } else {
        blks := blks + 1;
      }
      inlineSz := 0;
    }
    if subs == 16 {
      blks := blks + 1;
      subs := 0;
    }
    plan := Plan(blks, subs, inlineSz);
    RoundUp(exact, plan, sz, req, blkSz);
    ServesOnce(plan, sz, req, blkSz);
  }

  /** Fewer bytes than cnt blocks have need no more than cnt blocks, one of which may have to be cut into sub-blocks. */
  lemma {:induction false} PlanFits(sz: nat, cnt: nat, req: Req, blkSz: nat)
    requires GoodBlkSz(blkSz) && !req.Bad(blkSz) && sz < Times(cnt, blkSz)
    ensures var plan := PlanOf(sz, req, blkSz);
            && plan.blks + (if plan.subs == 0 then 0 else 1) <= cnt && (!req.allowSuballoc ==> plan.subs == 0)
  {
    hide Times, PlanOf;
    var blks, r := sz / blkSz, sz % blkSz;
    DivModBack(sz, blkSz);
    LessCancel(blks, cnt, blkSz);
    OneUnit(0, SubSz(blkSz));
    var subs, rest := 0, r;
    if req.allowSuballoc {
      subs, rest := Wholes(r, SubSz(blkSz)), Left(r, SubSz(blkSz));
      DivModBack(r, SubSz(blkSz));
      FewerThanSixteen(r, subs, rest, blkSz);
    }
    var exact := Plan(blks, subs, rest);
    var plan := if rest <= req.maxInlineSz then exact
                else if req.allowSuballoc && subs < 15 then Plan(blks, subs + 1, 0)
                else Plan(blks + 1, 0, 0);
    RoundUp(exact, plan, sz, req, blkSz);
    ServesOnce(plan, sz, req, blkSz);
  }

  /** A single extent of blocks is limited by its 16-bit count. */
  lemma {:induction false} BlksForOne(sz: nat, plan: Plan, req: Req, blkSz: nat)
    requires GoodBlkSz(blkSz) && plan.Serves(sz, req, blkSz) && req.singleExtent && !req.Bad(blkSz)
    ensures plan.subs == 0 && plan.inlineSz == 0 && (0 < sz ==> 0 < plan.blks)
    ensures plan.blks > MAX_BLK_CNT <==> Times(MAX_BLK_CNT, blkSz) < sz
  {
    Distribute(MAX_BLK_CNT, 1, blkSz);
    LessEqual(MAX_BLK_CNT + 1, plan.blks, blkSz);
    LessEqual(plan.blks, MAX_BLK_CNT, blkSz);
    assert Times(1, blkSz) == blkSz by { TimesIsProduct(1, blkSz); }
  }

  // ---------------------------------------------------------------------------------------------
  // Sizes after a resize
  // ---------------------------------------------------------------------------------------------

  /** n bytes are cut off from the end, as far as whole extents go: those that stay, and the bytes still to be cut. */
  function Trim(exts: seq<Extent>, n: nat, blkSz: nat): (r: (seq<Extent>, nat))
    ensures r.0 <= exts && r.1 <= n
  {
    if n == 0 || exts == [] then (exts, n)
    else
      var lastSz := DataSize(exts[|exts| - 1], blkSz);
      if lastSz <= n then Trim(exts[..|exts| - 1], n - lastSz, blkSz) else (exts, n)
  }

  /** The extents that stay in place when a segment grows: a last one of sub-blocks does not. */
  function Staying(exts: seq<Extent>): (front: seq<Extent>)
    ensures front <= exts
  {
    if exts != [] && exts[|exts| - 1].Sub? then exts[..|exts| - 1] else exts
  }

  /** The size of a segment after a resize to more bytes. */
  function GrownSize(exts: seq<Extent>, sz: nat, req: Req, blkSz: nat): (n: nat)
    ensures sz <= n
  {
    var kept := DataSizes(Staying(exts), blkSz);
    if sz <= kept then sz else kept + AllocSize(sz - kept, req, blkSz)
  }

  /** The size of a segment whose last extent goes to a request for all but n of its bytes. */
  function PartSize(exts: seq<Extent>, n: nat, req: Req, blkSz: nat): nat
    requires exts != []
  {
    var k := |exts| - 1;
    var lastSz := DataSize(exts[k], blkSz);
    DataSizes(exts[..k], blkSz) + AllocSize(if n <= lastSz then lastSz - n else 0, req, blkSz)
  }

  /**
   * The size of a segment without inline bytes after n bytes were cut off: part of an extent moves to a request of its
   * own.
   */
  function CutSize(exts: seq<Extent>, n: nat, req: Req, blkSz: nat): nat {
    var (front, rest) := Trim(exts, n, blkSz);
    if rest == 0 || front == [] then DataSizes(front, blkSz) else PartSize(front, rest, req, blkSz)
  }

  /** The size of a segment of these extents and inline bytes after a resize to sz bytes. */
  function SizeAfter(exts: seq<Extent>, inlineSz: nat, sz: nat, req: Req, blkSz: nat): nat {
    var cur := DataSizes(exts, blkSz);
    if cur + inlineSz < sz then GrownSize(exts, sz, req, blkSz)
    else if cur <= sz then sz
    else CutSize(exts, cur - sz, req, blkSz)
  }

  /** The extents of these that such a resize keeps; they are all that is left if the request fails that it makes. */
  function LeftAfter(exts: seq<Extent>, inlineSz: nat, sz: nat, blkSz: nat): (left: seq<Extent>)
    ensures left <= exts
  {
    var cur := DataSizes(exts, blkSz);
    if cur + inlineSz < sz then Staying(exts)
    else if cur <= sz then exts
    else
      var (front, rest) := Trim(exts, cur - sz, blkSz);
      if rest == 0 || front == [] then front else front[..|front| - 1]
  }

  /** Such a resize is to no more bytes, and if it cuts an extent in two that is one of blocks. */
  predicate CutsBlocks(exts: seq<Extent>, inlineSz: nat, sz: nat, blkSz: nat) {
    var cur := DataSizes(exts, blkSz);
    && sz <= cur + inlineSz
    && (sz < cur ==>
          var (front, rest) := Trim(exts, cur - sz, blkSz);
          rest == 0 || front == [] || front[|front| - 1].Full?)
  }

  /** How many bytes such a resize requests; 0 if it makes no request. */
  function Requested(exts: seq<Extent>, inlineSz: nat, sz: nat, blkSz: nat): nat {
    var cur := DataSizes(exts, blkSz);
    if cur + inlineSz < sz then
      var kept := DataSizes(Staying(exts), blkSz);
      if kept <= sz then sz - kept else 0
    else if cur <= sz then 0
    else
      var (front, rest) := Trim(exts, cur - sz, blkSz);
      if rest == 0 || front == [] then 0
      else
        var lastSz := DataSize(front[|front| - 1], blkSz);
        if rest <= lastSz then lastSz - rest else 0
  }

  lemma {:induction false} RequestedBound(exts: seq<Extent>, inlineSz: nat, sz: nat, blkSz: nat)
    ensures Requested(exts, inlineSz, sz, blkSz) <= sz
  {
    var cur := DataSizes(exts, blkSz);
    if sz < cur {
      TrimSizes(exts, cur - sz, blkSz);
      var (front, rest) := Trim(exts, cur - sz, blkSz);
      if front != [] { FrontSize(front, blkSz); }
    }
  }

  lemma {:induction false} TrimNone(exts: seq<Extent>, blkSz: nat)
    ensures Trim(exts, 0, blkSz) == (exts, 0)
  {
  }

  lemma {:induction false} TrimStep(exts: seq<Extent>, n: nat, blkSz: nat)
    requires 0 < n && exts != []
    ensures var lastSz := DataSize(exts[|exts| - 1], blkSz);
            Trim(exts, n, blkSz) == if lastSz <= n then Trim(exts[..|exts| - 1], n - lastSz, blkSz) else (exts, n)
  {
  }

  lemma {:induction false} FrontSize(exts: seq<Extent>, blkSz: nat)
    requires exts != []
    ensures DataSizes(exts, blkSz) == DataSizes(exts[..|exts| - 1], blkSz) + DataSize(exts[|exts| - 1], blkSz)
  {
    var k := |exts| - 1;
    assert exts == exts[..k] + [exts[k]];
    SegPosAppend(exts[..k], [exts[k]], blkSz);
  }

  /** What stays is a front of the extents; the bytes that went and those still to be cut are those that were to go. */
  lemma {:induction false} TrimSizes(exts: seq<Extent>, n: nat, blkSz: nat)
    requires n <= DataSizes(exts, blkSz)
    ensures var (front, rest) := Trim(exts, n, blkSz);
            && DataSizes(front, blkSz) - rest == DataSizes(exts, blkSz) - n
            && (0 < rest ==> front != [] && rest < DataSize(front[|front| - 1], blkSz))
  {
    if n != 0 && exts != [] {
      FrontSize(exts, blkSz);
      var lastSz := DataSize(exts[|exts| - 1], blkSz);
      if lastSz <= n {
        TrimSizes(exts[..|exts| - 1], n - lastSz, blkSz);
      }
    }
  }

  /** A resized segment has the bytes asked for, and less than one granule more if a request was made for it. */
  lemma {:induction false} SizeAfterRange(exts: seq<Extent>, inlineSz: nat, sz: nat, req: Req, blkSz: nat)
    ensures var n := SizeAfter(exts, inlineSz, sz, req, blkSz);
            && sz <= n && (0 < req.Granule(blkSz) ==> n < sz + req.Granule(blkSz)) && (req.Exact(blkSz) ==> n == sz)
  {
    hide AllocSize;
    var cur := DataSizes(exts, blkSz);
    if cur + inlineSz < sz {
      StayingSize(exts, blkSz);
    } else if sz < cur {
      TrimSizes(exts, cur - sz, blkSz);
      var (front, rest) := Trim(exts, cur - sz, blkSz);
      if rest != 0 { FrontSize(front, blkSz); }
    }
  }

  lemma {:induction false} ResizeByCut(exts: seq<Extent>, sz: nat, req: Req, blkSz: nat)
    requires sz <= DataSizes(exts, blkSz)
    ensures var (front, rest) := Trim(exts, DataSizes(exts, blkSz) - sz, blkSz);
            && SizeAfter(exts, 0, sz, req, blkSz)
               == (if rest == 0 || front == [] then DataSizes(front, blkSz) else PartSize(front, rest, req, blkSz))
            && LeftAfter(exts, 0, sz, blkSz) == (if rest == 0 || front == [] then front else front[..|front| - 1])
            && Requested(exts, 0, sz, blkSz)
               == (if rest == 0 || front == [] || DataSize(front[|front| - 1], blkSz) < rest then 0
                   else DataSize(front[|front| - 1], blkSz) - rest)
            && (CutsBlocks(exts, 0, sz, blkSz) <==> rest == 0 || front == [] || front[|front| - 1].Full?)
  {
  }

  /** The extents that a resize keeps, and what it requests, by the way it takes. */
  lemma {:induction false} ResizeCases(exts: seq<Extent>, inlineSz: nat, sz: nat, blkSz: nat)
    ensures var cur, left := DataSizes(exts, blkSz), LeftAfter(exts, inlineSz, sz, blkSz);
            if cur + inlineSz < sz then
              && left == Staying(exts)
              && Requested(exts, inlineSz, sz, blkSz) + DataSizes(Staying(exts), blkSz) == sz
              && 0 < Requested(exts, inlineSz, sz, blkSz) && !CutsBlocks(exts, inlineSz, sz, blkSz)
            else if cur <= sz then left == exts && Requested(exts, inlineSz, sz, blkSz) == 0
            else
              && left == LeftAfter(exts, 0, sz, blkSz)
              && Requested(exts, inlineSz, sz, blkSz) == Requested(exts, 0, sz, blkSz)
              && (CutsBlocks(exts, inlineSz, sz, blkSz) <==> CutsBlocks(exts, 0, sz, blkSz))
  {
    StayingSize(exts, blkSz);
  }

  lemma {:induction false} StayingSize(exts: seq<Extent>, blkSz: nat)
    ensures DataSizes(Staying(exts), blkSz) <= DataSizes(exts, blkSz)
  {
    if exts != [] { FrontSize(exts, blkSz); }
  }
}
