/** An array of blocks on a growable buffer, and the allocator at its tail (xoz/blk/block_array.cpp,
    xoz/blk/vector_block_array.cpp, xoz/alloc/tail_allocator.cpp). */
module BlockArrays {
  import opened Outcomes
  import opened Extents
  import opened Layout
  import opened Products

  const BLK_NR_EXHAUST := MAX_BLK_NR - 32

  const MAX_U32 := 0xffff_ffff

  /** The size of a segment, up to 63 inline bytes included, fits 32 bits. */
  const MAX_BYTES := MAX_U32 - 63

  /** The blocks a growth of cnt adds to the buffer: a quarter more, at least one, if the array over-allocates. */
  function WithSlack(cnt: nat, overAllocate: bool): nat {
    if !overAllocate then cnt else cnt + (if cnt / 4 > 1 then cnt / 4 else 1)
  }

  /**
   * In 16 bits the sum wraps around from 52429 blocks on, and just then the growth would be by fewer blocks than asked
   * for.
   */
  lemma {:induction false} SlackWraps(cnt: nat)
    requires 0 < cnt <= MAX_BLK_CNT
    ensures WithSlack(cnt, true) % 0x1_0000 < cnt <==> 52429 <= cnt
    ensures WithSlack(cnt, true) % 0x1_0000 == WithSlack(cnt, true) <==> cnt < 52429
  {
  }

  /** How far the buffer may come while the accessible blocks grow to `end`: what is missing is at most doubled. */
  function Peak(pastEnd: nat, overAllocate: bool, end: nat): nat {
    if overAllocate && pastEnd < end then end + (end - pastEnd) else end
  }

  predicate Reaches(pastEnd: nat, realEnd: nat, overAllocate: bool, blkSz: nat, end: nat) {
    var cnt := if pastEnd < end then end - pastEnd else 0;
    var peak := Peak(pastEnd, overAllocate, end);
    || end <= realEnd
    || (end < BLK_NR_EXHAUST && peak <= MAX_BLK_NR + 1 && Times(peak, blkSz) <= MAX_BYTES
        && WithSlack(Min(cnt, MAX_BLK_CNT), overAllocate) <= MAX_BLK_CNT)
  }

  /** Growing does not make another growth impossible. */
  lemma {:induction false} StillReaches(pastEnd: nat, realEnd: nat, pastEnd2: nat, realEnd2: nat, overAllocate: bool,
      blkSz: nat, end: nat)
    requires pastEnd <= pastEnd2 && realEnd <= realEnd2 && Reaches(pastEnd, realEnd, overAllocate, blkSz, end)
    ensures Reaches(pastEnd2, realEnd2, overAllocate, blkSz, end)
  {
    if realEnd2 < end { LessEqual(Peak(pastEnd2, overAllocate, end), Peak(pastEnd, overAllocate, end), blkSz); }
  }

  /** Whatever a buffer is longer by is zero. */
  ghost predicate AddsZeros(buf0: seq<Byte>, buf: seq<Byte>) {
    forall x :: |buf0| <= x < |buf| ==> buf[x] == 0
  }

  class BlockArray {
    const blkSz: nat
    const begin: nat
    const overAllocate: bool

    var pastEnd: nat
    var realEnd: nat
    var buf: seq<Byte>

    ghost predicate Valid()
      reads this
    {
      && GoodBlkSz(blkSz)
      && begin <= pastEnd <= realEnd <= MAX_BLK_NR + 1
      && |buf| == Times(realEnd, blkSz) <= MAX_BYTES
    }

    constructor (blkSz: nat, begin: nat, bytes: seq<Byte>, overAllocate: bool)
      requires GoodBlkSz(blkSz) && |bytes| % blkSz == 0 && Times(begin, blkSz) <= |bytes| <= MAX_BYTES
      requires |bytes| / blkSz <= MAX_BLK_NR + 1
      ensures Valid() && this.blkSz == blkSz && this.begin == begin && this.overAllocate == overAllocate
      ensures pastEnd == realEnd == |bytes| / blkSz && buf == bytes
    {
      this.blkSz, this.begin, this.overAllocate := blkSz, begin, overAllocate;
      pastEnd, realEnd, buf := |bytes| / blkSz, |bytes| / blkSz, bytes;
      WholeBlocks(begin, |bytes|, blkSz);
    }

    function BlkCnt(): nat
      requires begin <= pastEnd
      reads this
    {
      pastEnd - begin
    }

    function RealGrowth(cnt: nat): nat {
      WithSlack(cnt, overAllocate)
    }

    /** Whether the buffer can get cnt blocks more: they are numbered in 26 bits, counted in 16, and addressed in 32. */
    predicate CanExpand(cnt: nat)
      reads this
    {
      && realEnd + cnt < BLK_NR_EXHAUST && RealGrowth(cnt) <= MAX_BLK_CNT && realEnd + RealGrowth(cnt) <= MAX_BLK_NR + 1
      && |buf| + Times(RealGrowth(cnt), blkSz) <= MAX_BYTES
    }

    /** Whether cnt blocks more can be made accessible. */
    predicate CanGrow(cnt: nat)
      reads this
    {
      pastEnd + cnt <= realEnd || CanExpand(pastEnd + cnt - realEnd)
    }

    /** An array that can grow can also grow by less. */
    lemma {:induction false} CanGrowLess(cnt: nat, more: nat)
      requires cnt <= more && CanGrow(more)
      ensures CanGrow(cnt)
    {
      if realEnd < pastEnd + cnt {
        LessEqual(RealGrowth(pastEnd + cnt - realEnd), RealGrowth(pastEnd + more - realEnd), blkSz);
      }
    }

    /** Whether all growths up to block `end` succeed, in however many steps. */
    predicate CanReach(end: nat)
      reads this`pastEnd, this`realEnd
    {
      Reaches(pastEnd, realEnd, overAllocate, blkSz, end)
    }

    lemma {:induction false} CanReachLess(end: nat, more: nat)
      requires end <= more
      ensures CanReach(more) ==> CanReach(end)
    {
      LessEqual(Peak(pastEnd, overAllocate, end), Peak(pastEnd, overAllocate, more), blkSz);
    }

    /** An array that can reach a block can grow up to it at any time. */
    lemma {:induction false} CanReachGrows(cnt: nat, end: nat)
      requires Valid() && cnt <= MAX_BLK_CNT && pastEnd + cnt <= end && CanReach(end)
      ensures CanGrow(cnt)
    {
      if realEnd < pastEnd + cnt {
        var want := pastEnd + cnt - realEnd;
        LessEqual(realEnd + RealGrowth(want), Peak(pastEnd, overAllocate, end), blkSz);
        Distribute(realEnd, RealGrowth(want), blkSz);
      }
    }

    /** Without over-allocation the condition is exact. */
    lemma {:induction false} ReachIsGrowth(cnt: nat)
      requires Valid() && !overAllocate && cnt <= MAX_BLK_CNT
      ensures CanReach(pastEnd + cnt) <==> CanGrow(cnt)
    {
      if CanReach(pastEnd + cnt) {
        CanReachGrows(cnt, pastEnd + cnt);
      } else {
        Distribute(realEnd, pastEnd + cnt - realEnd, blkSz);
      }
    }

    /** Appends cnt blocks or more to the buffer. */
    method ImplGrow(cnt: nat) returns (r: Outcome<nat>)
      requires Valid() && 0 < cnt <= MAX_BLK_CNT && realEnd + cnt < BLK_NR_EXHAUST
      modifies this`buf
      ensures r.Ok? ==> r.value == RealGrowth(cnt) && |buf| == |old(buf)| + Times(r.value, blkSz) <= MAX_BYTES
                        && realEnd + r.value <= MAX_BLK_NR + 1
                        && buf[..|old(buf)|] == old(buf) && AddsZeros(old(buf), buf)
      ensures r.Throws? ==> buf == old(buf) && r.error == BlockNumbersExhausted
      ensures r.Ok? <==> old(CanExpand(cnt))
    {
      var added := RealGrowth(cnt);
      if added > MAX_BLK_CNT || realEnd + added > MAX_BLK_NR + 1 || |buf| + Times(added, blkSz) > MAX_BYTES {
        return Throws(BlockNumbersExhausted);
      }
      buf := buf + seq(Times(added, blkSz), _ => 0);
      r := Ok(added);
    }

    /** Makes cnt more blocks accessible, from the slack if there are enough, and returns the first of them. */
    method GrowByBlocks(cnt: nat) returns (r: Outcome<nat>)
      requires Valid() && cnt <= MAX_BLK_CNT
      modifies this
      ensures Valid()
      ensures r.Ok? <==> 0 < cnt && old(CanGrow(cnt))
      ensures r.Throws? ==> unchanged(this) && r.error == if cnt == 0 then ZeroBlocks else BlockNumbersExhausted
      ensures 0 < cnt <= old(realEnd - pastEnd) ==> buf == old(buf) && realEnd == old(realEnd)
      ensures old(realEnd) <= realEnd
      ensures r.Ok? ==> r.value == old(pastEnd) && pastEnd == old(pastEnd) + cnt && AddsZeros(old(buf), buf)
      ensures r.Ok? && old(realEnd - pastEnd) < cnt ==>
                realEnd == old(realEnd) + RealGrowth(cnt - old(realEnd - pastEnd))
      ensures old(buf) <= buf
    {
      if cnt == 0 { return Throws(ZeroBlocks); }
      if realEnd - pastEnd >= cnt {
        r := Ok(pastEnd);
        pastEnd := pastEnd + cnt;
        return;
      }
      var req := cnt - (realEnd - pastEnd);
      if realEnd + req >= BLK_NR_EXHAUST { return Throws(BlockNumbersExhausted); }
      var grown := ImplGrow(req);
      if grown.Throws? { return Throws(grown.error); }
      Distribute(realEnd, grown.value, blkSz);
      r := Ok(pastEnd);
      realEnd := realEnd + grown.value;
      pastEnd := pastEnd + cnt;
    }

    /** Makes the last cnt blocks inaccessible; the buffer loses as many from its end. */
    method ShrinkByBlocks(cnt: nat) returns (r: Outcome<()>)
      requires Valid()
      modifies this
      ensures Valid()
      ensures r.Ok? <==> 0 < cnt <= old(BlkCnt())
      ensures r.Throws? ==> unchanged(this)
      ensures r.Ok? ==> pastEnd == old(pastEnd) - cnt && realEnd == old(realEnd) - cnt && buf <= old(buf)
    {
      if cnt == 0 || cnt > BlkCnt() { return Throws(BadRequest); }
      Distribute(realEnd - cnt, cnt, blkSz);
      buf := buf[..Times(realEnd - cnt, blkSz)];
      pastEnd := pastEnd - cnt;
      realEnd := realEnd - cnt;
      r := Ok(());
    }

    /** Drops the slack. */
    method ReleaseBlocks() returns (cnt: nat)
      requires Valid()
      modifies this
      ensures Valid() && pastEnd == realEnd == old(pastEnd) && cnt == old(realEnd) - realEnd && buf <= old(buf)
    {
      cnt := realEnd - pastEnd;
      LessEqual(pastEnd, realEnd, blkSz);
      buf := buf[..Times(pastEnd, blkSz)];
      realEnd := pastEnd;
    }

    predicate WithinBoundaries(ext: Extent)
      reads this
    {
      begin <= ext.nr < pastEnd && ext.PastEnd() <= pastEnd
    }

    lemma {:induction false} ExtentInBuffer(ext: Extent)
      requires Valid() && WithinBoundaries(ext)
      ensures Layout.Within(ExtPos(ext, blkSz), |buf|) && |ExtPos(ext, blkSz)| == DataSize(ext, blkSz)
    {
      ExtPosSize(ext, blkSz);
      LessEqual(ext.PastEnd(), realEnd, blkSz);
      var p := ExtPos(ext, blkSz);
      forall k | 0 <= k < |p|
        ensures p[k] < |buf|
      {
        ExtPosBound(ext, blkSz, p[k]);
      }
    }

    lemma {:induction false} StartWalk(ext: Extent, w: Walk)
      requires Valid() && WithinBoundaries(ext) && ext.Sub?
      requires w == Walk(Times(ext.nr, blkSz), SubSz(blkSz), ext.bits, 0, 0)
      ensures var pos := ExtPos(ext, blkSz);
              w.Valid(pos) && Distinct(pos) && Layout.Within(pos, |buf|) && |pos| == DataSize(ext, blkSz)
    {
      ExtentInBuffer(ext);
      ExtPosIncreasing(ext, blkSz);
    }

    method ImplRead(nr: nat, offset: nat, sz: nat) returns (data: seq<Byte>)
      requires Valid() && Times(nr, blkSz) + offset + sz <= |buf|
      ensures data == buf[Times(nr, blkSz) + offset..Times(nr, blkSz) + offset + sz]
    {
      data := buf[Times(nr, blkSz) + offset..Times(nr, blkSz) + offset + sz];
    }

    method ImplWrite(nr: nat, offset: nat, data: seq<Byte>)
      requires Valid() && Times(nr, blkSz) + offset + |data| <= |buf|
      modifies this`buf
      ensures Valid() && Patched(old(buf), buf, Run(Times(nr, blkSz) + offset, |data|), data)
    {
      var at := Times(nr, blkSz) + offset;
      PatchRun(buf, at, data);
      buf := buf[..at] + data + buf[at + |data|..];
    }

    /** How many of the maxSz bytes from start on the extent has; throws if the extent is out of bounds. */
    method ChkExtentForRw(ext: Extent, maxSz: nat, start: nat) returns (r: Outcome<nat>)
      requires Valid()
      ensures r == if !WithinBoundaries(ext) then Throws(ExtentOutOfBounds)
                   else Ok(Avail(DataSize(ext, blkSz), maxSz, start))
    {
      if !WithinBoundaries(ext) { return Throws(ExtentOutOfBounds); }
      var usable := DataSize(ext, blkSz);
      if usable <= start { return Ok(0); }
      r := Ok(if usable - start < maxSz then usable - start else maxSz);
    }

    /** Reads up to maxSz bytes of the extent from start on; throws if the extent is out of bounds. */
    method ReadExtent(ext: Extent, maxSz: nat, start: nat) returns (r: Outcome<seq<Byte>>)
      requires Valid()
      ensures r.Throws? <==> !WithinBoundaries(ext)
      ensures r.Ok? ==> |r.value| == Avail(DataSize(ext, blkSz), maxSz, start)
      ensures r.Ok? && r.value != [] ==> IsRead(buf, ExtPos(ext, blkSz), start, r.value)
    {
      var sz := ChkExtentForRw(ext, maxSz, start);
      if sz.Throws? { return Throws(sz.error); }
      if sz.value == 0 { return Ok([]); }
      var data;
      if ext.Sub? {
        data := ReadSuballocated(ext, sz.value, start);
      } else {
        data := ReadFullyAllocated(ext, sz.value, start);
      }
      r := Ok(data);
    }

    method ReadFullyAllocated(ext: Extent, sz: nat, start: nat) returns (data: seq<Byte>)
      requires Valid() && WithinBoundaries(ext) && ext.Full? && start + sz <= DataSize(ext, blkSz) && 0 < sz
      ensures |data| == sz && IsRead(buf, ExtPos(ext, blkSz), start, data)
    {
      ExtentInBuffer(ext);
      PieceOfRun(ExtPos(ext, blkSz), 0, Times(ext.nr, blkSz), Times(ext.cnt, blkSz), start, sz, |buf|);
      data := ImplRead(ext.nr, start, sz);
    }

    /** Walks the bitmap from its most significant bit on, skips `start` bytes and reads sz. */
    method ReadSuballocated(ext: Extent, sz: nat, start: nat) returns (data: seq<Byte>)
      requires Valid() && WithinBoundaries(ext) && ext.Sub? && start + sz <= DataSize(ext, blkSz) && 0 < sz
      ensures |data| == sz && IsRead(buf, ExtPos(ext, blkSz), start, data)
    {
      hide *;
      var subSz := SubSz(blkSz);
      ghost var pos := ExtPos(ext, blkSz);
      data := [];
      var skip: nat, remain: nat, blkOffset: nat, i: nat := start, sz, 0, 0;
      ghost var w := Walk(Times(ext.nr, blkSz), subSz, ext.bits, 0, 0);
      StartWalk(ext, w);
      StartRead(buf, pos, start);
      while i < 16 && 0 < remain
        invariant w.i == i <= 16 && |data| + remain == sz
        invariant w.at == Times(ext.nr, blkSz) + blkOffset && w.subSz == subSz && w.bits == ext.bits && w.Valid(pos)
        invariant 0 < remain ==> w.off + skip == start + |data|
        invariant IsRead(buf, pos, start, data)
        invariant data != [] ==> skip == 0
        invariant i == 16 ==> w.off == |pos|
      {
        WalkStep(w, pos);
        if 15 - i in ext.bits {
          if skip >= subSz {
            skip := skip - subSz;
          } else {
            var n := if subSz - skip < remain then subSz - skip else remain;
            data := ReadPiece(ext.nr, blkOffset, skip, n, data, w, pos, start);
            remain := remain - n;
            skip := 0;
          }
        }
        blkOffset := blkOffset + subSz;
        i := i + 1;
        w := w.Next();
      }
      assert skip == 0;
    }

    /** Reads n bytes of the sub-block the walk has come to and appends them. */
    method ReadPiece(nr: nat, blkOffset: nat, skip: nat, n: nat, data: seq<Byte>, ghost w: Walk, ghost pos: seq<nat>,
        ghost start: nat)
      returns (more: seq<Byte>)
      requires Valid() && w.at == Times(nr, blkSz) + blkOffset && 0 < n && skip + n <= w.subSz
      requires Layout.Within(pos, |buf|) && w.Selected(pos) && w.off + skip == start + |data|
          && IsRead(buf, pos, start, data)
      ensures |more| == |data| + n && IsRead(buf, pos, start, more)
    {
      var a := Times(nr, blkSz) + blkOffset;
      PieceOfRun(pos, w.off, a, w.subSz, skip, n, |buf|);
      var piece := ImplRead(nr, blkOffset + skip, n);
      ReadMore(buf, pos, start, data, a + skip, piece);
      more := data + piece;
    }

    method WriteExtent(ext: Extent, data: seq<Byte>, maxSz: nat, start: nat) returns (r: Outcome<nat>)
      requires Valid()
      modifies this`buf
      ensures Valid()
      ensures r.Throws? <==> !WithinBoundaries(ext)
      ensures r.Throws? ==> buf == old(buf)
      ensures r.Ok? ==> var n := Avail(DataSize(ext, blkSz), Min(|data|, maxSz), start);
                        |buf| == |old(buf)| && r.value == n && IsWritten(old(buf), buf, ExtPos(ext, blkSz), start,
                            data[..n])
    {
      var sz := ChkExtentForRw(ext, Min(|data|, maxSz), start);
      if sz.Throws? { return Throws(sz.error); }
      r := sz;
      if sz.value == 0 { return; }
      var some := data[..sz.value];
      if ext.Sub? {
        WriteSuballocated(ext, some, start);
        assert some[..|some|] == some;
      } else {
        WriteFullyAllocated(ext, some, start);
      }
    }

    method WriteFullyAllocated(ext: Extent, data: seq<Byte>, start: nat)
      requires Valid() && WithinBoundaries(ext) && ext.Full? && start + |data| <= DataSize(ext, blkSz) && data != []
      modifies this`buf
      ensures Valid() && |buf| == |old(buf)| && IsWritten(old(buf), buf, ExtPos(ext, blkSz), start, data)
    {
      ExtentInBuffer(ext);
      PieceOfRun(ExtPos(ext, blkSz), 0, Times(ext.nr, blkSz), Times(ext.cnt, blkSz), start, |data|, |buf|);
      ImplWrite(ext.nr, start, data);
    }

    method WriteSuballocated(ext: Extent, data: seq<Byte>, start: nat)
      requires Valid() && WithinBoundaries(ext) && ext.Sub? && start + |data| <= DataSize(ext, blkSz) && 0 < |data|
      modifies this`buf
      ensures Valid() && WrittenUpto(old(buf), buf, ExtPos(ext, blkSz), start, data, |data|)
    {
      hide *;
      var subSz := SubSz(blkSz);
      ghost var pos := ExtPos(ext, blkSz);
      var skip: nat, remain: nat, doffset: nat, blkOffset: nat, i: nat := start, |data|, 0, 0, 0;
      ghost var w := Walk(Times(ext.nr, blkSz), subSz, ext.bits, 0, 0);
      StartWalk(ext, w);
      StartWrite(buf, pos, start, data);
      while i < 16 && 0 < remain
        invariant w.i == i <= 16 && doffset + remain == |data| && Valid() && |buf| == |old(buf)|
        invariant w.at == Times(ext.nr, blkSz) + blkOffset && w.subSz == subSz && w.bits == ext.bits && w.Valid(pos)
        invariant 0 < remain ==> w.off + skip == start + doffset
        invariant WrittenUpto(old(buf), buf, pos, start, data, doffset)
        invariant 0 < doffset ==> skip == 0
        invariant i == 16 ==> w.off == |pos|
      {
        WalkStep(w, pos);
        if 15 - i in ext.bits {
          if skip >= subSz {
            skip := skip - subSz;
          } else {
            var n := if subSz - skip < remain then subSz - skip else remain;
            WritePiece(ext.nr, blkOffset, skip, n, data, doffset, w, pos, start, old(buf));
            remain := remain - n;
            doffset := doffset + n;
            skip := 0;
          }
        }
        blkOffset := blkOffset + subSz;
        i := i + 1;
        w := w.Next();
      }
      assert skip == 0 && doffset == |data|;
    }

    /** Writes data[done..done + n] to the sub-block the walk has come to. */
    method WritePiece(nr: nat, blkOffset: nat, skip: nat, n: nat, data: seq<Byte>, done: nat,
                      ghost w: Walk, ghost pos: seq<nat>, ghost start: nat, ghost buf0: seq<Byte>)
      requires Valid() && w.at == Times(nr, blkSz) + blkOffset && 0 < n && skip + n <= w.subSz && done + n <= |data|
      requires Layout.Within(pos, |buf|) && Distinct(pos) && w.Selected(pos) && w.off + skip == start + done
      requires WrittenUpto(buf0, buf, pos, start, data, done)
      modifies this`buf
      ensures Valid() && |buf| == |old(buf)| && WrittenUpto(buf0, buf, pos, start, data, done + n)
    {
      hide Run, Distinct, IsWritten, Times, GoodBlkSz;
      var piece := data[done..done + n];
      PieceOfRun(pos, w.off, Times(nr, blkSz) + blkOffset, w.subSz, skip, n, |buf|);
      WritePieceAt(nr, blkOffset + skip, piece, pos, start, buf0, data[..done]);
      assert data[..done] + piece == data[..done + n];
    }

    method WritePieceAt(nr: nat, offset: nat, piece: seq<Byte>, ghost pos: seq<nat>, ghost start: nat,
        ghost buf0: seq<Byte>, ghost sofar: seq<Byte>)
      requires Valid() && Distinct(pos) && Times(nr, blkSz) + offset + |piece| <= |buf|
      requires start + |sofar| + |piece| <= |pos|
      requires pos[start + |sofar|..start + |sofar| + |piece|] == Run(Times(nr, blkSz) + offset, |piece|)
      requires IsWritten(buf0, buf, pos, start, sofar)
      modifies this`buf
      ensures Valid() && |buf| == |old(buf)| && IsWritten(buf0, buf, pos, start, sofar + piece)
    {
      ImplWrite(nr, offset, piece);
      WrittenMore(buf0, old(buf), buf, pos, start, sofar, Times(nr, blkSz) + offset, piece);
    }
  }

  lemma {:induction false} WholeBlocks(begin: nat, sz: nat, blkSz: nat)
    requires 0 < blkSz && sz % blkSz == 0 && Times(begin, blkSz) <= sz
    ensures Times(sz / blkSz, blkSz) == sz && begin <= sz / blkSz
  {
    DivModBack(sz, blkSz);
    if sz / blkSz < begin {
      LessEqual(sz / blkSz + 1, begin, blkSz);
    }
  }

  function Min(a: nat, b: nat): nat {
    if a < b then a else b
  }

  function Avail(usable: nat, maxSz: nat, start: nat): nat {
    if usable <= start then 0 else if usable - start < maxSz then usable - start else maxSz
  }

  /** data are the bytes of buf at the positions pos[start], pos[start + 1], ... */
  ghost predicate IsRead(buf: seq<Byte>, pos: seq<nat>, start: nat, data: seq<Byte>) {
    Layout.Within(pos, |buf|) && start + |data| <= |pos| && data == At(buf, pos[start..start + |data|])
  }

  /** buf is buf0 with data written at the positions pos[start], pos[start + 1], ... */
  ghost predicate IsWritten(buf0: seq<Byte>, buf: seq<Byte>, pos: seq<nat>, start: nat, data: seq<Byte>) {
    if data == [] then buf == buf0
    else start + |data| <= |pos| && Patched(buf0, buf, pos[start..start + |data|], data)
  }

  ghost predicate WrittenUpto(buf0: seq<Byte>, buf: seq<Byte>, pos: seq<nat>, start: nat, data: seq<Byte>, done: nat) {
    done <= |data| && IsWritten(buf0, buf, pos, start, data[..done])
  }

  lemma {:induction false} StartWrite(buf: seq<Byte>, pos: seq<nat>, start: nat, data: seq<Byte>)
    ensures WrittenUpto(buf, buf, pos, start, data, 0)
  {
  }

  lemma {:induction false} StartRead(buf: seq<Byte>, pos: seq<nat>, start: nat)
    requires Layout.Within(pos, |buf|) && start <= |pos|
    ensures IsRead(buf, pos, start, [])
  {
  }

  /** A walk along the sub-blocks of a block, now at the i-th of them, off selected bytes further. */
  datatype Walk = Walk(at: nat, subSz: nat, bits: Bitmap, i: nat, off: nat) {
    /** The positions still to come are pos[off..]. */
    ghost predicate Valid(pos: seq<nat>) {
      i <= 16 && off <= |pos| && SubPos(at, subSz, bits, i) == pos[off..]
    }

    /** The next sub-block is a selected one: its positions come next. */
    ghost predicate Selected(pos: seq<nat>) {
      off + subSz <= |pos| && pos[off..off + subSz] == Run(at, subSz)
    }

    function Next(): Walk
      requires i < 16
    {
      Walk(at + subSz, subSz, bits, i + 1, if 15 - i in bits then off + subSz else off)
    }
  }

  lemma {:induction false} WalkStep(w: Walk, pos: seq<nat>)
    requires w.i < 16 && w.Valid(pos)
    ensures w.Next().Valid(pos)
    ensures w.Next()
         == Walk(w.at + w.subSz, w.subSz, w.bits, w.i + 1, if 15 - w.i in w.bits then w.off + w.subSz else w.off)
    ensures w.i == 15 ==> w.Next().off == |pos|
    ensures 15 - w.i in w.bits ==> w.Selected(pos)
  {
    var rest := pos[w.off..];
    var next := SubPos(w.at + w.subSz, w.subSz, w.bits, w.i + 1);
    if 15 - w.i in w.bits {
      assert rest == Run(w.at, w.subSz) + next;
      assert rest[..w.subSz] == pos[w.off..w.off + w.subSz];
      assert rest[w.subSz..] == pos[w.off + w.subSz..];
    } else {
      assert rest == next;
    }
  }

  /** A stretch of a run is a run. */
  lemma {:induction false} PieceOfRun(pos: seq<nat>, off: nat, a: nat, n: nat, skip: nat, sz: nat, len: nat)
    requires off + n <= |pos| && pos[off..off + n] == Run(a, n) && skip + sz <= n && Layout.Within(pos, len)
    ensures pos[off + skip..off + skip + sz] == Run(a + skip, sz)
    ensures sz == 0 || a + skip + sz <= len
  {
    SliceOfSlice(pos, off, n, skip, sz);
    if 0 < sz {
      assert pos[off + (skip + sz - 1)] == Run(a, n)[skip + sz - 1];
    }
  }

  lemma {:induction false} ReadMore(buf: seq<Byte>, pos: seq<nat>, start: nat, data: seq<Byte>, a: nat,
      piece: seq<Byte>)
    requires IsRead(buf, pos, start, data) && start + |data| + |piece| <= |pos|
    requires pos[start + |data|..start + |data| + |piece|] == Run(a, |piece|)
    requires a + |piece| <= |buf| && piece == buf[a..a + |piece|]
    ensures IsRead(buf, pos, start, data + piece)
  {
    hide Run, At;
    JoinSlices(pos, start, |data|, |piece|);
    AtRun(buf, a, |piece|);
    AtAppend(buf, pos[start..start + |data|], Run(a, |piece|));
  }

  lemma {:induction false} WrittenMore(b0: seq<Byte>, b1: seq<Byte>, b2: seq<Byte>, pos: seq<nat>, start: nat,
      data: seq<Byte>, a: nat, piece: seq<Byte>)
    requires IsWritten(b0, b1, pos, start, data) && Patched(b1, b2, Run(a, |piece|), piece)
    requires start + |data| + |piece| <= |pos| && Distinct(pos)
    requires pos[start + |data|..start + |data| + |piece|] == Run(a, |piece|)
    ensures IsWritten(b0, b2, pos, start, data + piece)
  {
    if data == [] {
      assert data + piece == piece;
      assert piece == [] ==> b2 == b1;
    } else {
      JoinSlices(pos, start, |data|, |piece|);
      PatchTwice(b0, b1, b2, pos[start..start + |data|], data, Run(a, |piece|), piece);
    }
  }
}
