/**
 * A segment shown as one flat string of bytes with a read and a write pointer (xoz/io/iosegment.cpp,
 * xoz/io/iobase.cpp).
 */
module SegmentIo {
  import opened Outcomes
  import opened Extents
  import opened Layout
  import opened BlockArrays
  import opened Segments

  /** Where the first n extents begin in the flat view. */
  ghost predicate IsIndex(begins: seq<nat>, exts: seq<Extent>, n: nat, blkSz: nat) {
    |begins| == n <= |exts| && forall i :: 0 <= i < n ==> begins[i] == DataSizes(exts[..i], blkSz)
  }

  lemma {:induction false} SegPosParts(head: seq<Extent>, e: Extent, tail: seq<Extent>, blkSz: nat)
    ensures SegPos(head + [e] + tail, blkSz) == SegPos(head, blkSz) + ExtPos(e, blkSz) + SegPos(tail, blkSz)
    ensures DataSizes(head + [e], blkSz) == DataSizes(head, blkSz) + DataSize(e, blkSz)
  {
    SegPosAppend(head + [e], tail, blkSz);
    SegPosAppend(head, [e], blkSz);
    assert SegPos([e], blkSz) == ExtPos(e, blkSz);
    assert DataSizes([e], blkSz) == DataSize(e, blkSz);
  }

  /** The positions of extent ix are a stretch of the positions of the whole list. */
  lemma {:induction false} SegPosOf(exts: seq<Extent>, ix: nat, blkSz: nat)
    requires ix < |exts|
    ensures var b, n := DataSizes(exts[..ix], blkSz), DataSize(exts[ix], blkSz);
            && b + n <= |SegPos(exts, blkSz)|
            && SegPos(exts, blkSz)[b..b + n] == ExtPos(exts[ix], blkSz)
            && DataSizes(exts[..ix + 1], blkSz) == b + n
  {
    hide *;
    assert exts == exts[..ix] + [exts[ix]] + exts[ix + 1..];
    assert exts[..ix + 1] == exts[..ix] + [exts[ix]];
    SegPosParts(exts[..ix], exts[ix], exts[ix + 1..], blkSz);
    SegPosSize(exts[..ix], blkSz);
    ExtPosSize(exts[ix], blkSz);
  }

  lemma {:induction false} IndexStart(exts: seq<Extent>, blkSz: nat)
    ensures IsIndex([], exts, 0, blkSz) && DataSizes(exts[..0], blkSz) == 0
  {
  }

  lemma {:induction false} IndexMore(begins: seq<nat>, exts: seq<Extent>, n: nat, blkSz: nat)
    requires IsIndex(begins, exts, n, blkSz) && n < |exts|
    ensures IsIndex(begins + [DataSizes(exts[..n], blkSz)], exts, n + 1, blkSz)
  {
  }

  method CreateExtIndex(exts: seq<Extent>, blkSz: nat) returns (begins: seq<nat>)
    ensures IsIndex(begins, exts, |exts|, blkSz)
  {
    hide *;
    begins := [];
    var pos := 0;
    IndexStart(exts, blkSz);
    for i := 0 to |exts|
      invariant IsIndex(begins, exts, i, blkSz) && pos == DataSizes(exts[..i], blkSz)
    {
      SegPosOf(exts, i, blkSz);
      IndexMore(begins, exts, i, blkSz);
      begins := begins + [pos];
      pos := pos + DataSize(exts[i], blkSz);
    }
  }

  datatype ExtPtr = End | Inside(ix: nat, offset: nat, remain: nat)

  /** The extent that holds position pos: the last one that begins at or before it. */
  method AbsPosToExt(begins: seq<nat>, exts: seq<Extent>, blkSz: nat, pos: nat) returns (ptr: ExtPtr)
    requires IsIndex(begins, exts, |exts|, blkSz)
    ensures ptr.End? <==> DataSizes(exts, blkSz) <= pos
    ensures ptr.Inside? ==>
              && ptr.ix < |exts| && begins[ptr.ix] + ptr.offset == pos
              && ptr.offset + ptr.remain == DataSize(exts[ptr.ix], blkSz) && 0 < ptr.remain
  {
    var total := DataSizes(exts, blkSz);
    if |begins| == 0 || pos >= total { return End; }
    var ix := 0;
    assert begins[0] == 0 by { assert exts[..0] == []; }
    while ix < |begins| && begins[ix] <= pos
      invariant ix <= |begins|
      invariant forall k :: 0 <= k < ix ==> begins[k] <= pos
    {
      ix := ix + 1;
    }
    ix := ix - 1;
    SegPosOf(exts, ix, blkSz);
    if ix + 1 == |exts| { assert exts[..ix + 1] == exts; }
    ptr := Inside(ix, pos - begins[ix], DataSize(exts[ix], blkSz) - (pos - begins[ix]));
  }

  // ---------------------------------------------------------------------------------------------
  // The flat view
  // ---------------------------------------------------------------------------------------------

  /** The extents of the segment lie within the array and share no sub-block. */
  ghost predicate Mounted(arr: BlockArray, sg: Segment)
    reads arr, sg
  {
    && arr.Valid() && sg.Valid() && sg.blkSz == arr.blkSz && |sg.raw| <= MAX_INLINE_SIZE
    && (forall e :: e in sg.exts ==> arr.WithinBoundaries(e))
    && Disjoint(sg.exts)
  }

  lemma {:induction false} MountedPositions(arr: BlockArray, sg: Segment)
    requires Mounted(arr, sg)
    ensures var pos := SegPos(sg.exts, sg.blkSz);
            Layout.Within(pos, |arr.buf|) && Distinct(pos) && |pos| == DataSizes(sg.exts, sg.blkSz)
  {
    SegPosWithin(sg.exts, sg.blkSz, arr.realEnd);
    SegPosDistinct(sg.exts, sg.blkSz);
    SegPosSize(sg.exts, sg.blkSz);
  }

  /** The bytes of the extents, one after the other, then the inline bytes. */
  ghost function Flat(buf: seq<Byte>, pos: seq<nat>, raw: seq<Byte>): seq<Byte>
    requires Layout.Within(pos, |buf|)
  {
    At(buf, pos) + raw
  }

  ghost predicate IsFlatRead(buf: seq<Byte>, pos: seq<nat>, raw: seq<Byte>, start: nat, data: seq<Byte>) {
    && Layout.Within(pos, |buf|) && start + |data| <= |pos| + |raw|
    && data == Flat(buf, pos, raw)[start..start + |data|]
  }

  lemma {:induction false} FlatReadExtents(buf: seq<Byte>, pos: seq<nat>, raw: seq<Byte>, start: nat, data: seq<Byte>)
    requires IsRead(buf, pos, start, data)
    ensures IsFlatRead(buf, pos, raw, start, data)
  {
  }

  lemma {:induction false} FlatReadNothing(buf: seq<Byte>, pos: seq<nat>, raw: seq<Byte>, start: nat, data: seq<Byte>)
    requires Layout.Within(pos, |buf|) && start <= |pos| + |raw| && data == []
    ensures IsFlatRead(buf, pos, raw, start, data)
  {
  }

  lemma {:induction false} FlatReadEnd(buf: seq<Byte>, pos: seq<nat>, raw: seq<Byte>, start: nat, data: seq<Byte>)
    requires IsFlatRead(buf, pos, raw, start, data)
    ensures Layout.Within(pos, |buf|) && start + |data| <= |Flat(buf, pos, raw)|
    ensures data == Flat(buf, pos, raw)[start..start + |data|]
  {
  }

  lemma {:induction false} FlatReadInline(buf: seq<Byte>, pos: seq<nat>, raw: seq<Byte>, start: nat, data: seq<Byte>,
      piece: seq<Byte>)
    requires IsFlatRead(buf, pos, raw, start, data) && |pos| <= start + |data|
    requires var o := start + |data| - |pos|; o + |piece| <= |raw| && piece == raw[o..o + |piece|]
    ensures IsFlatRead(buf, pos, raw, start, data + piece)
  {
  }

  /** A stretch of one extent is a stretch of the whole list. */
  lemma {:induction false} Stretch(exts: seq<Extent>, ix: nat, blkSz: nat, offset: nat, n: nat, at: nat)
    requires ix < |exts| && DataSizes(exts[..ix], blkSz) + offset == at && offset + n <= DataSize(exts[ix], blkSz)
    ensures at + n <= |SegPos(exts, blkSz)| && offset + n <= |ExtPos(exts[ix], blkSz)|
    ensures SegPos(exts, blkSz)[at..at + n] == ExtPos(exts[ix], blkSz)[offset..offset + n]
  {
    hide *;
    SegPosOf(exts, ix, blkSz);
    ExtPosSize(exts[ix], blkSz);
    SliceOfSlice(SegPos(exts, blkSz), DataSizes(exts[..ix], blkSz), DataSize(exts[ix], blkSz), offset, n);
  }

  /** What was read at other positions in the same order continues what was read so far. */
  lemma {:induction false} ReadThen(buf: seq<Byte>, pos: seq<nat>, start: nat, data: seq<Byte>, q: seq<nat>,
      offset: nat, piece: seq<Byte>)
    requires IsRead(buf, pos, start, data) && IsRead(buf, q, offset, piece)
    requires start + |data| + |piece| <= |pos|
    requires pos[start + |data|..start + |data| + |piece|] == q[offset..offset + |piece|]
    ensures IsRead(buf, pos, start, data + piece)
  {
    JoinSlices(pos, start, |data|, |piece|);
    AtAppend(buf, pos[start..start + |data|], pos[start + |data|..start + |data| + |piece|]);
  }

  lemma {:induction false} WrittenThen(b0: seq<Byte>, b1: seq<Byte>, b2: seq<Byte>, pos: seq<nat>, start: nat,
      data: seq<Byte>, piece: seq<Byte>)
    requires Distinct(pos) && start + |data| + |piece| <= |pos| && IsWritten(b0, b1, pos, start, data) && piece != []
    requires Patched(b1, b2, pos[start + |data|..start + |data| + |piece|], piece)
    ensures IsWritten(b0, b2, pos, start, data + piece)
  {
    if data == [] {
      assert data + piece == piece;
    } else {
      JoinSlices(pos, start, |data|, |piece|);
      PatchTwice(b0, b1, b2, pos[start..start + |data|], data, pos[start + |data|..start + |data| + |piece|], piece);
    }
  }

  /** What was read from one extent continues what was read so far. */
  lemma {:induction false} ReadNextExtent(buf: seq<Byte>, exts: seq<Extent>, ix: nat, blkSz: nat, offset: nat,
      start: nat, data: seq<Byte>, piece: seq<Byte>)
    requires ix < |exts| && DataSizes(exts[..ix], blkSz) + offset == start + |data|
    requires offset + |piece| <= DataSize(exts[ix], blkSz)
    requires IsRead(buf, SegPos(exts, blkSz), start, data) && IsRead(buf, ExtPos(exts[ix], blkSz), offset, piece)
    ensures IsRead(buf, SegPos(exts, blkSz), start, data + piece)
  {
    hide *;
    Stretch(exts, ix, blkSz, offset, |piece|, start + |data|);
    ReadThen(buf, SegPos(exts, blkSz), start, data, ExtPos(exts[ix], blkSz), offset, piece);
  }

  /** What was written to one extent continues what was written so far. */
  lemma {:induction false} WriteNextExtent(b0: seq<Byte>, b1: seq<Byte>, b2: seq<Byte>, exts: seq<Extent>, ix: nat,
      blkSz: nat, offset: nat, start: nat,
                        data: seq<Byte>, piece: seq<Byte>)
    requires ix < |exts| && DataSizes(exts[..ix], blkSz) + offset == start + |data|
    requires piece != [] && offset + |piece| <= DataSize(exts[ix], blkSz) == |ExtPos(exts[ix], blkSz)|
    requires Distinct(SegPos(exts, blkSz))
    requires IsWritten(b0, b1, SegPos(exts, blkSz), start, data)
    requires Patched(b1, b2, ExtPos(exts[ix], blkSz)[offset..offset + |piece|], piece)
    ensures IsWritten(b0, b2, SegPos(exts, blkSz), start, data + piece)
  {
    hide *;
    Stretch(exts, ix, blkSz, offset, |piece|, start + |data|);
    WrittenThen(b0, b1, b2, SegPos(exts, blkSz), start, data, piece);
  }

  /** The flat view with data over it from start on. */
  ghost function Over(flat: seq<Byte>, start: nat, data: seq<Byte>): seq<Byte>
    requires start + |data| <= |flat|
  {
    flat[..start] + data + flat[start + |data|..]
  }

  /** buf differs from buf0 at most at the positions pos. */
  ghost predicate Untouched(buf0: seq<Byte>, buf: seq<Byte>, pos: seq<nat>) {
    |buf| == |buf0| && forall x :: 0 <= x < |buf0| && x !in pos ==> buf[x] == buf0[x]
  }

  lemma {:induction false} FlatWrite(buf0: seq<Byte>, buf: seq<Byte>, pos: seq<nat>, raw: seq<Byte>, start: nat,
      data: seq<Byte>, done: nat)
    requires Layout.Within(pos, |buf0|) && Distinct(pos) && |buf| == |buf0|
    requires WrittenUpto(buf0, buf, pos, start, data, done) && start + done <= |pos| + |raw|
    ensures Untouched(buf0, buf, pos)
    ensures Flat(buf, pos, raw) == Over(Flat(buf0, pos, raw), start, data[..done])
  {
    var d := data[..done];
    if d == [] {
      OverNothing(Flat(buf0, pos, raw), start);
    } else {
      PatchWithin(buf0, buf, pos, start, d);
      PatchedUntouched(buf0, buf, pos, start, d);
      OverFront(At(buf0, pos), raw, start, d);
    }
  }

  lemma {:induction false} OverNothing(flat: seq<Byte>, start: nat)
    requires start <= |flat|
    ensures Over(flat, start, []) == flat
  {
  }

  lemma {:induction false} OverFront(front: seq<Byte>, raw: seq<Byte>, start: nat, d: seq<Byte>)
    requires start + |d| <= |front|
    ensures Over(front + raw, start, d) == Over(front, start, d) + raw
  {
  }

  lemma {:induction false} PatchedUntouched(buf0: seq<Byte>, buf: seq<Byte>, pos: seq<nat>, start: nat, d: seq<Byte>)
    requires start + |d| <= |pos| && Patched(buf0, buf, pos[start..start + |d|], d)
    ensures Untouched(buf0, buf, pos)
  {
    assert forall x :: x in pos[start..start + |d|] ==> x in pos;
  }

  lemma {:induction false} FlatWriteInline(buf: seq<Byte>, pos: seq<nat>, raw: seq<Byte>, offset: nat, piece: seq<Byte>)
    requires Layout.Within(pos, |buf|) && offset + |piece| <= |raw|
    ensures Flat(buf, pos, Over(raw, offset, piece)) == Over(Flat(buf, pos, raw), |pos| + offset, piece)
  {
  }

  lemma {:induction false} OverThen(flat: seq<Byte>, start: nat, data: seq<Byte>, piece: seq<Byte>)
    requires start + |data| + |piece| <= |flat|
    ensures Over(Over(flat, start, data), start + |data|, piece) == Over(flat, start, data + piece)
  {
  }

  datatype Seekdir = Beg | EndOf | Fwd | Bwd

  /** Where a seek wants to go, before it is confined to the limits. */
  function SeekTarget(srcSz: nat, pos: nat, cur: nat, way: Seekdir): int {
    match way
    case Beg => pos
    case EndOf => srcSz - pos
    case Fwd => cur + pos
    case Bwd => cur - pos
  }

  function Clamp(x: int, lo: nat, hi: nat): nat {
    if x < lo then lo else if x > hi then hi else x
  }

  /** calc_seek, with its 32-bit sum. */
  function CalcSeek(srcSz: nat, minPos: nat, curEnd: nat, pos: nat, cur: nat, way: Seekdir): (at: nat)
    requires minPos <= cur <= curEnd <= srcSz <= MAX_U32 && pos <= MAX_U32
    ensures at == Clamp(SeekTarget(srcSz, pos, cur, way), minPos, curEnd)
  {
    match way
    case Beg => if pos > curEnd then curEnd else if pos < minPos then minPos else pos
    case EndOf =>
      if srcSz < pos || srcSz - pos < minPos then minPos
      else if srcSz - pos > curEnd then curEnd
      else srcSz - pos
    case Fwd =>
      var sum := (cur + pos) % (MAX_U32 + 1);
      if sum < pos || sum > curEnd then curEnd else sum
    case Bwd => if cur - minPos < pos then minPos else cur - pos
  }

  class IOSegment {
    const arr: BlockArray
    const sg: Segment
    const srcSz: nat
    const noInlineSz: nat
    const begins: seq<nat>

    var rdMin: nat
    var rdEnd: nat
    var wrMin: nat
    var wrEnd: nat
    var rd: nat
    var wr: nat

    ghost predicate Valid()
      reads this, arr, sg
    {
      && Mounted(arr, sg)
      && noInlineSz == DataSizes(sg.exts, sg.blkSz) && srcSz == noInlineSz + |sg.raw|
      && IsIndex(begins, sg.exts, |sg.exts|, sg.blkSz)
      && rdMin <= rd <= rdEnd <= srcSz
      && wrMin <= wr <= wrEnd <= srcSz
    }

    constructor (arr: BlockArray, sg: Segment)
      requires Mounted(arr, sg)
      ensures Valid() && this.arr == arr && this.sg == sg
      ensures rdMin == rd == wrMin == wr == 0 && rdEnd == wrEnd == srcSz == sg.DataSpaceSize()
    {
      var index := CreateExtIndex(sg.exts, sg.blkSz);
      this.arr, this.sg := arr, sg;
      this.srcSz, this.noInlineSz, this.begins := sg.DataSpaceSize(), DataSizes(sg.exts, sg.blkSz), index;
      rdMin, wrMin, rd, wr := 0, 0, 0, 0;
      rdEnd, wrEnd := sg.DataSpaceSize(), sg.DataSpaceSize();
    }

    lemma {:induction false} MountedExtent(ix: nat)
      requires Valid() && ix < |sg.exts|
      ensures arr.Valid() && arr.WithinBoundaries(sg.exts[ix]) && arr.blkSz == sg.blkSz
      ensures begins[ix] == DataSizes(sg.exts[..ix], sg.blkSz) && Pos() == SegPos(sg.exts, sg.blkSz) && Distinct(Pos())
    {
      MountedPositions(arr, sg);
    }

    /** The positions in the buffer of the bytes of the extents. */
    ghost function Pos(): seq<nat>
      reads sg`exts
    {
      SegPos(sg.exts, sg.blkSz)
    }

    /** The one string of bytes that readers and writers see. */
    ghost function Content(): (flat: seq<Byte>)
      requires Valid()
      reads this, arr, sg
      ensures |flat| == srcSz
    {
      MountedPositions(arr, sg);
      Flat(arr.buf, Pos(), sg.raw)
    }

    /** Copies up to sz bytes from the extents, beginning at position at. */
    method ReadExtents(at: nat, sz: nat) returns (data: seq<Byte>)
      requires Valid()
      ensures Layout.Within(Pos(), |arr.buf|) && at <= noInlineSz ==> IsRead(arr.buf, Pos(), at, data)
      ensures |data| == if noInlineSz <= at then 0 else if sz < noInlineSz - at then sz else noInlineSz - at
    {
      MountedPositions(arr, sg);
      data := [];
      if noInlineSz <= at { return; }
      StartRead(arr.buf, Pos(), at);
      var remain, p := sz, at;
      while 0 < remain
        invariant |data| + remain == sz && p == at + |data| <= noInlineSz
        invariant IsRead(arr.buf, Pos(), at, data)
      {
        var ptr := AbsPosToExt(begins, sg.exts, sg.blkSz, p);
        if ptr.End? { break; }
        var n := Min(ptr.remain, remain);
        var r := arr.ReadExtent(sg.exts[ptr.ix], n, ptr.offset);
        ReadNextExtent(arr.buf, sg.exts, ptr.ix, sg.blkSz, ptr.offset, at, data, r.value);
        data := data + r.value;
        remain := remain - n;
        p := p + n;
      }
    }

    /** rw_operation for reading: up to sz bytes at the read pointer. */
    method RwRead(sz: nat) returns (data: seq<Byte>)
      requires Valid()
      modifies this`rd
      ensures Valid() && rd == old(rd) + |data| && |data| == Min(sz, rdEnd - old(rd))
      ensures data == Content()[old(rd)..rd]
    {
      data := ReadAt(rd, Min(sz, rdEnd - rd));
      rd := rd + |data|;
    }

    /** Reads sz bytes at position at: what the extents have first, the rest inline. */
    method ReadAt(at: nat, sz: nat) returns (data: seq<Byte>)
      requires Valid() && at + sz <= srcSz
      ensures |data| == sz && data == Content()[at..at + sz]
    {
      hide *;
      MountedNow();
      data := ReadExtents(at, sz);
      if at <= noInlineSz {
        FlatReadExtents(arr.buf, Pos(), sg.raw, at, data);
      } else {
        FlatReadNothing(arr.buf, Pos(), sg.raw, at, data);
      }
      var remain, p := sz - |data|, at + |data|;
      if 0 < remain && noInlineSz <= p {
        var offset := p - noInlineSz;
        var piece := sg.raw[offset..offset + remain];
        FlatReadInline(arr.buf, Pos(), sg.raw, at, data, piece);
        data := data + piece;
      }
      FlatReadEnd(arr.buf, Pos(), sg.raw, at, data);
    }

    /** rw_operation for writing: up to |data| bytes at the write pointer. */
    method RwWrite(data: seq<Byte>) returns (n: nat)
      requires Valid()
      modifies this`wr, arr`buf, sg`raw
      ensures Valid() && n == Min(|data|, wrEnd - old(wr)) && wr == old(wr) + n
      ensures |sg.raw| == |old(sg.raw)| && Untouched(old(arr.buf), arr.buf, Pos())
      ensures Content() == Over(old(Content()), old(wr), data[..n])
    {
      n := Min(|data|, wrEnd - wr);
      WriteAt(wr, data[..n]);
      wr := wr + n;
    }

    /** Writes data at position at: what the extents can take first, the rest inline. */
    method WriteAt(at: nat, data: seq<Byte>)
      requires Valid() && at + |data| <= srcSz
      modifies arr`buf, sg`raw
      ensures Valid() && |sg.raw| == |old(sg.raw)| && Untouched(old(arr.buf), arr.buf, Pos())
      ensures Content() == Over(old(Content()), at, data)
    {
      hide Content, Over;
      var n := WriteFront(at, data);
      var front, rest := data[..n], data[n..];
      assert front + rest == data;
      if rest != [] && noInlineSz <= at + n {
        WriteInline(at + n - noInlineSz, rest);
        OverThen(old(Content()), at, front, rest);
      } else {
        assert front == data;
      }
    }

    method WriteFront(at: nat, data: seq<Byte>) returns (n: nat)
      requires Valid() && at + |data| <= srcSz
      modifies arr`buf
      ensures Valid() && Untouched(old(arr.buf), arr.buf, Pos())
      ensures n <= |data| && (n < |data| ==> noInlineSz <= at + n)
      ensures Content() == Over(old(Content()), at, data[..n])
    {
      MountedPositions(arr, sg);
      n := WriteExtents(at, data);
      FlatWrite(old(arr.buf), arr.buf, Pos(), sg.raw, at, data, n);
    }

    method WriteInline(offset: nat, piece: seq<Byte>)
      requires Valid() && offset + |piece| <= |sg.raw| && piece != []
      modifies sg`raw
      ensures Valid() && |sg.raw| == |old(sg.raw)|
      ensures Content() == Over(old(Content()), noInlineSz + offset, piece)
    {
      MountedPositions(arr, sg);
      FlatWriteInline(arr.buf, Pos(), sg.raw, offset, piece);
      sg.raw := sg.raw[..offset] + piece + sg.raw[offset + |piece|..];
    }

    /** Copies data to the extents, beginning at position at; whatever does not fit is left. */
    method WriteExtents(at: nat, data: seq<Byte>) returns (done: nat)
      requires Valid()
      modifies arr`buf
      ensures Valid() && Layout.Within(Pos(), |old(arr.buf)|)
      ensures done == if noInlineSz <= at then 0 else if |data| < noInlineSz - at then |data| else noInlineSz - at
      ensures WrittenUpto(old(arr.buf), arr.buf, Pos(), at, data, done)
    {
      hide *;
      MountedNow();
      StartWrite(arr.buf, Pos(), at, data);
      done := 0;
      if noInlineSz <= at { return; }
      var p := at;
      while done < |data|
        invariant Valid() && done <= |data| && p == at + done <= noInlineSz && |arr.buf| == |old(arr.buf)|
        invariant WrittenUpto(old(arr.buf), arr.buf, Pos(), at, data, done)
      {
        MountedNow();
        var ptr := AbsPosToExt(begins, sg.exts, sg.blkSz, p);
        if ptr.End? { break; }
        SegPosOf(sg.exts, ptr.ix, sg.blkSz);
        WriteOneExtent(ptr, at, data, done, old(arr.buf));
        var n := if ptr.remain < |data| - done then ptr.remain else |data| - done;
        done := done + n;
        p := p + n;
      }
    }

    lemma {:induction false} MountedNow()
      requires Valid()
      ensures noInlineSz == DataSizes(sg.exts, sg.blkSz) && IsIndex(begins, sg.exts, |sg.exts|, sg.blkSz)
          && |begins| == |sg.exts|
      ensures Layout.Within(Pos(), |arr.buf|) && |Pos()| == noInlineSz && Pos() == SegPos(sg.exts, sg.blkSz)
      ensures srcSz == noInlineSz + |sg.raw| && Content() == Flat(arr.buf, Pos(), sg.raw)
      ensures forall i :: 0 <= i < |begins| ==> begins[i] == DataSizes(sg.exts[..i], sg.blkSz)
    {
      MountedPositions(arr, sg);
    }

    /** Copies the next bytes of data to the extent at ptr. */
    method WriteOneExtent(ptr: ExtPtr, ghost at: nat, data: seq<Byte>, done: nat, ghost buf0: seq<Byte>)
      requires Valid() && ptr.Inside? && ptr.ix < |sg.exts| && done < |data|
      requires ptr.offset + ptr.remain == DataSize(sg.exts[ptr.ix], sg.blkSz) && 0 < ptr.remain
      requires begins[ptr.ix] + ptr.offset == at + done
      requires WrittenUpto(buf0, arr.buf, Pos(), at, data, done)
      modifies arr`buf
      ensures Valid() && |arr.buf| == |old(arr.buf)|
      ensures var n := if ptr.remain < |data| - done then ptr.remain else |data| - done;
              WrittenUpto(buf0, arr.buf, Pos(), at, data, done + n)
    {
      hide IsWritten, Layout.Within, SegPos, Pos, IsIndex, DataSizes, DataSize, Disjoint;
      var n := if ptr.remain < |data| - done then ptr.remain else |data| - done;
      PutPiece(ptr.ix, ptr.offset, data[done..done + n], at, data[..done], buf0);
      UptoMore(buf0, arr.buf, Pos(), at, data, done, n);
    }

    method PutPiece(ix: nat, offset: nat, piece: seq<Byte>, ghost at: nat, ghost sofar: seq<Byte>,
        ghost buf0: seq<Byte>)
      requires Valid() && ix < |sg.exts| && piece != [] && offset + |piece| <= DataSize(sg.exts[ix], sg.blkSz)
      requires begins[ix] + offset == at + |sofar| && IsWritten(buf0, arr.buf, Pos(), at, sofar)
      modifies arr`buf
      ensures arr.Valid() && |arr.buf| == |old(arr.buf)|
      ensures IsWritten(buf0, arr.buf, Pos(), at, sofar + piece)
    {
      hide *;
      MountedExtent(ix);
      var r := arr.WriteExtent(sg.exts[ix], piece, |piece|, offset);
      ExtPosSize(sg.exts[ix], sg.blkSz);
      WrittenAll(old(arr.buf), arr.buf, ExtPos(sg.exts[ix], sg.blkSz), offset, piece, r.value, DataSize(sg.exts[ix],
          sg.blkSz));
      WriteNextExtent(buf0, old(arr.buf), arr.buf, sg.exts, ix, sg.blkSz, offset, at, sofar, piece);
    }

    lemma {:induction false} Bounds()
      requires Valid()
      ensures rdMin <= rd <= rdEnd <= srcSz && wrMin <= wr <= wrEnd <= srcSz
    {
    }

    /** The view shows the bytes of the segment. */
    lemma {:induction false} View()
      requires Valid()
      ensures Mounted(arr, sg) && Content() == FlatOf(arr, sg) && Pos() == SegPos(sg.exts, sg.blkSz)
          && srcSz == sg.DataSpaceSize()
      ensures rdMin <= rd <= rdEnd <= srcSz && wrMin <= wr <= wrEnd <= srcSz
    {
    }

    // -- the operations of the io base class, over RwRead and RwWrite --

    method SeekRd(pos: nat, way: Seekdir)
      requires Valid() && pos <= MAX_U32 && srcSz <= MAX_U32
      modifies this`rd
      ensures Valid() && rd == Clamp(SeekTarget(srcSz, pos, old(rd), way), rdMin, rdEnd) && Content() == old(Content())
    {
      rd := CalcSeek(srcSz, rdMin, rdEnd, pos, rd, way);
    }

    method SeekWr(pos: nat, way: Seekdir)
      requires Valid() && pos <= MAX_U32 && srcSz <= MAX_U32
      modifies this`wr
      ensures Valid() && wr == Clamp(SeekTarget(srcSz, pos, old(wr), way), wrMin, wrEnd) && Content() == old(Content())
    {
      wr := CalcSeek(srcSz, wrMin, wrEnd, pos, wr, way);
    }

    /** Reads exactly sz bytes or throws. */
    method ReadAll(sz: nat) returns (r: Outcome<seq<Byte>>)
      requires Valid()
      modifies this`rd
      ensures Valid()
      ensures r.Ok? <==> sz <= rdEnd - old(rd)
      ensures r.Throws? ==> rd == old(rd)
      ensures r.Ok? ==> rd == old(rd) + sz && r.value == Content()[old(rd)..old(rd) + sz]
    {
      if rdEnd - rd < sz { return Throws(NotEnoughRoom); }
      var data := RwRead(sz);
      r := Ok(data);
    }

    /** Writes all of data or throws. */
    method WriteAll(data: seq<Byte>) returns (r: Outcome<()>)
      requires Valid()
      modifies this`wr, arr`buf, sg`raw
      ensures Valid() && |sg.raw| == |old(sg.raw)| && Untouched(old(arr.buf), arr.buf, Pos())
      ensures r.Ok? <==> |data| <= wrEnd - old(wr)
      ensures r.Throws? ==> wr == old(wr) && Content() == old(Content())
      ensures r.Ok? ==> wr == old(wr) + |data| && Content() == Over(old(Content()), old(wr), data)
    {
      if wrEnd - wr < |data| { return Throws(NotEnoughRoom); }
      var n := RwWrite(data);
      assert data[..|data|] == data;
      r := Ok(());
    }

    /** Writes sz bytes of value c, 64 at a time; where the room ends, as many whole batches as it has room for. */
    method Fill(c: Byte, sz: nat) returns (r: Outcome<()>)
      requires Valid()
      modifies this`wr, arr`buf, sg`raw
      ensures Valid() && |sg.raw| == |old(sg.raw)| && Untouched(old(arr.buf), arr.buf, Pos())
      ensures r.Ok? <==> sz <= wrEnd - old(wr)
      ensures var n := if r.Ok? then sz else (wrEnd - old(wr)) / TMP_BUF_SZ * TMP_BUF_SZ;
              wr == old(wr) + n && Content() == Over(old(Content()), old(wr), Repeat(c, n))
    {
      hide Valid, Content, Over, Filled, Untouched, Pos;
      Bounds();
      ghost var flat0, wr0, buf0 := Content(), wr, arr.buf;
      var pad := Repeat(c, TMP_BUF_SZ);
      var done: nat := 0;
      FillStart(flat0, wr0, c, buf0, Pos());
      while TMP_BUF_SZ <= sz - done
        invariant Valid() && done <= sz && done % TMP_BUF_SZ == 0 && |sg.raw| == |old(sg.raw)|
            && Untouched(buf0, arr.buf, Pos())
        invariant wr == wr0 + done && wr <= wrEnd && Filled(flat0, Content(), wr0, c, done)
      {
        if wrEnd - wr < TMP_BUF_SZ {
          FilledAll(flat0, Content(), wr0, c, done);
          return Throws(NotEnoughRoom);
        }
        FillChunk(pad, flat0, wr0, c, done, buf0);
        done := done + TMP_BUF_SZ;
      }
      if wrEnd - wr < sz - done {
        FilledAll(flat0, Content(), wr0, c, done);
        return Throws(NotEnoughRoom);
      }
      FillChunk(Repeat(c, sz - done), flat0, wr0, c, done, buf0);
      FilledAll(flat0, Content(), wr0, c, sz);
      r := Ok(());
    }

    method FillChunk(pad: seq<Byte>, ghost flat0: seq<Byte>, ghost wr0: nat, ghost c: Byte, ghost done: nat,
        ghost buf0: seq<Byte>)
      requires Valid() && |pad| <= wrEnd - wr && pad == Repeat(c, |pad|) && Untouched(buf0, arr.buf, Pos())
      requires wr == wr0 + done && Filled(flat0, Content(), wr0, c, done)
      modifies this`wr, arr`buf, sg`raw
      ensures Valid() && |sg.raw| == |old(sg.raw)| && Untouched(buf0, arr.buf, Pos())
      ensures wr == old(wr) + |pad| && Filled(flat0, Content(), wr0, c, done + |pad|)
    {
      ghost var flat := Content();
      var r := WriteAll(pad);
      FillMore(flat0, flat, wr0, c, done, |pad|);
    }

    /** Copies sz bytes from the read to the write pointer, as if through a buffer that holds them all. */
    method CopyIntoSelf(sz: nat) returns (r: Outcome<()>)
      requires Valid() && srcSz <= MAX_U32
      modifies this`rd, this`wr, arr`buf, sg`raw
      ensures Valid() && |sg.raw| == |old(sg.raw)| && Untouched(old(arr.buf), arr.buf, Pos())
      ensures r.Ok? <==> sz <= rdEnd - old(rd) && sz <= wrEnd - old(wr)
      ensures r.Throws? ==> unchanged(this) && Content() == old(Content())
      ensures r.Ok? ==> rd == old(rd) + sz && wr == old(wr) + sz
      ensures r.Ok? ==> Content() == Over(old(Content()), old(wr), old(Content()[rd..rd + sz]))
    {
      if rdEnd - rd < sz || wrEnd - wr < sz { return Throws(NotEnoughRoom); }
      ghost var flat0 := Content();
      if rd == wr {
        OverSelf(flat0, rd, sz);
        SeekRd(sz, Fwd);
        SeekWr(sz, Fwd);
      } else if rd < wr < rd + sz {
        CopyIntoSelfFromEnd(sz);
      } else {
        CopyIntoSelfFromStart(sz);
      }
      r := Ok(());
    }

    /** Confines the read or the write pointer to newSz bytes from minPos on, as far as they exist. */
    method LimitTo(isRd: bool, minPos: nat, newSz: nat)
      requires Valid()
      modifies this`rd, this`rdMin, this`rdEnd, this`wr, this`wrMin, this`wrEnd
      ensures Valid() && Content() == old(Content())
      ensures var lo := Min(minPos, srcSz);
              var hi := Min(lo + newSz, srcSz);
              if isRd then rdMin == lo && rdEnd == hi && rd == Clamp(old(rd), lo, hi) && unchanged(`wr, `wrMin, `wrEnd)
              else wrMin == lo && wrEnd == hi && wr == Clamp(old(wr), lo, hi) && unchanged(`rd, `rdMin, `rdEnd)
    {
      var lo := if minPos > srcSz then srcSz else minPos;
      var end := srcSz;
      if newSz <= srcSz - lo {
        end := lo + newSz;
      }
      if isRd {
        rdMin, rdEnd := lo, end;
        if rd < rdMin { rd := rdMin; } else if rd > end { rd := end; }
      } else {
        wrMin, wrEnd := lo, end;
        if wr < wrMin { wr := wrMin; } else if wr > end { wr := end; }
      }
    }

    /** Copies sz bytes to another segment that shares no position with this one, 64 at a time. */
    method CopyInto(dst: IOSegment, sz: nat) returns (r: Outcome<()>)
      requires Valid() && dst.Valid() && dst != this && dst.sg != sg
      requires dst.arr == arr ==> Apart(dst.Pos(), Pos())
      modifies this`rd, dst`wr, dst.arr`buf, dst.sg`raw
      ensures Valid() && dst.Valid() && |dst.sg.raw| == |old(dst.sg.raw)|
      ensures Untouched(old(dst.arr.buf), dst.arr.buf, dst.Pos()) && Content() == old(Content())
      ensures r.Ok? <==> sz <= rdEnd - old(rd) && sz <= dst.wrEnd - old(dst.wr)
      ensures r.Throws? ==> rd == old(rd) && dst.wr == old(dst.wr) && dst.Content() == old(dst.Content())
      ensures r.Ok? ==> rd == old(rd) + sz && dst.wr == old(dst.wr) + sz
      ensures r.Ok? ==> dst.Content() == Over(old(dst.Content()), old(dst.wr), old(Content()[rd..rd + sz]))
    {
      hide Valid, Content, Over, Pulled, Untouched, Pos, Apart;
      Bounds();
      dst.Bounds();
      ghost var src, flat0, rd0, wr0, buf0 := Content(), dst.Content(), rd, dst.wr, dst.arr.buf;
      PullStart(src, flat0, rd0, wr0, buf0, dst.Pos());
      if rdEnd - rd < sz || dst.wrEnd - dst.wr < sz { return Throws(NotEnoughRoom); }
      var done: nat := 0;
      while done < sz
        invariant done <= sz && Valid() && dst.Valid() && |dst.sg.raw| == |old(dst.sg.raw)|
        invariant Untouched(buf0, dst.arr.buf, dst.Pos()) && Content() == src
        invariant rd == rd0 + done && dst.wr == wr0 + done
        invariant Pulled(src, flat0, dst.Content(), rd0, wr0, done)
      {
        var n := if TMP_BUF_SZ < sz - done then TMP_BUF_SZ else sz - done;
        PullMore(src, flat0, dst.Content(), rd0, wr0, done, n);
        PullChunk(dst, n, buf0);
        done := done + n;
      }
      PulledAll(src, flat0, dst.Content(), rd0, wr0, sz);
      r := Ok(());
    }

    method PullChunk(dst: IOSegment, n: nat, ghost buf0: seq<Byte>)
      requires Valid() && dst.Valid() && dst != this && dst.sg != sg && n <= rdEnd - rd && n <= dst.wrEnd - dst.wr
      requires dst.arr == arr ==> Apart(dst.Pos(), Pos())
      requires Untouched(buf0, dst.arr.buf, dst.Pos())
      modifies this`rd, dst`wr, dst.arr`buf, dst.sg`raw
      ensures Valid() && dst.Valid() && |dst.sg.raw| == |old(dst.sg.raw)|
      ensures Untouched(buf0, dst.arr.buf, dst.Pos()) && Content() == old(Content())
      ensures rd == old(rd) + n && dst.wr == old(dst.wr) + n
      ensures dst.Content() == Over(old(dst.Content()), old(dst.wr), old(Content()[rd..rd + n]))
    {
      hide Untouched, Over, At, Layout.Within, Apart, SegPos, DataSizes, Disjoint;
      MountedNow();
      var data := ReadAll(n);
      var w := dst.WriteAll(data.value);
      if dst.arr == arr {
        UntouchedElsewhere(old(arr.buf), arr.buf, dst.Pos(), Pos());
      }
      UntouchedThen(buf0, old(dst.arr.buf), dst.arr.buf, dst.Pos());
    }

    method CopyIntoSelfFromStart(sz: nat)
      requires Valid() && sz <= rdEnd - rd && sz <= wrEnd - wr && (wr <= rd || rd + sz <= wr)
      modifies this`rd, this`wr, arr`buf, sg`raw
      ensures Valid() && |sg.raw| == |old(sg.raw)| && Untouched(old(arr.buf), arr.buf, Pos())
      ensures rd == old(rd) + sz && wr == old(wr) + sz
      ensures Content() == Over(old(Content()), old(wr), old(Content()[rd..rd + sz]))
    {
      hide Valid, Content, Over, CopiedFront, Untouched, Pos;
      Bounds();
      ghost var flat0, rd0, wr0, buf0 := Content(), rd, wr, arr.buf;
      assert rd0 + sz <= |flat0| && wr0 + sz <= |flat0|;
      var done: nat := 0;
      CopyStart(flat0, rd0, wr0, buf0, Pos());
      while done < sz
        invariant done <= sz && Valid() && |sg.raw| == |old(sg.raw)| && Untouched(buf0, arr.buf, Pos())
        invariant rd == rd0 + done && wr == wr0 + done
        invariant CopiedFront(flat0, Content(), rd0, wr0, done)
      {
        var n := if TMP_BUF_SZ < sz - done then TMP_BUF_SZ else sz - done;
        CopyFrontMore(flat0, Content(), rd0, wr0, sz, done, n);
        CopyChunk(n, buf0);
        done := done + n;
      }
      CopiedAll(flat0, Content(), rd0, wr0, sz);
    }

    /** Reads n bytes into a buffer and writes them back at the write pointer. */
    method CopyChunk(n: nat, ghost buf0: seq<Byte>)
      requires Valid() && n <= rdEnd - rd && n <= wrEnd - wr && Untouched(buf0, arr.buf, Pos())
      modifies this`rd, this`wr, arr`buf, sg`raw
      ensures Valid() && |sg.raw| == |old(sg.raw)| && Untouched(buf0, arr.buf, Pos())
      ensures rd == old(rd) + n && wr == old(wr) + n
      ensures Content() == Over(old(Content()), old(wr), old(Content()[rd..rd + n]))
    {
      var data := ReadAll(n);
      var w := WriteAll(data.value);
    }

    /** Steps n bytes back, copies them, and steps back again. */
    method CopyChunkBack(n: nat, ghost buf0: seq<Byte>)
      requires Valid() && rdMin + n <= rd && wrMin + n <= wr && srcSz <= MAX_U32 && Untouched(buf0, arr.buf, Pos())
      modifies this`rd, this`wr, arr`buf, sg`raw
      ensures Valid() && |sg.raw| == |old(sg.raw)| && Untouched(buf0, arr.buf, Pos())
      ensures rd == old(rd) - n && wr == old(wr) - n
      ensures Content() == Over(old(Content()), wr, old(Content())[rd..rd + n])
    {
      hide Valid, Content, Over, Untouched, Pos;
      Bounds();
      SeekRd(n, Bwd);
      SeekWr(n, Bwd);
      CopyChunk(n, buf0);
      Bounds();
      SeekRd(n, Bwd);
      SeekWr(n, Bwd);
    }

    method CopyIntoSelfFromEnd(sz: nat)
      requires Valid() && sz <= rdEnd - rd && sz <= wrEnd - wr && rd < wr && srcSz <= MAX_U32
      modifies this`rd, this`wr, arr`buf, sg`raw
      ensures Valid() && |sg.raw| == |old(sg.raw)| && Untouched(old(arr.buf), arr.buf, Pos())
      ensures rd == old(rd) + sz && wr == old(wr) + sz
      ensures Content() == Over(old(Content()), old(wr), old(Content()[rd..rd + sz]))
    {
      hide Valid, Content, Over, CopiedBack, Untouched, Pos;
      Bounds();
      ghost var flat0, rd0, wr0, buf0 := Content(), rd, wr, arr.buf;
      SeekRd(sz, Fwd);
      SeekWr(sz, Fwd);
      var remain: nat := sz;
      CopyEndStart(flat0, rd0, wr0, sz, buf0, Pos());
      while 0 < remain
        invariant remain <= sz && Valid() && |sg.raw| == |old(sg.raw)| && Untouched(buf0, arr.buf, Pos())
        invariant rd == rd0 + remain && wr == wr0 + remain
        invariant CopiedBack(flat0, Content(), rd0, wr0, sz, remain)
      {
        var n := if TMP_BUF_SZ < remain then TMP_BUF_SZ else remain;
        CopyBackMore(flat0, Content(), rd0, wr0, sz, remain, n);
        CopyChunkBack(n, buf0);
        remain := remain - n;
      }
      SeekRd(sz, Fwd);
      SeekWr(sz, Fwd);
      CopiedAllBack(flat0, Content(), rd0, wr0, sz);
    }
  }

  /** Fills the extents of the segment, and its inline data if asked to, with one value. */
  method FillC(arr: BlockArray, sg: Segment, c: Byte, includeInline: bool)
    requires Mounted(arr, sg)
    modifies arr`buf, sg`raw
    ensures Mounted(arr, sg) && Untouched(old(arr.buf), arr.buf, SegPos(sg.exts, sg.blkSz)) && |sg.raw| == |old(sg.raw)|
    ensures forall x :: x in SegPos(sg.exts, sg.blkSz) ==> x < |arr.buf| && arr.buf[x] == c
    ensures sg.raw == if includeInline then Repeat(c, |sg.raw|) else old(sg.raw)
  {
    var io := new IOSegment(arr, sg);
    var sz := io.wrEnd - io.wr;
    if !includeInline {
      sz := sz - |sg.raw|;
    }
    ghost var flat0 := io.Content();
    io.MountedNow();
    var r := io.Fill(c, sz);
    io.MountedNow();
    FilledFlat(old(arr.buf), arr.buf, io.Pos(), old(sg.raw), sg.raw, c, sz);
  }

  lemma {:induction false} FilledFlat(buf0: seq<Byte>, buf: seq<Byte>, pos: seq<nat>, raw0: seq<Byte>, raw: seq<Byte>,
      c: Byte, sz: nat)
    requires Layout.Within(pos, |buf0|) && Layout.Within(pos, |buf|) && |pos| <= sz <= |pos| + |raw0| && |raw| == |raw0|
    requires Flat(buf, pos, raw) == Over(Flat(buf0, pos, raw0), 0, Repeat(c, sz))
    ensures forall x :: x in pos ==> x < |buf| && buf[x] == c
    ensures sz == |pos| ==> raw == raw0
    ensures sz == |pos| + |raw0| ==> raw == Repeat(c, |raw|)
  {
    var flat := Flat(buf, pos, raw);
    forall x | x in pos
      ensures x < |buf| && buf[x] == c
    {
      var k :| 0 <= k < |pos| && pos[k] == x;
      assert flat[k] == buf[x] && flat[k] == c;
    }
    assert raw == flat[|pos|..];
  }

  // ---------------------------------------------------------------------------------------------
  // Bytes saved from a segment and written to another
  // ---------------------------------------------------------------------------------------------

  /** The one string of bytes that a segment holds. */
  ghost function FlatOf(arr: BlockArray, sg: Segment): (flat: seq<Byte>)
    requires Mounted(arr, sg)
    reads arr, sg
    ensures |flat| == sg.DataSpaceSize()
  {
    MountedPositions(arr, sg);
    Flat(arr.buf, SegPos(sg.exts, sg.blkSz), sg.raw)
  }

  /** Reads n bytes that begin `back` bytes before the end. */
  method Save(arr: BlockArray, sg: Segment, back: nat, n: nat) returns (saved: seq<Byte>)
    requires Mounted(arr, sg) && n <= back <= sg.DataSpaceSize() <= MAX_U32
    ensures saved == FlatOf(arr, sg)[sg.DataSpaceSize() - back..sg.DataSpaceSize() - back + n]
  {
    hide Mounted, Flat;
    var io := new IOSegment(arr, sg);
    io.MountedNow();
    io.SeekRd(back, EndOf);
    io.Bounds();
    var r := io.ReadAll(n);
    saved := r.value;
  }

  /** Reads n bytes from position at on. */
  method ReadFrom(arr: BlockArray, sg: Segment, at: nat, n: nat) returns (data: seq<Byte>)
    requires Mounted(arr, sg) && at + n <= sg.DataSpaceSize() <= MAX_U32
    ensures data == FlatOf(arr, sg)[at..at + n]
  {
    hide Mounted, Flat;
    var io := new IOSegment(arr, sg);
    io.MountedNow();
    io.SeekRd(at, Beg);
    io.Bounds();
    var r := io.ReadAll(n);
    data := r.value;
  }

  /** Writes the bytes from position at on. */
  method Restore(arr: BlockArray, sg: Segment, at: nat, saved: seq<Byte>)
    requires Mounted(arr, sg) && at + |saved| <= sg.DataSpaceSize() <= MAX_U32
    modifies arr`buf, sg`raw
    ensures Mounted(arr, sg) && |sg.raw| == |old(sg.raw)| && Untouched(old(arr.buf), arr.buf, SegPos(sg.exts, sg.blkSz))
    ensures FlatOf(arr, sg) == Over(old(FlatOf(arr, sg)), at, saved)
  {
    hide Flat, Over, Untouched;
    var io := new IOSegment(arr, sg);
    io.MountedNow();
    io.SeekWr(at, Beg);
    io.Bounds();
    var r := io.WriteAll(saved);
    io.MountedNow();
  }

  /** Copies n bytes from position at to the end of the segment. */
  method CopyToEnd(arr: BlockArray, sg: Segment, at: nat, n: nat)
    requires Mounted(arr, sg) && at + n <= sg.DataSpaceSize() <= MAX_U32
    modifies arr`buf, sg`raw
    ensures Mounted(arr, sg) && |sg.raw| == |old(sg.raw)| && Untouched(old(arr.buf), arr.buf, SegPos(sg.exts, sg.blkSz))
    ensures var flat0 := old(FlatOf(arr, sg)); FlatOf(arr, sg) == Over(flat0, |flat0| - n, flat0[at..at + n])
  {
    hide Untouched, Over, FlatOf, Mounted, IOSegment.Content, IOSegment.Valid, IOSegment.Pos, SegPos;
    var io := new IOSegment(arr, sg);
    io.View();
    io.SeekRd(at, Beg);
    io.SeekWr(n, EndOf);
    io.View();
    var r := io.CopyIntoSelf(n);
    io.View();
  }

  /** Copies n bytes that begin `back` bytes before the end of one segment to the position at of another. */
  method CopyAcross(arr: BlockArray, src: Segment, back: nat, dst: Segment, at: nat, n: nat)
    requires Mounted(arr, src) && Mounted(arr, dst) && src != dst
        && Apart(SegPos(dst.exts, dst.blkSz), SegPos(src.exts, src.blkSz))
    requires n <= back <= src.DataSpaceSize() <= MAX_U32 && at + n <= dst.DataSpaceSize() <= MAX_U32
    modifies arr`buf, dst`raw
    ensures Mounted(arr, src) && Mounted(arr, dst) && |dst.raw| == |old(dst.raw)|
    ensures Untouched(old(arr.buf), arr.buf, SegPos(dst.exts, dst.blkSz)) && FlatOf(arr, src) == old(FlatOf(arr, src))
    ensures var from := src.DataSpaceSize() - back;
            FlatOf(arr, dst) == Over(old(FlatOf(arr, dst)), at, old(FlatOf(arr, src))[from..from + n])
  {
    hide Untouched, Over, FlatOf, Mounted, IOSegment.Content, IOSegment.Valid, IOSegment.Pos, SegPos, Apart;
    ghost var srcFlat, dstFlat := FlatOf(arr, src), FlatOf(arr, dst);
    var srcIo := new IOSegment(arr, src);
    var dstIo := new IOSegment(arr, dst);
    srcIo.SeekRd(back, EndOf);
    dstIo.SeekWr(at, Beg);
    srcIo.View();
    dstIo.View();
    ghost var rd := srcIo.rd;
    assert srcIo.Content() == srcFlat && dstIo.Content() == dstFlat;
    var r := srcIo.CopyInto(dstIo, n);
    assert dstIo.Content() == Over(dstFlat, at, srcFlat[rd..rd + n]);
    srcIo.View();
    dstIo.View();
  }

  const TMP_BUF_SZ := 64

  function Repeat(c: Byte, n: nat): (s: seq<Byte>)
    ensures |s| == n && forall i :: 0 <= i < n ==> s[i] == c
  {
    seq(n, _ => c)
  }

  ghost predicate Filled(flat0: seq<Byte>, flat: seq<Byte>, at: nat, c: Byte, n: nat) {
    at + n <= |flat0| && flat == Over(flat0, at, Repeat(c, n))
  }

  lemma {:induction false} FillStart(flat0: seq<Byte>, at: nat, c: Byte, buf: seq<Byte>, pos: seq<nat>)
    ensures Untouched(buf, buf, pos)
    ensures at <= |flat0| ==> Filled(flat0, flat0, at, c, 0)
  {
  }

  lemma {:induction false} FillMore(flat0: seq<Byte>, flat: seq<Byte>, at: nat, c: Byte, n: nat, m: nat)
    requires Filled(flat0, flat, at, c, n) && at + n + m <= |flat0|
    ensures |flat| == |flat0| && Filled(flat0, Over(flat, at + n, Repeat(c, m)), at, c, n + m)
  {
    OverThen(flat0, at, Repeat(c, n), Repeat(c, m));
    assert Repeat(c, n) + Repeat(c, m) == Repeat(c, n + m);
  }

  lemma {:induction false} FilledAll(flat0: seq<Byte>, flat: seq<Byte>, at: nat, c: Byte, n: nat)
    requires Filled(flat0, flat, at, c, n)
    ensures at + n <= |flat0| && flat == Over(flat0, at, Repeat(c, n))
  {
  }

  lemma {:induction false} OverSelf(flat: seq<Byte>, at: nat, sz: nat)
    requires at + sz <= |flat|
    ensures Over(flat, at, flat[at..at + sz]) == flat
  {
  }

  // -- moving bytes within one string: the first `done`, or all but the first `remain`, have been copied --

  ghost predicate CopiedFront(flat0: seq<Byte>, flat: seq<Byte>, rd: nat, wr: nat, done: nat) {
    rd + done <= |flat0| && wr + done <= |flat0| && flat == Over(flat0, wr, flat0[rd..rd + done])
  }

  ghost predicate CopiedBack(flat0: seq<Byte>, flat: seq<Byte>, rd: nat, wr: nat, sz: nat, remain: nat) {
    && remain <= sz && rd + sz <= |flat0| && wr + sz <= |flat0|
    && flat == Over(flat0, wr + remain, flat0[rd + remain..rd + sz])
  }

  lemma {:induction false} CopyStart(flat0: seq<Byte>, rd: nat, wr: nat, buf: seq<Byte>, pos: seq<nat>)
    ensures Untouched(buf, buf, pos)
    ensures rd <= |flat0| && wr <= |flat0| ==> CopiedFront(flat0, flat0, rd, wr, 0)
  {
  }

  lemma {:induction false} CopiedAll(flat0: seq<Byte>, flat: seq<Byte>, rd: nat, wr: nat, sz: nat)
    requires CopiedFront(flat0, flat, rd, wr, sz)
    ensures rd + sz <= |flat0| && wr + sz <= |flat0| && flat == Over(flat0, wr, flat0[rd..rd + sz])
  {
  }

  lemma {:induction false} CopiedAllBack(flat0: seq<Byte>, flat: seq<Byte>, rd: nat, wr: nat, sz: nat)
    requires CopiedBack(flat0, flat, rd, wr, sz, 0)
    ensures rd + sz <= |flat0| && wr + sz <= |flat0| && flat == Over(flat0, wr, flat0[rd..rd + sz])
  {
  }

  /** Copying upwards, the next chunk is still the original one, unless the target starts within the source. */
  lemma {:induction false} CopyFrontMore(flat0: seq<Byte>, flat: seq<Byte>, rd: nat, wr: nat, sz: nat, done: nat,
      n: nat)
    requires CopiedFront(flat0, flat, rd, wr, done) && done + n <= sz && rd + sz <= |flat0| && wr + sz <= |flat0|
    requires wr <= rd || rd + sz <= wr
    ensures |flat| == |flat0|
        && CopiedFront(flat0, Over(flat, wr + done, flat[rd + done..rd + done + n]), rd, wr, done + n)
  {
    assert flat[rd + done..rd + done + n] == flat0[rd + done..rd + done + n];
    OverThen(flat0, wr, flat0[rd..rd + done], flat0[rd + done..rd + done + n]);
    JoinSlices(flat0, rd, done, n);
  }

  // -- copying bytes from one string to another: the first `done` have been copied --

  ghost predicate Pulled(src: seq<Byte>, flat0: seq<Byte>, flat: seq<Byte>, rd: nat, wr: nat, done: nat) {
    rd + done <= |src| && wr + done <= |flat0| && flat == Over(flat0, wr, src[rd..rd + done])
  }

  lemma {:induction false} PullStart(src: seq<Byte>, flat0: seq<Byte>, rd: nat, wr: nat, buf: seq<Byte>, pos: seq<nat>)
    ensures Untouched(buf, buf, pos)
    ensures rd <= |src| && wr <= |flat0| ==> Pulled(src, flat0, flat0, rd, wr, 0)
  {
  }

  lemma {:induction false} PullMore(src: seq<Byte>, flat0: seq<Byte>, flat: seq<Byte>, rd: nat, wr: nat, done: nat,
      n: nat)
    requires Pulled(src, flat0, flat, rd, wr, done) && rd + done + n <= |src| && wr + done + n <= |flat0|
    ensures |flat| == |flat0|
        && Pulled(src, flat0, Over(flat, wr + done, src[rd + done..rd + done + n]), rd, wr, done + n)
  {
    OverThen(flat0, wr, src[rd..rd + done], src[rd + done..rd + done + n]);
    JoinSlices(src, rd, done, n);
  }

  lemma {:induction false} PulledAll(src: seq<Byte>, flat0: seq<Byte>, flat: seq<Byte>, rd: nat, wr: nat, sz: nat)
    requires Pulled(src, flat0, flat, rd, wr, sz)
    ensures rd + sz <= |src| && wr + sz <= |flat0| && flat == Over(flat0, wr, src[rd..rd + sz])
  {
  }

  lemma {:induction false} UntouchedThen(b0: seq<Byte>, b1: seq<Byte>, b2: seq<Byte>, pos: seq<nat>)
    requires Untouched(b0, b1, pos) && Untouched(b1, b2, pos)
    ensures Untouched(b0, b2, pos)
  {
  }

  lemma {:induction false} UntouchedElsewhere(buf0: seq<Byte>, buf: seq<Byte>, pos: seq<nat>, other: seq<nat>)
    requires Untouched(buf0, buf, pos) && Apart(pos, other) && Layout.Within(other, |buf0|)
    ensures At(buf, other) == At(buf0, other)
  {
    forall k | 0 <= k < |other|
      ensures buf[other[k]] == buf0[other[k]]
    {
      assert other[k] !in pos;
    }
  }

  lemma {:induction false} CopyEndStart(flat0: seq<Byte>, rd: nat, wr: nat, sz: nat, buf: seq<Byte>, pos: seq<nat>)
    ensures Untouched(buf, buf, pos)
    ensures rd + sz <= |flat0| && wr + sz <= |flat0| ==> CopiedBack(flat0, flat0, rd, wr, sz, sz)
  {
  }

  /** Copying downwards, the next chunk is still the original one if the target lies above the source. */
  lemma {:induction false} CopyBackMore(flat0: seq<Byte>, flat: seq<Byte>, rd: nat, wr: nat, sz: nat, remain: nat,
      n: nat)
    requires CopiedBack(flat0, flat, rd, wr, sz, remain) && n <= remain && rd < wr
    ensures |flat| == |flat0|
    ensures var at := remain - n;
            CopiedBack(flat0, Over(flat, wr + at, flat[rd + at..rd + remain]), rd, wr, sz, at)
  {
    var at := remain - n;
    assert flat[rd + at..rd + remain] == flat0[rd + at..rd + remain];
    JoinSlices(flat0, rd + at, n, sz - remain);
    OverBefore(flat0, wr + at, flat0[rd + at..rd + remain], flat0[rd + remain..rd + sz]);
  }

  lemma {:induction false} OverBefore(flat: seq<Byte>, start: nat, piece: seq<Byte>, data: seq<Byte>)
    requires start + |piece| + |data| <= |flat|
    ensures Over(Over(flat, start + |piece|, data), start, piece) == Over(flat, start, piece + data)
  {
  }

  /** A write that has room for everything writes everything. */
  lemma {:induction false} WrittenAll(buf0: seq<Byte>, buf: seq<Byte>, pos: seq<nat>, start: nat, data: seq<Byte>,
      n: nat, usable: nat)
    requires data != [] && start + |data| <= usable == |pos| && n == Avail(usable, Min(|data|, |data|), start)
    requires IsWritten(buf0, buf, pos, start, data[..n])
    ensures n == |data| && |buf| == |buf0| && Patched(buf0, buf, pos[start..start + |data|], data)
  {
    assert data[..|data|] == data;
  }

  lemma {:induction false} UptoMore(buf0: seq<Byte>, buf: seq<Byte>, pos: seq<nat>, start: nat, data: seq<Byte>,
      done: nat, n: nat)
    requires done + n <= |data| && IsWritten(buf0, buf, pos, start, data[..done] + data[done..done + n])
    ensures WrittenUpto(buf0, buf, pos, start, data, done + n)
  {
    assert data[..done] + data[done..done + n] == data[..done + n];
  }
}
