/** Allocation at the tail of the block array, by growing and shrinking it (xoz/alloc/tail_allocator.cpp). */
module TailAllocators {
  import opened Outcomes
  import opened Extents
  import opened BlockArrays

  class TailAllocator {
    const arr: BlockArray

    constructor (arr: BlockArray)
      ensures this.arr == arr
    {
      this.arr := arr;
    }

    /** New blocks at the end of the array. */
    method Alloc(cnt: nat) returns (r: Outcome<Extent>)
      requires arr.Valid() && cnt <= MAX_BLK_CNT
      modifies arr
      ensures arr.Valid()
      ensures r.Ok? <==> 0 < cnt && old(arr.CanGrow(cnt))
      ensures r.Throws? ==> unchanged(arr) && r.error == if cnt == 0 then ZeroBlocks else BlockNumbersExhausted
      ensures r.Ok? ==>
                && r.value == Full(old(arr.pastEnd), cnt) && arr.pastEnd == old(arr.pastEnd) + cnt
                && old(arr.buf) <= arr.buf && old(arr.realEnd) <= arr.realEnd
    {
      if cnt == 0 { return Throws(ZeroBlocks); }
      var nr := arr.GrowByBlocks(cnt);
      if nr.Throws? { return Throws(nr.error); }
      r := Ok(Full(nr.value, cnt));
    }

    /** Whether the extent is the last of the array; throws if it does not lie within it. */
    method IsAtTheEnd(ext: Extent) returns (r: Outcome<bool>)
      requires arr.Valid()
      ensures r == if ext.Sub? || ext.cnt == 0 then Throws(NotFullExtent)
                   else if !arr.WithinBoundaries(ext) then Throws(ExtentOutOfBounds)
                   else Ok(ext.PastEnd() == arr.pastEnd)
    {
      if ext.Sub? || ext.cnt == 0 { return Throws(NotFullExtent); }
      if !arr.WithinBoundaries(ext) { return Throws(ExtentOutOfBounds); }
      r := Ok(ext.PastEnd() == arr.pastEnd);
    }

    /** Gives the extent back to the array if it is the last one; undoes Alloc. */
    method Dealloc(ext: Extent) returns (r: Outcome<bool>)
      requires arr.Valid()
      modifies arr
      ensures arr.Valid()
      ensures r.Throws? <==> ext.Sub? || ext.cnt == 0 || !old(arr.WithinBoundaries(ext))
      ensures r.Ok? ==> r.value == (ext.PastEnd() == old(arr.pastEnd))
      ensures r == Ok(true) ==> arr.pastEnd == ext.nr && arr.buf <= old(arr.buf)
      ensures r != Ok(true) ==> unchanged(arr)
    {
      r := IsAtTheEnd(ext);
      if r == Ok(true) {
        var s := arr.ShrinkByBlocks(ext.cnt);
      }
    }

    method Release()
      requires arr.Valid()
      modifies arr
      ensures arr.Valid() && arr.pastEnd == arr.realEnd == old(arr.pastEnd) && arr.buf <= old(arr.buf)
    {
      var cnt := arr.ReleaseBlocks();
    }

    method Reset()
      requires arr.Valid()
      modifies arr
      ensures arr.Valid() && arr.pastEnd == arr.realEnd == arr.begin && arr.buf <= old(arr.buf)
    {
      if arr.BlkCnt() != 0 {
        var s := arr.ShrinkByBlocks(arr.BlkCnt());
      }
      Release();
    }
  }
}
