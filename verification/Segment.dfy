/** Segments: a list of extents, then optionally bytes stored inline (xoz/segm/segment.h, xoz/segm/segment.cpp). */
module Segments {
  import opened Outcomes
  import opened Extents
  import opened Layout

  const MAX_INLINE_SIZE := 63

  /** What an allocator hands out and takes back: which extents, and how many bytes are inline. */
  datatype Holding = Holding(exts: seq<Extent>, inlineSz: nat)

  class Segment {
    const blkSz: nat

    var exts: seq<Extent>
    var inlinePresent: bool
    var endMarker: bool
    var raw: seq<Byte>

    ghost predicate Valid()
      reads this
    {
      !inlinePresent ==> raw == []
    }

    constructor (blkSz: nat)
      ensures Valid() && this.blkSz == blkSz && exts == [] && raw == [] && !inlinePresent && !endMarker
    {
      this.blkSz := blkSz;
      exts, inlinePresent, endMarker, raw := [], false, false, [];
    }

    constructor Copy(other: Segment)
      requires other.Valid()
      ensures Valid() && blkSz == other.blkSz && View() == other.View() && raw == other.raw
    {
      this.blkSz := other.blkSz;
      exts, inlinePresent, endMarker, raw := other.exts, other.inlinePresent, other.endMarker, other.raw;
    }

    ghost function View(): Holding
      reads this
    {
      Holding(exts, |raw|)
    }

    /** The bytes that the segment can store: its extents and its inline data. */
    function DataSpaceSize(): nat
      reads this
    {
      DataSizes(exts, blkSz) + |raw|
    }

    predicate HasEndOfSegment()
      reads this
    {
      inlinePresent || endMarker
    }

    method ReserveInlineData(len: nat)
      requires Valid()
      modifies this`raw, this`inlinePresent
      ensures Valid() && inlinePresent && |raw| == len
      ensures len <= |old(raw)| ==> raw == old(raw)[..len]
      ensures |old(raw)| <= len ==> raw[..|old(raw)|] == old(raw)
    {
      inlinePresent := true;
      raw := if len <= |raw| then raw[..len] else raw + seq(len - |raw|, _ => 0);
    }

    method RemoveInlineData()
      modifies this`raw, this`inlinePresent
      ensures Valid() && !inlinePresent && raw == []
    {
      inlinePresent, raw := false, [];
    }

    method RemoveEndOfSegment() returns (r: Outcome<()>)
      modifies this`endMarker
      ensures r.Throws? <==> inlinePresent
      ensures endMarker == (inlinePresent && old(endMarker))
    {
      if inlinePresent { return Throws(BadRequest); }
      endMarker := false;
      r := Ok(());
    }

    method AddEndOfSegment()
      modifies this`endMarker
      ensures endMarker
    {
      endMarker := true;
    }

    /** No extents and no inline data; an end marker stays. */
    method Clear()
      modifies this`exts, this`raw, this`inlinePresent
      ensures Valid() && exts == [] && raw == [] && !inlinePresent
    {
      RemoveInlineData();
      exts := [];
    }

    method AddExtent(ext: Extent) returns (r: Outcome<()>)
      modifies this`exts
      ensures r.Throws? <==> inlinePresent
      ensures exts == if inlinePresent then old(exts) else old(exts) + [ext]
    {
      if inlinePresent { return Throws(BadRequest); }
      exts := exts + [ext];
      r := Ok(());
    }

    /** Appends the extents of the other segment and takes its inline data. */
    method Extend(other: Segment) returns (r: Outcome<()>)
      requires Valid() && other.Valid() && other != this
      modifies this`exts, this`raw, this`inlinePresent
      ensures Valid()
      ensures r.Throws? <==> old(inlinePresent)
      ensures r.Throws? ==> unchanged(this)
      ensures r.Ok? ==> exts == old(exts) + other.exts && raw == other.raw && inlinePresent == other.inlinePresent
    {
      if inlinePresent { return Throws(BadRequest); }
      exts := exts + other.exts;
      raw := other.raw;
      inlinePresent := other.inlinePresent;
      r := Ok(());
    }

    method RemoveLastExtent() returns (r: Outcome<()>)
      requires exts != []
      modifies this`exts
      ensures r.Throws? <==> inlinePresent
      ensures exts == if inlinePresent then old(exts) else old(exts)[..|old(exts)| - 1]
    {
      if inlinePresent { return Throws(BadRequest); }
      exts := exts[..|exts| - 1];
      r := Ok(());
    }
  }
}
