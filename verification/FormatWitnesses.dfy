/** Stored forms written out word by word (xoz/segm/segment.cpp, xoz/dsc/descriptor.cpp). */
module FormatWitnesses {
  import opened Outcomes
  import opened Extents
  import opened InetChecksum
  import opened SegmentCodec
  import opened DescriptorCodec

  /** The words of a struct that has room. */
  method WordsOfStruct(s: Struct, ghost code: seq<Word>) returns (ws: seq<Word>)
    requires WellKept(s) && Encodable(s) && Encode(s) == code && |code| <= 16
    ensures ws == code
  {
    hide Encode, LaidOut, WellKept, Encodable;
    var r := WriteStruct(s, 32);
    ws := r.value.0;
  }

  /** A far extent with a count: header, low half of the block number, count. */
  method FarCount() returns (ws: seq<Word>)
    ensures ws == [0x0000, 0x03e8, 0x0014]
  {
    ws := WordsOfStruct(Struct([Full(1000, 20)], false, []), [0x0000, 0x03e8, 0x0014]);
  }

  /** A far extent beyond block 65535 with a small count: both are in the header. */
  method FarSmallCount() returns (ws: seq<Word>)
    ensures ws == [0x1801, 0x1170]
  {
    ws := WordsOfStruct(Struct([Full(70000, 3)], false, []), [0x1801, 0x1170]);
  }

  /** A near extent 5 blocks behind the end of the one before, and one 6 blocks ahead of it. */
  method NearForwards() returns (ws: seq<Word>)
    ensures ws == [0x0000, 0x03e8, 0x0014, 0x1405]
  {
    var s := Struct([Full(1000, 20), Full(1025, 2)], false, []);
    TwoExtents(Full(1000, 20), Full(1025, 2));
    ws := WordsOfStruct(s, [0x0000, 0x03e8, 0x0014, 0x1405]);
  }

  method NearBackwards() returns (ws: seq<Word>)
    ensures ws == [0x0000, 0x03e8, 0x0014, 0x2606]
  {
    var s := Struct([Full(1000, 20), Full(990, 4)], false, []);
    TwoExtents(Full(1000, 20), Full(990, 4));
    ws := WordsOfStruct(s, [0x0000, 0x03e8, 0x0014, 0x2606]);
  }

  /** A suballocated extent: header, low half of the block number, bitmap. */
  method FarBitmap() returns (ws: seq<Word>)
    ensures ws == [0x8000, 0x03e8, 0x8001]
  {
    hide BitmapWord;
    BitmapEnds();
    ws := WordsOfStruct(Struct([Sub(1000, {0, 15})], false, []), [0x8000, 0x03e8, 0x8001]);
  }

  /** Three inline bytes: the last is in the header, the others in a word, the first one low. */
  method InlineBytes() returns (ws: seq<Word>)
    ensures ws == [0xc363, 0x6261]
  {
    ws := WordsOfStruct(Struct([], true, [0x61, 0x62, 0x63]), [0xc363, 0x6261]);
  }

  lemma {:induction false} TwoExtents(a: Extent, b: Extent)
    ensures [a, b][1..] == [b]
  {
  }

  lemma {:induction false} BitmapEnds()
    ensures BitmapWord({0, 15}) == 0x8001
  {
    OnlyFirst(15);
    SixteenBits();
    assert ToNumber({0, 15}, 16) == ToNumber({0, 15}, 15) + Pow2(15);
  }

  lemma {:induction false} OnlyFirst(n: nat)
    requires 0 < n <= 15
    ensures ToNumber({0, 15}, n) == 1
  {
    if n == 1 {
      assert ToNumber({0, 15}, 0) == 0;
    } else {
      OnlyFirst(n - 1);
    }
  }

  /** The words of the first are read as it was, and not with the count for the block number. */
  method FarCountBack() returns (r: Outcome<Parsed>)
    ensures r == Ok(Parsed([Full(1000, 20)], false, [], 3))
  {
    var checksum;
    ghost var ws: seq<Word> := [0x0000, 0x03e8, 0x0014];
    assert DecodeItem(START, ws) == Ext(Full(1000, 20), 3) && ws[3..] == [];
    assert [Full(1000, 20)] + [] == [Full(1000, 20)];
    assert Decode(Full(1000, 20), [], MAX_LEN - 1) == Ok(Parsed([], false, [], 0));
    assert Decode(START, ws, MAX_LEN) == Before(Full(1000, 20), 3, Decode(Full(1000, 20), ws[3..], MAX_LEN - 1));
    r, checksum := ReadStruct([0x0000, 0x03e8, 0x0014], IOEnd);
  }

  /** A persistent id: first field, low half, high half. */
  method PersistentId() returns (ws: seq<Word>)
    ensures ws == [0x0201, 0x0005, 0x0000]
  {
    var r := WriteDsc(Dsc(1, Persistent(5), [], []), 512, 6);
    ws := r.value;
  }

  method PersistentIdBack() returns (r: Outcome<seq<Dsc>>)
    ensures r == Ok([Dsc(1, Persistent(5), [], [])])
  {
    ghost var ws: seq<Word> := [0x0201, 0x0005, 0x0000];
    OneField(ws);
    assert [Dsc(1, Persistent(5), [], [])] + [] == [Dsc(1, Persistent(5), [], [])];
    assert DecodeStream(ws[3..], {5}, 512) == Ok([]);
    assert DecodeStream(ws, {}, 512) == Following([Dsc(1, Persistent(5), [], [])], DecodeStream(ws[3..], {5}, 512));
    r := LoadStream([0x0201, 0x0005, 0x0000], {}, 512);
  }

  lemma {:induction false} OneField(ws: seq<Word>)
    requires ws == [0x0201, 0x0005, 0x0000]
    ensures DecodeDsc(ws, {}, 512) == Ok(Got(Dsc(1, Persistent(5), [], []), 3)) && ws[3..] == []
    ensures WithId({}, Persistent(5)) == {5}
  {
    assert ws[1..] == [0x0005, 0x0000];
    assert !OwnsContent(ws[0]) && HasIdFlag(ws[0]) && LoSize(ws[0]) == 0 && TypeField(ws[0]) == 1;
    assert DecodeId(ws[1..], ws[0]) == Ok(Got((5, 0), 2));
    assert DecodeContent(ws[3..], ws[0]) == Ok(Got([], 0)) && DecodeType(ws[3..], ws[0]) == Ok(Got(1, 0));
    assert ws[3..3] == [];
  }

  /** All fields: first field, id, parts less one, size, inline bytes, extended type, internal data. */
  method AllFields() returns (ws: seq<Word>)
    ensures ws == [0x87ff, 0x2345, 0x0001, 0x0000, 0x0003, 0xc363, 0x6261, 0x01ff, 0x0007]
  {
    var part := Part(3, Struct([], true, [0x61, 0x62, 0x63]));
    var d := Dsc(0x1ff, Persistent(0x12345), [part], [7]);
    assert [part][..1] == [part] && GoodPart(part, 512);
    assert EncodeParts([part], 512) == [0x0003, 0xc363, 0x6261];
    var r := WriteDsc(d, 512, 18);
    ws := r.value;
  }
}
