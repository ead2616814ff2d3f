/**
 * How a segment is stored: 16-bit words, near or far from one extent to the next (xoz/segm/segment.cpp,
 * xoz/segm/internals.h).
 */
module SegmentCodec {
  import opened Outcomes
  import opened Extents
  import opened Layout
  import opened InetChecksum
  import opened Segments

  const MAX_LEN := 0xffff_ffff

  /** What the operator == of segments compares; `ended` if inline data or an end marker follows the extents. */
  datatype Struct = Struct(exts: seq<Extent>, ended: bool, raw: seq<Byte>)

  // ---------------------------------------------------------------------------------------------
  // Bitmaps as words
  // ---------------------------------------------------------------------------------------------

  function Pow2(n: nat): (p: nat)
    ensures p > 0
  {
    if n == 0 then 1 else 2 * Pow2(n - 1)
  }

  /** The value of the bits below n. */
  function ToNumber(bits: Bitmap, n: nat): (w: nat)
    ensures w < Pow2(n)
  {
    if n == 0 then 0 else ToNumber(bits, n - 1) + if n - 1 in bits then Pow2(n - 1) else 0
  }

  function FromNumber(w: nat, n: nat): (bits: Bitmap)
    requires n <= 16 && w < Pow2(n)
    ensures forall b :: b in bits ==> b < n
  {
    if n == 0 then {}
    else if w >= Pow2(n - 1) then {n - 1} + FromNumber(w - Pow2(n - 1), n - 1)
    else FromNumber(w, n - 1)
  }

  lemma {:induction false} NumberOfBits(bits: Bitmap, n: nat)
    requires n <= 16
    ensures FromNumber(ToNumber(bits, n), n) == Upto(bits, n)
  {
    if n == 0 {
      assert Upto(bits, 0) == {};
    } else {
      NumberOfBits(bits, n - 1);
      assert Upto(bits, n) == (if n - 1 in bits then {n - 1} else {}) + Upto(bits, n - 1);
    }
  }

  lemma {:induction false} SixteenBits()
    ensures Pow2(16) == 0x1_0000
  {
    assert Pow2(4) == 16 && Pow2(8) == 256 && Pow2(12) == 4096;
  }

  function BitmapWord(bits: Bitmap): Word {
    SixteenBits();
    ToNumber(bits, 16)
  }

  function WordBitmap(w: Word): Bitmap {
    SixteenBits();
    FromNumber(w, 16)
  }

  lemma {:induction false} BitmapRoundTrip(bits: Bitmap)
    ensures WordBitmap(BitmapWord(bits)) == bits
  {
    SixteenBits();
    NumberOfBits(bits, 16);
    assert Upto(bits, 16) == bits;
  }

  // ---------------------------------------------------------------------------------------------
  // Headers
  // ---------------------------------------------------------------------------------------------

  const SMALLCNT_MAX := 15

  /** Bit 15: suballocated; bits 14 to 11: small count; bits 10 to 0: near jump or high part of the block number. */
  function ExtHeader(isSub: bool, smallCnt: nat, low: nat): Word
    requires smallCnt <= SMALLCNT_MAX && low < 0x800
  {
    (if isSub then 0x8000 else 0) + smallCnt * 0x800 + low
  }

  /** Bits 15 and 14 set; bits 13 to 8: size; bits 7 to 0: the last byte if the size is odd. */
  function EndHeader(sz: nat, last: Byte): Word
    requires sz <= MAX_INLINE_SIZE
  {
    0xc000 + sz * 0x100 + last
  }

  function Top(h: Word): (t: nat) { h / 0x800 }
  function Low(h: Word): (l: nat) { h % 0x800 }

  predicate IsSub(h: Word) { Top(h) / 16 == 1 }
  predicate IsInline(h: Word) { Top(h) / 8 % 2 == 1 }
  function SmallCnt(h: Word): nat { Top(h) % 16 }
  predicate IsNear(h: Word) { Low(h) / 0x400 == 1 }
  function HiBlkNr(h: Word): nat { Low(h) % 0x400 }
  predicate IsBackward(h: Word) { Low(h) % 0x400 / 0x200 == 1 }
  function JumpOffset(h: Word): nat { Low(h) % 0x200 }
  function InlineSz(h: Word): nat { h / 0x100 % 64 }
  function InlineLast(h: Word): Byte { h % 0x100 }

  lemma {:induction false} TopAndLow(h: Word, t: nat, l: nat)
    requires h == t * 0x800 + l && l < 0x800
    ensures Top(h) == t && Low(h) == l
  {
  }

  lemma {:induction false} HeaderFields(isSub: bool, smallCnt: nat, low: nat)
    requires smallCnt <= SMALLCNT_MAX && low < 0x800 && (isSub ==> smallCnt == 0)
    ensures var h := ExtHeader(isSub, smallCnt, low);
            IsSub(h) == isSub && SmallCnt(h) == smallCnt && !(IsSub(h) && IsInline(h)) && Low(h) == low
  {
    TopAndLow(ExtHeader(isSub, smallCnt, low), (if isSub then 16 else 0) + smallCnt, low);
    hide Top, Low;
  }

  lemma {:induction false} LowFields(low: nat, jump: nat, backwards: bool)
    requires jump < 0x200 && low == 0x400 + (if backwards then 0x200 else 0) + jump
    ensures low < 0x800 && low / 0x400 == 1 && (low % 0x400 / 0x200 == 1) == backwards && low % 0x200 == jump
  {
  }

  lemma {:induction false} EndHeaderFields(sz: nat, last: Byte)
    requires sz <= MAX_INLINE_SIZE
    ensures var h := EndHeader(sz, last);
            IsSub(h) && IsInline(h) && InlineSz(h) == sz && InlineLast(h) == last
  {
    var h := EndHeader(sz, last);
    TopAndLow(h, 24 + sz / 8, sz % 8 * 0x100 + last);
  }

  // ---------------------------------------------------------------------------------------------
  // Writing
  // ---------------------------------------------------------------------------------------------

  /** What the fields of an extent can hold. */
  predicate Writable(e: Extent) {
    e.nr <= MAX_BLK_NR && e.Span() <= MAX_BLK_CNT
  }

  function SmallCntOf(e: Extent): (n: nat)
    ensures n <= SMALLCNT_MAX
  {
    if e.Full? && 0 < e.cnt <= SMALLCNT_MAX then e.cnt else 0
  }

  function EncodeExt(prev: Extent, e: Extent): (ws: seq<Word>)
    requires Writable(e) && DistanceInBlks(prev, e).Ok?
    ensures 1 <= |ws| <= 3
  {
    var d := DistanceInBlks(prev, e).value;
    var low := if d.near then 0x400 + (if d.backwards then 0x200 else 0) + d.blkCnt else e.nr / 0x1_0000;
    [ExtHeader(e.Sub?, SmallCntOf(e), low)]
    + (if d.near then [] else [e.nr % 0x1_0000])
    + (if e.Sub? then [BitmapWord(e.bits)] else if SmallCntOf(e) == 0 then [e.cnt] else [])
  }

  /** Each extent is at a distance from the one before; the first is measured from block 0. */
  predicate Chained(prev: Extent, exts: seq<Extent>)
    decreases |exts|
  {
    exts == [] || (Writable(exts[0]) && DistanceInBlks(prev, exts[0]).Ok? && Chained(exts[0], exts[1..]))
  }

  function EncodeExts(prev: Extent, exts: seq<Extent>): seq<Word>
    requires Chained(prev, exts)
    decreases |exts|
  {
    if exts == [] then [] else EncodeExt(prev, exts[0]) + EncodeExts(exts[0], exts[1..])
  }

  function EvenPart(raw: seq<Byte>): (r: seq<Byte>)
    ensures |r| % 2 == 0 && |r| <= |raw|
  {
    raw[..|raw| / 2 * 2]
  }

  function EncodeEnd(raw: seq<Byte>): seq<Word>
    requires |raw| <= MAX_INLINE_SIZE
  {
    [EndHeader(|raw|, if |raw| % 2 == 1 then raw[|raw| - 1] else 0)] + WordsOf(EvenPart(raw))
  }

  const START := Full(0, 0)

  predicate Encodable(s: Struct) {
    Chained(START, s.exts) && |s.raw| <= MAX_INLINE_SIZE && (!s.ended ==> s.raw == [])
  }

  function Encode(s: Struct): seq<Word>
    requires Encodable(s)
  {
    EncodeExts(START, s.exts) + if s.ended then EncodeEnd(s.raw) else []
  }

  // ---------------------------------------------------------------------------------------------
  // Reading
  // ---------------------------------------------------------------------------------------------

  /** What the words at the front mean, and how many of them. */
  datatype Item = Ext(ext: Extent, len: nat) | End(raw: seq<Byte>, len: nat) | Bad(error: Error)

  function DecodeItem(prev: Extent, ws: seq<Word>): (item: Item)
    requires ws != []
    ensures !item.Bad? ==> 1 <= item.len <= |ws|
  {
    if IsSub(ws[0]) && IsInline(ws[0]) then DecodeEnd(ws) else DecodeExt(prev, ws)
  }

  function DecodeEnd(ws: seq<Word>): (item: Item)
    requires ws != []
    ensures item.End? ==> 1 <= item.len <= |ws|
    ensures !item.Ext?
  {
    var n := InlineSz(ws[0]);
    if |ws| - 1 < n / 2 then Bad(NotEnoughRoom)
    else End(BytesOf(ws[1..1 + n / 2]) + (if n % 2 == 1 then [InlineLast(ws[0])] else []), 1 + n / 2)
  }

  function DecodeExt(prev: Extent, ws: seq<Word>): (item: Item)
    requires ws != []
    ensures item.Ext? ==> 1 <= item.len <= |ws|
    ensures !item.End?
  {
    var h := ws[0];
    var at := if IsNear(h) then 1 else 2;
    if |ws| < at then Bad(NotEnoughRoom)
    else
      var nr := if IsNear(h) then 0 else HiBlkNr(h) * 0x1_0000 + ws[1];
      if !IsSub(h) && SmallCnt(h) != 0 then Placed(prev, h, nr, Full(0, SmallCnt(h)), at)
      else if SmallCnt(h) != 0 then Bad(Inconsistent)
      else if |ws| < at + 1 then Bad(NotEnoughRoom)
      else Placed(prev, h, nr, if IsSub(h) then Sub(0, WordBitmap(ws[at])) else Full(0, ws[at]), at + 1)
  }

  /** The extent at its block number, which a near one counts from the extent before. */
  function Placed(prev: Extent, h: Word, nr: nat, e: Extent, len: nat): (item: Item)
    ensures item.Ext? ==> item.len == len
    ensures !item.End?
  {
    if !IsNear(h) then Ext(MovedTo(e, nr), len)
    else if IsBackward(h) then
      if prev.nr < JumpOffset(h) + e.Span() then Bad(Inconsistent)
      else if prev.nr - JumpOffset(h) - e.Span() > MAX_BLK_NR then Bad(Inconsistent)
      else Ext(MovedTo(e, prev.nr - JumpOffset(h) - e.Span()), len)
    else if prev.nr + JumpOffset(h) + prev.Span() > MAX_BLK_NR then Bad(Inconsistent)
    else Ext(MovedTo(e, prev.nr + JumpOffset(h) + prev.Span()), len)
  }

  function MovedTo(e: Extent, nr: nat): Extent {
    match e
    case Full(_, cnt) => Full(nr, cnt)
    case Sub(_, bits) => Sub(nr, bits)
  }

  /** What was read, and how many words. */
  datatype Parsed = Parsed(exts: seq<Extent>, ended: bool, raw: seq<Byte>, used: nat)

  function Before(e: Extent, len: nat, r: Outcome<Parsed>): Outcome<Parsed> {
    if r.Throws? then r else Ok(Parsed([e] + r.value.exts, r.value.ended, r.value.raw, len + r.value.used))
  }

  /** Reads until the words or maxLen items are exhausted, or inline data ends the segment. */
  function Decode(prev: Extent, ws: seq<Word>, maxLen: nat): (r: Outcome<Parsed>)
    ensures r.Ok? ==> r.value.used <= |ws|
    decreases |ws|
  {
    if ws == [] || maxLen == 0 then Ok(Parsed([], false, [], 0))
    else
      match DecodeItem(prev, ws)
      case Bad(error) => Throws(error)
      case End(raw, len) => Ok(Parsed([], true, raw, len))
      case Ext(e, len) => Before(e, len, Decode(e, ws[len..], maxLen - 1))
  }

  // ---------------------------------------------------------------------------------------------
  // Round trip
  // ---------------------------------------------------------------------------------------------

  /** The header of an extent tells what the extent is and where it lies. */
  lemma {:induction false} HeaderOf(prev: Extent, e: Extent)
    requires Writable(e) && DistanceInBlks(prev, e).Ok?
    ensures var h, d := EncodeExt(prev, e)[0], DistanceInBlks(prev, e).value;
            && IsSub(h) == e.Sub? && SmallCnt(h) == SmallCntOf(e) && !(IsSub(h) && IsInline(h)) && IsNear(h) == d.near
            && (d.near ==> IsBackward(h) == d.backwards && JumpOffset(h) == d.blkCnt)
            && (!d.near ==> HiBlkNr(h) == e.nr / 0x1_0000)
  {
    hide ExtHeader, IsSub, IsInline, SmallCnt, BitmapWord, Low;
    var d := DistanceInBlks(prev, e).value;
    var low := if d.near then 0x400 + (if d.backwards then 0x200 else 0) + d.blkCnt else e.nr / 0x1_0000;
    if d.near { LowFields(low, d.blkCnt, d.backwards); }
    HeaderFields(e.Sub?, SmallCntOf(e), low);
  }

  /** An extent is placed where it was. */
  lemma {:induction false} PlacedBack(prev: Extent, e: Extent, h: Word, nr: nat, len: nat)
    requires Writable(e) && DistanceInBlks(prev, e).Ok?
    requires var d := DistanceInBlks(prev, e).value;
             && IsNear(h) == d.near
             && (if d.near then IsBackward(h) == d.backwards && JumpOffset(h) == d.blkCnt else nr == e.nr)
    ensures Placed(prev, h, nr, MovedTo(e, 0), len) == Ext(e, len)
  {
    hide IsNear, IsBackward, JumpOffset;
  }

  /** An extent that was written after another is read back after it, whatever follows. */
  lemma {:induction false} ExtRoundTrip(prev: Extent, e: Extent, rest: seq<Word>)
    requires Writable(e) && DistanceInBlks(prev, e).Ok?
    ensures DecodeItem(prev, EncodeExt(prev, e) + rest) == Ext(e, |EncodeExt(prev, e)|)
  {
    hide ExtHeader, IsSub, IsInline, IsNear, IsBackward, SmallCnt, JumpOffset, HiBlkNr, BitmapWord, WordBitmap, Placed,
        DistanceInBlks;
    var d := DistanceInBlks(prev, e).value;
    var code := EncodeExt(prev, e);
    var ws := code + rest;
    HeaderOf(prev, e);
    var at := if d.near then 1 else 2;
    assert forall i :: 0 <= i < |code| ==> ws[i] == code[i];
    var nr := if d.near then 0 else HiBlkNr(ws[0]) * 0x1_0000 + ws[1];
    PlacedBack(prev, e, ws[0], nr, |code|);
    if e.Sub? { BitmapRoundTrip(e.bits); }
  }

  lemma {:induction false} EndRoundTrip(prev: Extent, raw: seq<Byte>, rest: seq<Word>)
    requires |raw| <= MAX_INLINE_SIZE
    ensures DecodeItem(prev, EncodeEnd(raw) + rest) == End(raw, |EncodeEnd(raw)|)
  {
    var last := if |raw| % 2 == 1 then raw[|raw| - 1] else 0;
    EndHeaderFields(|raw|, last);
    var ws := EncodeEnd(raw) + rest;
    assert ws[0] == EndHeader(|raw|, last);
    assert ws[1..1 + |raw| / 2] == WordsOf(EvenPart(raw));
    BytesOfWords(EvenPart(raw));
  }

  /** Extents and an end that were written are read back, whatever follows the end. */
  lemma {:induction false} ItemsRoundTrip(prev: Extent, exts: seq<Extent>, end: seq<Word>, rest: seq<Word>, ended: bool,
      raw: seq<Byte>, maxLen: nat)
    requires Chained(prev, exts) && |raw| <= MAX_INLINE_SIZE && (!ended ==> raw == [])
    requires end == if ended then EncodeEnd(raw) else []
    requires |exts| + (if ended then 1 else 0) <= maxLen && (ended || rest == [] || maxLen == |exts|)
    ensures Decode(prev, EncodeExts(prev, exts) + end + rest, maxLen)
         == Ok(Parsed(exts, ended, raw, |EncodeExts(prev, exts)| + |end|))
    decreases |exts|
  {
    hide EncodeExt, EncodeExts, EncodeEnd, DecodeItem, DistanceInBlks, Decode;
    if exts == [] {
      EndsRoundTrip(prev, end, rest, ended, raw, maxLen);
    } else {
      var first, e := EncodeExt(prev, exts[0]), exts[0];
      var others := EncodeExts(e, exts[1..]);
      FirstEncoded(prev, exts);
      assert EncodeExts(prev, exts) + end + rest == first + (others + end + rest);
      ExtRoundTrip(prev, e, others + end + rest);
      DecodeFirst(prev, first, others + end + rest, e, maxLen);
      ItemsRoundTrip(e, exts[1..], end, rest, ended, raw, maxLen - 1);
      assert [e] + exts[1..] == exts;
    }
  }

  lemma {:induction false} FirstEncoded(prev: Extent, exts: seq<Extent>)
    requires Chained(prev, exts) && exts != []
    ensures EncodeExts(prev, exts) == EncodeExt(prev, exts[0]) + EncodeExts(exts[0], exts[1..])
  {
    hide EncodeExt, DistanceInBlks;
  }

  lemma {:induction false} EndsRoundTrip(prev: Extent, end: seq<Word>, rest: seq<Word>, ended: bool, raw: seq<Byte>,
      maxLen: nat)
    requires |raw| <= MAX_INLINE_SIZE && (!ended ==> raw == []) && end == if ended then EncodeEnd(raw) else []
    requires (if ended then 1 else 0) <= maxLen && (ended || rest == [] || maxLen == 0)
    ensures Decode(prev, EncodeExts(prev, []) + end + rest, maxLen)
         == Ok(Parsed([], ended, raw, |EncodeExts(prev, [])| + |end|))
  {
    hide EncodeExt, EncodeEnd, DecodeItem, DistanceInBlks;
    assert EncodeExts(prev, []) + end + rest == end + rest;
    if ended { EndRoundTrip(prev, raw, rest); }
  }

  lemma {:induction false} DecodeFirst(prev: Extent, first: seq<Word>, tail: seq<Word>, e: Extent, maxLen: nat)
    requires first != [] && 0 < maxLen && DecodeItem(prev, first + tail) == Ext(e, |first|)
    ensures Decode(prev, first + tail, maxLen) == Before(e, |first|, Decode(e, tail, maxLen - 1))
  {
    hide DecodeItem;
    assert (first + tail)[|first|..] == tail;
  }

  /** Reading what was written gives an equal segment and uses exactly the words that were written. */
  lemma {:induction false} RoundTrip(s: Struct, rest: seq<Word>, maxLen: nat)
    requires Encodable(s) && |s.exts| + (if s.ended then 1 else 0) <= maxLen
    requires s.ended || rest == [] || maxLen == |s.exts|
    ensures Decode(START, Encode(s) + rest, maxLen) == Ok(Parsed(s.exts, s.ended, s.raw, |Encode(s)|))
  {
    hide Decode, EncodeExts, EncodeEnd, Chained;
    ItemsRoundTrip(START, s.exts, if s.ended then EncodeEnd(s.raw) else [], rest, s.ended, s.raw, maxLen);
  }

  /** Equal words come from equal segments only. */
  lemma {:induction false} EncodeInjective(s: Struct, t: Struct)
    requires Encodable(s) && Encodable(t) && Encode(s) == Encode(t)
    ensures s == t
  {
    var n := |s.exts| + |t.exts| + 1;
    RoundTrip(s, [], n);
    RoundTrip(t, [], n);
    assert Encode(s) + [] == Encode(t) + [];
  }

  // ---------------------------------------------------------------------------------------------
  // Where the words lie and what their bits say
  // ---------------------------------------------------------------------------------------------

  /** Bit b of a word. */
  predicate HasBit(w: nat, b: nat) {
    if b == 0 then w % 2 == 1 else HasBit(w / 2, b - 1)
  }

  /** How many words an extent takes: a header, the low half of a far block number, a bitmap or a large count. */
  function ExtLen(prev: Extent, e: Extent): nat
    requires DistanceInBlks(prev, e).Ok?
  {
    1 + (if DistanceInBlks(prev, e).value.near then 0 else 1) + if e.Full? && 0 < e.cnt <= 15 then 0 else 1
  }

  /**
   * The words of an extent. In the header bit 15 says that it is suballocated, bits 14 to 11 have a count up to 15 and
   * bit 10 says that it is near. A near one has its direction in bit 9 and its distance in bits 8 to 0. A far one has
   * the high part of its block number in bits 9 to 0 and the low half in the second word. The last word has the count
   * if the header has none, or the bitmap.
   */
  predicate ExtLaidOut(prev: Extent, e: Extent, ws: seq<Word>)
    requires DistanceInBlks(prev, e).Ok?
  {
    && |ws| == ExtLen(prev, e)
    && var h, d := ws[0], DistanceInBlks(prev, e).value;
       && (h / 0x8000 == 1 <==> e.Sub?)
       && h / 0x800 % 16 == (if e.Full? && 0 < e.cnt <= 15 then e.cnt else 0)
       && (h / 0x400 % 2 == 1 <==> d.near)
       && (d.near ==> (h / 0x200 % 2 == 1 <==> d.backwards) && h % 0x200 == d.blkCnt)
       && (!d.near ==> h % 0x400 == e.nr / 0x1_0000 && ws[1] == e.nr % 0x1_0000)
       && (e.Full? && !(0 < e.cnt <= 15) ==> ws[|ws| - 1] == e.cnt)
       && (e.Sub? ==> forall b: nat :: b < 16 ==> (HasBit(ws[|ws| - 1], b) <==> b in e.bits))
  }

  function ExtsLen(prev: Extent, exts: seq<Extent>): nat
    requires Chained(prev, exts)
    decreases |exts|
  {
    if exts == [] then 0 else ExtLen(prev, exts[0]) + ExtsLen(exts[0], exts[1..])
  }

  /** The extents follow one another. */
  predicate ExtsLaidOut(prev: Extent, exts: seq<Extent>, ws: seq<Word>)
    requires Chained(prev, exts)
    decreases |exts|
  {
    if exts == [] then ws == []
    else
      var n := ExtLen(prev, exts[0]);
      n <= |ws| && ExtLaidOut(prev, exts[0], ws[..n]) && ExtsLaidOut(exts[0], exts[1..], ws[n..])
  }

  /**
   * The words of inline data, which are an end marker too. In the header bits 15 and 14 are set, bits 13 to 8 have the
   * size and bits 7 to 0 the last byte of an odd size, else zero. The other bytes follow, two to a word, low one first.
   */
  predicate EndLaidOut(raw: seq<Byte>, ws: seq<Word>) {
    && |ws| == 1 + |raw| / 2
    && ws[0] / 0x4000 == 3 && ws[0] / 0x100 % 64 == |raw|
    && ws[0] % 0x100 == (if |raw| % 2 == 1 then raw[|raw| - 1] else 0)
    && var more := ws[1..];
       forall i :: 0 <= i < |more| ==> more[i] == Nat(raw[2 * i]) + 0x100 * Nat(raw[2 * i + 1])
  }

  function StructLen(s: Struct): nat
    requires Encodable(s)
  {
    ExtsLen(START, s.exts) + if s.ended then 1 + |s.raw| / 2 else 0
  }

  /** The words of a segment: its extents, then the end if it has one. */
  predicate LaidOut(s: Struct, ws: seq<Word>)
    requires Encodable(s)
  {
    var n := ExtsLen(START, s.exts);
    && n <= |ws| && ExtsLaidOut(START, s.exts, ws[..n])
    && if s.ended then EndLaidOut(s.raw, ws[n..]) else n == |ws|
  }

  lemma {:induction false} TopBit(w: nat, n: nat, one: bool, b: nat)
    requires w < Pow2(n)
    ensures HasBit(w + (if one then Pow2(n) else 0), b) == if b == n then one else HasBit(w, b)
    decreases n
  {
    if n == 0 {
      ZeroBits(b);
      if b != 0 { ZeroBits(b - 1); }
    } else {
      Halves(w, Pow2(n - 1));
      if b != 0 {
        TopBit(w / 2, n - 1, one, b - 1);
      }
    }
  }

  lemma {:induction false} Halves(w: nat, q: nat)
    ensures (w + 2 * q) / 2 == w / 2 + q && (w + 2 * q) % 2 == w % 2
  {
  }

  lemma {:induction false} ZeroBits(b: nat)
    ensures !HasBit(0, b)
  {
    if b != 0 { ZeroBits(b - 1); }
  }

  /** A bitmap's number has the bits of the bitmap. */
  lemma {:induction false} NumberBits(bits: Bitmap, n: nat, b: nat)
    requires n <= 16
    ensures HasBit(ToNumber(bits, n), b) <==> b < n && b in bits
  {
    if n == 0 {
      ZeroBits(b);
    } else {
      NumberBits(bits, n - 1, b);
      TopBit(ToNumber(bits, n - 1), n - 1, n - 1 in bits, b);
    }
  }

  /** The bits decide the number. */
  lemma {:induction false} BitsDecide(v: nat, w: nat, n: nat)
    requires v < Pow2(n) && w < Pow2(n) && forall b: nat :: b < n ==> (HasBit(v, b) <==> HasBit(w, b))
    ensures v == w
  {
    if n != 0 {
      forall b: nat | b < n - 1
        ensures HasBit(v / 2, b) <==> HasBit(w / 2, b)
      {
        assert HasBit(v, b + 1) <==> HasBit(w, b + 1);
      }
      BitsDecide(v / 2, w / 2, n - 1);
      assert HasBit(v, 0) <==> HasBit(w, 0);
    }
  }

  lemma {:induction false} BitmapWordBits(bits: Bitmap, w: Word)
    ensures w == BitmapWord(bits) <==> forall b: nat :: b < 16 ==> (HasBit(w, b) <==> b in bits)
  {
    hide HasBit;
    SixteenBits();
    forall b: nat
      ensures HasBit(BitmapWord(bits), b) <==> b < 16 && b in bits
    {
      NumberBits(bits, 16, b);
    }
    if forall b: nat :: b < 16 ==> (HasBit(w, b) <==> b in bits) { BitsDecide(w, BitmapWord(bits), 16); }
  }

  /** The masks of a header decide it. */
  lemma {:induction false} HeaderMasks(h: Word, isSub: bool, smallCnt: nat, low: nat)
    requires smallCnt <= SMALLCNT_MAX && low < 0x800 && (isSub ==> smallCnt == 0)
    ensures h == ExtHeader(isSub, smallCnt, low) <==>
            (h / 0x8000 == 1 <==> isSub) && h / 0x800 % 16 == smallCnt && h % 0x800 == low
  {
    var t := h / 0x800;
    assert h == t * 0x800 + h % 0x800 && t == t / 16 * 16 + t % 16 && h / 0x8000 == t / 16;
  }

  lemma {:induction false} LowMasks(h: Word)
    ensures h / 0x400 % 2 == h % 0x800 / 0x400 && h % 0x400 == h % 0x800 % 0x400
    ensures h / 0x200 % 2 == h % 0x800 / 0x200 % 2 && h % 0x200 == h % 0x800 % 0x200
  {
    UpperMask(h / 0x800, h % 0x800);
    LowerMask(h / 0x800, h % 0x800);
  }

  lemma {:induction false} UpperMask(t: nat, l: nat)
    requires l < 0x800
    ensures (0x800 * t + l) / 0x400 % 2 == l / 0x400 && (0x800 * t + l) % 0x400 == l % 0x400
  {
    assert (0x800 * t + l) / 0x400 == 2 * t + l / 0x400;
  }

  lemma {:induction false} LowerMask(t: nat, l: nat)
    ensures (0x800 * t + l) / 0x200 % 2 == l / 0x200 % 2 && (0x800 * t + l) % 0x200 == l % 0x200
  {
    assert (0x800 * t + l) / 0x200 == 4 * t + l / 0x200;
  }

  /** The low part of a header. */
  function LowOf(e: Extent, d: Distance): nat {
    if d.near then 0x400 + (if d.backwards then 0x200 else 0) + d.blkCnt else e.nr / 0x1_0000
  }

  lemma {:induction false} LowIs(h: Word, e: Extent, d: Distance)
    requires Writable(e) && (d.near ==> d.blkCnt <= MAX_NEAR_JUMP)
    ensures LowOf(e, d) < 0x800
    ensures h % 0x800 == LowOf(e, d) <==>
            && (h / 0x400 % 2 == 1 <==> d.near)
            && (d.near ==> (h / 0x200 % 2 == 1 <==> d.backwards) && h % 0x200 == d.blkCnt)
            && (!d.near ==> h % 0x400 == e.nr / 0x1_0000)
  {
    LowMasks(h);
    var l := h % 0x800;
    assert l == l / 0x400 * 0x400 + l % 0x400 && l % 0x400 == l / 0x200 % 2 * 0x200 + l % 0x200;
  }

  lemma {:induction false} NearJump(prev: Extent, e: Extent)
    ensures var d := DistanceInBlks(prev, e); d.Ok? && d.value.near ==> d.value.blkCnt <= MAX_NEAR_JUMP
  {
  }

  lemma {:induction false} HeaderLaid(prev: Extent, e: Extent, h: Word)
    requires Writable(e) && DistanceInBlks(prev, e).Ok?
    ensures var d := DistanceInBlks(prev, e).value;
            h == EncodeExt(prev, e)[0] <==>
            && (h / 0x8000 == 1 <==> e.Sub?)
            && h / 0x800 % 16 == (if e.Full? && 0 < e.cnt <= 15 then e.cnt else 0)
            && (h / 0x400 % 2 == 1 <==> d.near)
            && (d.near ==> (h / 0x200 % 2 == 1 <==> d.backwards) && h % 0x200 == d.blkCnt)
            && (!d.near ==> h % 0x400 == e.nr / 0x1_0000)
  {
    hide ExtHeader, DistanceInBlks, BitmapWord;
    var d := DistanceInBlks(prev, e).value;
    NearJump(prev, e);
    LowIs(h, e, d);
    HeaderMasks(h, e.Sub?, SmallCntOf(e), LowOf(e, d));
  }

  /** These are the words of an extent, and no others. */
  lemma {:induction false} ExtLaid(prev: Extent, e: Extent, ws: seq<Word>)
    requires Writable(e) && DistanceInBlks(prev, e).Ok?
    ensures |EncodeExt(prev, e)| == ExtLen(prev, e)
    ensures ExtLaidOut(prev, e, ws) <==> ws == EncodeExt(prev, e)
  {
    hide ExtHeader, DistanceInBlks, BitmapWord, HasBit;
    var code := EncodeExt(prev, e);
    if |ws| == |code| {
      HeaderLaid(prev, e, ws[0]);
      if e.Sub? { BitmapWordBits(e.bits, ws[|ws| - 1]); }
      assert ws == code <==> forall i :: 0 <= i < |ws| ==> ws[i] == code[i];
    }
  }

  lemma {:induction false} ExtsLaid(prev: Extent, exts: seq<Extent>, ws: seq<Word>)
    requires Chained(prev, exts)
    ensures |EncodeExts(prev, exts)| == ExtsLen(prev, exts)
    ensures ExtsLaidOut(prev, exts, ws) <==> ws == EncodeExts(prev, exts)
    decreases |exts|
  {
    hide EncodeExt, ExtLen, ExtLaidOut, DistanceInBlks;
    if exts != [] {
      var first, more := EncodeExt(prev, exts[0]), EncodeExts(exts[0], exts[1..]);
      var n := |first|;
      if n <= |ws| {
        ExtLaid(prev, exts[0], ws[..n]);
        ExtsLaid(exts[0], exts[1..], ws[n..]);
        assert ws == ws[..n] + ws[n..];
        assert ws == first + more ==> ws[..n] == first && ws[n..] == more;
      } else {
        ExtLaid(prev, exts[0], []);
        ExtsLaid(exts[0], exts[1..], []);
      }
    }
  }

  lemma {:induction false} WordAt(bytes: seq<Byte>, i: nat)
    requires i < |bytes| / 2
    ensures WordsOf(bytes)[i] == Nat(bytes[2 * i]) + 0x100 * Nat(bytes[2 * i + 1])
  {
    if 0 < i { WordAt(bytes[2..], i - 1); }
  }

  lemma {:induction false} EndHeaderMasks(h: Word, sz: nat, last: Byte)
    requires sz <= MAX_INLINE_SIZE
    ensures h == EndHeader(sz, last) <==> h / 0x4000 == 3 && h / 0x100 % 64 == sz && h % 0x100 == last
  {
    var t := h / 0x100;
    assert h == t * 0x100 + h % 0x100 && t == t / 64 * 64 + t % 64 && h / 0x4000 == t / 64;
  }

  lemma {:induction false} EndLaid(raw: seq<Byte>, ws: seq<Word>)
    requires |raw| <= MAX_INLINE_SIZE
    ensures EndLaidOut(raw, ws) <==> ws == EncodeEnd(raw)
  {
    hide EndHeader, WordsOf;
    var code := EncodeEnd(raw);
    if |ws| == |code| {
      EndHeaderMasks(ws[0], |raw|, if |raw| % 2 == 1 then raw[|raw| - 1] else 0);
      var more, words := ws[1..], WordsOf(EvenPart(raw));
      forall i | 0 <= i < |words|
        ensures words[i] == Nat(raw[2 * i]) + 0x100 * Nat(raw[2 * i + 1])
      {
        WordAt(EvenPart(raw), i);
      }
      assert ws == [ws[0]] + more && code == [code[0]] + words && code[1..] == words;
    }
  }

  /** These are the words of a segment, and no others. */
  lemma {:induction false} StructLaid(s: Struct, ws: seq<Word>)
    requires Encodable(s)
    ensures LaidOut(s, ws) <==> ws == Encode(s)
    ensures |Encode(s)| == StructLen(s)
  {
    hide EncodeExts, EncodeEnd, ExtsLaidOut, EndLaidOut, ExtsLen, Chained;
    if s.ended { EndSize(s.raw); }
    var exts := EncodeExts(START, s.exts);
    var n := |exts|;
    ExtsLaid(START, s.exts, exts);
    if n <= |ws| {
      ExtsLaid(START, s.exts, ws[..n]);
      EndLaid(s.raw, ws[n..]);
      assert ws == ws[..n] + ws[n..];
      if ws == Encode(s) { assert ws[..n] == exts; }
    }
  }

  /** Words that lie so are read as the segment, whatever follows. */
  lemma {:induction false} ReadLaidOut(s: Struct, ws: seq<Word>, rest: seq<Word>, mode: EndMode)
    requires Encodable(s) && LaidOut(s, ws) && Items(s.exts, s.ended) <= MAX_LEN && Suits(mode, s, rest)
    ensures Read(ws + rest, mode) == Ok(Parsed(s.exts, s.ended, s.raw, |ws|))
  {
    hide LaidOut, Encode, Read;
    StructLaid(s, ws);
    ReadBack(s, rest, mode);
  }

  // ---------------------------------------------------------------------------------------------
  // The loops
  // ---------------------------------------------------------------------------------------------

  /** The checksum that goes with ws, whose last rawLen words are inline data; the running sum has 32 bits. */
  function CheckOf(ws: seq<Word>, rawLen: nat): nat
    requires rawLen <= |ws|
  {
    var n := |ws| - rawLen;
    Folded(Wrap32(Sum(ws[..n]) + Folded(Sum(ws[n..]))))
  }

  lemma {:induction false} CheckParts(ws: seq<Word>, rawLen: nat)
    requires rawLen <= |ws|
    ensures var n := |ws| - rawLen; CheckOf(ws, rawLen) == Folded(Wrap32(Sum(ws[..n]) + Folded(Sum(ws[n..]))))
  {
  }

  /** It stands for the sum of all the words, as long as that fits 32 bits. */
  lemma {:induction false} CheckIsSum(ws: seq<Word>, rawLen: nat)
    requires rawLen <= |ws| <= 0x1_0000
    ensures CheckOf(ws, rawLen) % 0xffff == Sum(ws) % 0xffff
  {
    hide *;
    CheckParts(ws, rawLen);
    var n := |ws| - rawLen;
    assert ws == ws[..n] + ws[n..];
    SumAppend(ws[..n], ws[n..]);
    SumBound(ws[..n]);
    SumBound(ws[n..]);
    ResidueOfBoth(Sum(ws[..n]), Sum(ws[n..]), n, rawLen);
  }

  lemma {:induction false} ResidueOfBoth(a: nat, b: nat, m: nat, n: nat)
    requires a <= 0xffff * m && b <= 0xffff * n && m + n <= 0x1_0000
    ensures Folded(Wrap32(a + Folded(b))) % 0xffff == (a + b) % 0xffff
  {
    hide Folded;
    var f := Folded(b);
    FoldedNoLarger(b);
    assert a + f < 0x1_0000_0000;
    SameResidue(f, b, a);
  }

  lemma {:induction false} FoldedNoLarger(sum: nat)
    ensures Folded(sum) <= sum
  {
  }

  lemma {:induction false} SumStep(ws: seq<Word>, more: seq<Word>, c: nat)
    requires c == Wrap32(Sum(ws))
    ensures Wrap32(c + Sum(more)) == Wrap32(Sum(ws + more))
  {
    SumAppend(ws, more);
    ModTwice(Sum(ws), Sum(more));
  }

  ghost predicate WellKept(s: Struct) {
    (forall e :: e in s.exts ==> Writable(e)) && (!s.ended ==> s.raw == [])
  }

  lemma {:induction false} ChainedTail(prev: Extent, exts: seq<Extent>)
    requires exts != []
    ensures Chained(prev, exts) <==>
            Writable(exts[0]) && DistanceInBlks(prev, exts[0]).Ok? && Chained(exts[0], exts[1..])
    ensures Chained(prev, exts) ==> EncodeExts(prev, exts) == EncodeExt(prev, exts[0]) + EncodeExts(exts[0], exts[1..])
  {
  }

  /**
   * calc_struct_footprint_size: two bytes for each word; throws if two extents in a row overlap or the inline data is
   * too long.
   */
  method FootprintSize(s: Struct) returns (r: Outcome<nat>)
    requires WellKept(s)
    ensures r.Ok? <==> Encodable(s)
    ensures r.Ok? ==> r.value == 2 * |Encode(s)|
  {
    hide EncodeExts, DistanceInBlks, EncodeEnd;
    var sz, prev := 0, START;
    assert s.exts[0..] == s.exts;
    for i := 0 to |s.exts|
      invariant Chained(START, s.exts) <==> Chained(prev, s.exts[i..])
      invariant Chained(START, s.exts) ==> sz + 2 * |EncodeExts(prev, s.exts[i..])| == 2 * |EncodeExts(START, s.exts)|
    {
      var e := s.exts[i];
      assert e in s.exts && s.exts[i..][1..] == s.exts[i + 1..];
      ChainedTail(prev, s.exts[i..]);
      sz := sz + 2;
      var d := DistanceInBlks(prev, e);
      if d.Throws? { return Throws(d.error); }
      if !d.value.near {
        sz := sz + 2;
      }
      if e.Sub? || e.cnt > SMALLCNT_MAX || e.cnt == 0 {
        sz := sz + 2;
      }
      prev := e;
    }
    NoneLeft(prev, s.exts);
    if s.ended {
      if |s.raw| > MAX_INLINE_SIZE { return Throws(BadRequest); }
      EndSize(s.raw);
      sz := sz + 2 + (if |s.raw| % 2 == 1 then |s.raw| - 1 else |s.raw|);
    }
    r := Ok(sz);
  }

  lemma {:induction false} NoneLeft(prev: Extent, exts: seq<Extent>)
    ensures exts[|exts|..] == [] && Chained(prev, []) && EncodeExts(prev, []) == []
  {
  }

  lemma {:induction false} EndSize(raw: seq<Byte>)
    requires |raw| <= MAX_INLINE_SIZE
    ensures |EncodeEnd(raw)| == 1 + |raw| / 2
  {
  }

  /** write_struct_into: the words and their checksum; throws if they cannot be written or are more than the room. */
  method WriteStruct(s: Struct, room: nat) returns (r: Outcome<(seq<Word>, nat)>)
    requires WellKept(s)
    ensures r.Ok? <==> Encodable(s) && 2 * |Encode(s)| <= room
    ensures r.Ok? ==>
              r.value.0 == Encode(s) && |s.raw| / 2 <= |Encode(s)| && r.value.1 == CheckOf(Encode(s), |s.raw| / 2)
    ensures r.Ok? ==> LaidOut(s, r.value.0)
  {
    hide EncodeExts, EncodeExt, DistanceInBlks, EncodeEnd, Folded, LaidOut;
    if Encodable(s) { StructLaid(s, Encode(s)); }
    var sz := FootprintSize(s);
    if sz.Throws? { return Throws(sz.error); }
    if sz.value > room { return Throws(NotEnoughRoom); }
    var words: seq<Word>, checksum, prev := [], 0, START;
    assert s.exts[0..] == s.exts;
    for i := 0 to |s.exts|
      invariant Chained(prev, s.exts[i..]) && words + EncodeExts(prev, s.exts[i..]) == EncodeExts(START, s.exts)
      invariant checksum == Wrap32(Sum(words))
    {
      assert s.exts[i..][1..] == s.exts[i + 1..];
      ChainedTail(prev, s.exts[i..]);
      var code := WriteExt(prev, s.exts[i]);
      SumStep(words, code, checksum);
      checksum := Wrap32(checksum + Sum(code));
      words := words + code;
      prev := s.exts[i];
    }
    NoneLeft(prev, s.exts);
    if s.ended {
      EndSums(words, s.raw, checksum);
      var code := EncodeEnd(s.raw);
      var raw := InetChecksumOfWords(code[1..]);
      checksum := Wrap32(checksum + code[0]);
      checksum := Wrap32(checksum + raw);
      words := words + code;
    } else {
      NoEndSums(words);
    }
    var folded := FoldInetChecksum(checksum);
    r := Ok((words, folded));
  }

  /**
   * The words of one extent: header, low part of a far block number, and a count or bitmap that the header has no room
   * for.
   */
  method WriteExt(prev: Extent, e: Extent) returns (code: seq<Word>)
    requires Writable(e) && DistanceInBlks(prev, e).Ok?
    ensures code == EncodeExt(prev, e)
  {
    hide BitmapWord, ExtHeader;
    var smallCnt := 0;
    if !e.Sub? && e.cnt <= SMALLCNT_MAX && e.cnt > 0 {
      smallCnt := e.cnt;
    }
    var d := DistanceInBlks(prev, e).value;
    if d.near {
      code := [ExtHeader(e.Sub?, smallCnt, 0x400 + (if d.backwards then 0x200 else 0) + d.blkCnt)];
    } else {
      code := [ExtHeader(e.Sub?, smallCnt, e.nr / 0x1_0000), e.nr % 0x1_0000];
    }
    if e.Sub? || smallCnt == 0 {
      code := code + [if e.Sub? then BitmapWord(e.bits) else e.cnt];
    }
  }

  lemma {:induction false} EndSums(words: seq<Word>, raw: seq<Byte>, checksum: nat)
    requires |raw| <= MAX_INLINE_SIZE && checksum == Wrap32(Sum(words))
    ensures var code := EncodeEnd(raw);
            && |code| == 1 + |raw| / 2
            && CheckOf(words + code, |raw| / 2) == Folded(Wrap32(Wrap32(checksum + code[0]) + Folded(Sum(code[1..]))))
  {
    hide *;
    EndSize(raw);
    var code := EncodeEnd(raw);
    var n := |words| + 1;
    CheckParts(words + code, |raw| / 2);
    assert (words + code)[..n] == words + [code[0]] && (words + code)[n..] == code[1..];
    SumStep(words, [code[0]], checksum);
    SumOfOne(code[0]);
    ModTwice(Sum(words + [code[0]]), Folded(Sum(code[1..])));
  }

  lemma {:induction false} SumOfOne(w: Word)
    ensures Sum([w]) == w
  {
  }

  lemma {:induction false} ModTwice(a: nat, b: nat)
    ensures Wrap32(Wrap32(a) + b) == Wrap32(a + b)
  {
    var q := a / 0x1_0000_0000;
    assert a + b == 0x1_0000_0000 * q + (Wrap32(a) + b);
  }

  lemma {:induction false} NoEndSums(words: seq<Word>)
    ensures CheckOf(words, 0) == Folded(Wrap32(Sum(words)))
  {
    assert words[..|words|] == words && words[|words|..] == [];
    assert Folded(0) == 0;
  }

  // -- reading --

  datatype EndMode = InlineEnd | IOEnd | AnyEnd | ExplicitLen(len: nat)

  function MaxLen(mode: EndMode): nat {
    if mode.ExplicitLen? then mode.len else MAX_LEN
  }

  function Items(exts: seq<Extent>, ended: bool): nat {
    |exts| + if ended then 1 else 0
  }

  /** Whether what was read ends as the mode wants it to. */
  predicate Accepts(mode: EndMode, p: Parsed, available: nat) {
    match mode
    case InlineEnd => p.ended
    case IOEnd => p.used == available
    case AnyEnd => true
    case ExplicitLen(n) => Items(p.exts, p.ended) >= n
  }

  function Read(ws: seq<Word>, mode: EndMode): Outcome<Parsed> {
    var r := Decode(START, ws, MaxLen(mode));
    if r.Ok? && !Accepts(mode, r.value, |ws|) then Throws(Inconsistent) else r
  }

  function Prepend(exts: seq<Extent>, used: nat, r: Outcome<Parsed>): Outcome<Parsed> {
    if r.Throws? then r else Ok(Parsed(exts + r.value.exts, r.value.ended, r.value.raw, used + r.value.used))
  }

  lemma {:induction false} PrependNothing(r: Outcome<Parsed>)
    ensures Prepend([], 0, r) == r
  {
    if r.Ok? {
      assert [] + r.value.exts == r.value.exts;
    }
  }

  lemma {:induction false} PrependMore(exts: seq<Extent>, used: nat, e: Extent, len: nat, r: Outcome<Parsed>)
    ensures Prepend(exts, used, Before(e, len, r)) == Prepend(exts + [e], used + len, r)
  {
    if r.Ok? {
      assert exts + ([e] + r.value.exts) == exts + [e] + r.value.exts;
    }
  }

  /** read_struct_from: one item after the other; the checksum is the one that went with the words. */
  method ReadStruct(ws: seq<Word>, mode: EndMode) returns (r: Outcome<Parsed>, checksum: nat)
    ensures r == Read(ws, mode)
    ensures r.Ok? ==> r.value.used <= |ws| && |r.value.raw| / 2 <= r.value.used
                      && checksum == CheckOf(ws[..r.value.used], |r.value.raw| / 2)
  {
    hide ReadUpto, Decode, DecodeItem, CheckOf, Folded;
    var exts: seq<Extent>, ended, raw: seq<Byte> := [], false, [];
    var prev, left: nat, pos: nat := START, MaxLen(mode), 0;
    checksum := 0;
    ReadNothing(ws, MaxLen(mode));
    while pos < |ws| && 0 < left && !ended
      invariant pos <= |ws| && !ended && raw == [] && ReadUpto(ws, MaxLen(mode), exts, prev, left, pos, checksum)
      decreases |ws| - pos
    {
      var item := DecodeItem(prev, ws[pos..]);
      ReadItem(ws, MaxLen(mode), exts, prev, left, pos, checksum);
      if item.Bad? { return Throws(item.error), checksum; }
      if item.End? {
        ended, raw := true, item.raw;
        checksum := CheckEnd(ws, pos, prev, item, checksum);
        pos := pos + item.len;
        left := left - 1;
        break;
      }
      checksum := Wrap32(checksum + Sum(ws[pos..pos + item.len]));
      pos := pos + item.len;
      exts := exts + [item.ext];
      prev := item.ext;
      left := left - 1;
    }
    var p := Parsed(exts, ended, raw, pos);
    if !ended {
      ReadAll(ws, MaxLen(mode), exts, prev, left, pos, checksum);
      NoEndSums(ws[..pos]);
      checksum := FoldInetChecksum(checksum);
    }
    assert Decode(START, ws, MaxLen(mode)) == Ok(p);
    if !Accepts(mode, p, |ws|) { return Throws(Inconsistent), checksum; }
    r := Ok(p);
  }

  /** The first pos words were read as exts; reading goes on behind prev, for up to left items. */
  ghost predicate ReadUpto(ws: seq<Word>, maxLen: nat, exts: seq<Extent>, prev: Extent, left: nat, pos: nat,
      checksum: nat) {
    && pos <= |ws| && checksum == Wrap32(Sum(ws[..pos])) && left + |exts| == maxLen
    && Decode(START, ws, maxLen) == Prepend(exts, pos, Decode(prev, ws[pos..], left))
  }

  lemma {:induction false} ReadNothing(ws: seq<Word>, maxLen: nat)
    ensures ReadUpto(ws, maxLen, [], START, maxLen, 0, 0)
  {
    assert ws[0..] == ws;
    PrependNothing(Decode(START, ws, maxLen));
  }

  /** What the next item means for what was read so far. */
  lemma {:induction false} ReadItem(ws: seq<Word>, maxLen: nat, exts: seq<Extent>, prev: Extent, left: nat, pos: nat,
      checksum: nat)
    requires ReadUpto(ws, maxLen, exts, prev, left, pos, checksum) && pos < |ws| && 0 < left
    ensures checksum == Wrap32(Sum(ws[..pos]))
    ensures var item := DecodeItem(prev, ws[pos..]);
            match item
            case Bad(error) => Decode(START, ws, maxLen) == Throws(error)
            case End(raw, len) => Decode(START, ws, maxLen) == Ok(Parsed(exts, true, raw, pos + len))
            case Ext(e, len) =>
              && pos + len <= |ws|
              && ReadUpto(ws, maxLen, exts + [e], e, left - 1, pos + len, Wrap32(checksum + Sum(ws[pos..pos + len])))
  {
    hide DecodeItem, Sum;
    var item := DecodeItem(prev, ws[pos..]);
    if item.End? {
      assert exts + [] == exts;
    }
    if item.Ext? {
      assert ws[pos..][item.len..] == ws[pos + item.len..];
      PrependMore(exts, pos, item.ext, item.len, Decode(item.ext, ws[pos + item.len..], left - 1));
      assert ws[..pos + item.len] == ws[..pos] + ws[pos..pos + item.len];
      SumStep(ws[..pos], ws[pos..pos + item.len], checksum);
    }
  }

  lemma {:induction false} ReadAll(ws: seq<Word>, maxLen: nat, exts: seq<Extent>, prev: Extent, left: nat, pos: nat,
      checksum: nat)
    requires ReadUpto(ws, maxLen, exts, prev, left, pos, checksum) && (pos == |ws| || left == 0)
    ensures Decode(START, ws, maxLen) == Ok(Parsed(exts, false, [], pos)) && checksum == Wrap32(Sum(ws[..pos]))
  {
    assert exts + [] == exts;
  }

  /** The checksum with the header of the inline data and, folded apart, its words. */
  method CheckEnd(ws: seq<Word>, pos: nat, prev: Extent, item: Item, sum: nat) returns (checksum: nat)
    requires pos < |ws| && item.End? && item == DecodeItem(prev, ws[pos..]) && sum == Wrap32(Sum(ws[..pos]))
    ensures item.len == 1 + |item.raw| / 2 && pos + item.len <= |ws|
        && checksum == CheckOf(ws[..pos + item.len], |item.raw| / 2)
  {
    var n := pos + 1;
    ghost var used := ws[..pos + item.len];
    var words := ws[n..pos + item.len];
    hide Folded;
    var raw := InetChecksumOfWords(words);
    checksum := Wrap32(sum + ws[pos]);
    SumStep(ws[..pos], [ws[pos]], sum);
    assert ws[..pos] + [ws[pos]] == ws[..n] && used[..n] == ws[..n] && used[n..] == words;
    assert Sum([ws[pos]]) == ws[pos];
    ModTwice(Sum(ws[..n]), raw);
    checksum := Wrap32(checksum + raw);
    checksum := FoldInetChecksum(checksum);
  }

  /** Which mode a segment that was written can be read back in, with the words `rest` behind it. */
  predicate Suits(mode: EndMode, s: Struct, rest: seq<Word>) {
    match mode
    case InlineEnd => s.ended
    case IOEnd => rest == []
    case AnyEnd => s.ended || rest == []
    case ExplicitLen(n) => n == Items(s.exts, s.ended)
  }

  /** What was written is read back equal, uses exactly the words written, and has the checksum that was written. */
  lemma {:induction false} ReadBack(s: Struct, rest: seq<Word>, mode: EndMode)
    requires Encodable(s) && Items(s.exts, s.ended) <= MAX_LEN && Suits(mode, s, rest)
    ensures Read(Encode(s) + rest, mode) == Ok(Parsed(s.exts, s.ended, s.raw, |Encode(s)|))
    ensures (Encode(s) + rest)[..|Encode(s)|] == Encode(s)
  {
    hide Decode, Encode;
    RoundTrip(s, rest, MaxLen(mode));
  }
}
