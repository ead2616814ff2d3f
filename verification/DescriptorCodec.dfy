/**
 * How descriptors are stored, one after the other, with padding between them (xoz/dsc/descriptor.cpp,
 * xoz/dsc/descriptor_set.cpp).
 */
module DescriptorCodec {
  import opened Outcomes
  import opened Layout
  import opened InetChecksum
  import opened SegmentCodec

  const MAX_TYPE := 0xffff
  const EXTENDED_TYPE := 0x1ff
  const MAX_ID := 0x7fff_ffff
  const MAX_CSIZE := 0x7fff_ffff
  const MAX_PARTS := 0xffff

  /** Temporal ids are not stored; a descriptor with one gets a new one when it is loaded. */
  datatype Id = Persistent(nr: nat) | Temporal

  datatype Part = Part(csize: nat, segm: Struct)

  /** The internal data of a descriptor are half as many words as they are bytes. */
  datatype Dsc = Dsc(typ: nat, id: Id, parts: seq<Part>, idata: seq<Word>)

  // ---------------------------------------------------------------------------------------------
  // Writing
  // ---------------------------------------------------------------------------------------------

  /** How many parts are stored: the empty ones at the end are not. */
  function StoredParts(parts: seq<Part>): (n: nat)
    ensures n <= |parts| && (0 < n ==> parts[n - 1].csize != 0) && forall i :: n <= i < |parts| ==> parts[i].csize == 0
  {
    if parts == [] then 0
    else if parts[|parts| - 1].csize != 0 then |parts|
    else StoredParts(parts[..|parts| - 1])
  }

  predicate GoodPart(p: Part, blkSz: nat) {
    && p.csize <= MAX_CSIZE && Encodable(p.segm) && p.segm.ended && Items(p.segm.exts, true) <= MAX_LEN
    && p.csize <= DataSizes(p.segm.exts, blkSz) + |p.segm.raw|
  }

  predicate GoodParts(parts: seq<Part>, blkSz: nat) {
    forall p :: p in parts ==> GoodPart(p, blkSz)
  }

  /** What the writer checks: the id, the sizes, and that each part fits its segment. */
  predicate Storable(d: Dsc, blkSz: nat) {
    && d.typ <= MAX_TYPE && |d.idata| < 64 && (d.id.Persistent? ==> 0 < d.id.nr <= MAX_ID)
    && |d.parts| <= MAX_PARTS
    && GoodParts(d.parts[..StoredParts(d.parts)], blkSz)
  }

  /** A descriptor that is stored as one word 0: without type, persistent id, content and internal data. */
  predicate Blank(d: Dsc) {
    d.typ == 0 && d.id.Temporal? && StoredParts(d.parts) == 0 && d.idata == []
  }

  /** The id field is there for a persistent id, and for the sixth bit of the size. */
  predicate HasId(d: Dsc) {
    d.id.Persistent? || |d.idata| >= 32
  }

  /** Bit 15: content; bits 14 to 10: size; bit 9: id field; bits 8 to 0: type. */
  function FirstField(own: bool, loSize: nat, hasId: bool, typ: nat): Word
    requires loSize < 32 && typ <= EXTENDED_TYPE
  {
    (if own then 0x8000 else 0) + loSize * 0x400 + (if hasId then 0x200 else 0) + typ
  }

  function EncodeId(d: Dsc): (ws: seq<Word>)
    requires |d.idata| < 64 && (d.id.Persistent? ==> d.id.nr <= MAX_ID)
    ensures |ws| == 2
  {
    var id := if d.id.Persistent? then d.id.nr else 0;
    [id % 0x1_0000, id / 0x1_0000 + if |d.idata| >= 32 then 0x8000 else 0]
  }

  function EncodeCsize(csize: nat): (ws: seq<Word>)
    requires csize <= MAX_CSIZE
  {
    if csize < 0x8000 then [csize] else [0x8000 + csize % 0x8000, csize / 0x8000]
  }

  function EncodeParts(parts: seq<Part>, blkSz: nat): seq<Word>
    requires GoodParts(parts, blkSz)
  {
    if parts == [] then []
    else
      assert parts[0] in parts;
      EncodeCsize(parts[0].csize) + Encode(parts[0].segm) + EncodeParts(parts[1..], blkSz)
  }

  function EncodeContent(parts: seq<Part>, blkSz: nat): seq<Word>
    requires |parts| <= MAX_PARTS && GoodParts(parts, blkSz)
  {
    if parts == [] then [] else [|parts| - 1] + EncodeParts(parts, blkSz)
  }

  function EncodeDsc(d: Dsc, blkSz: nat): (ws: seq<Word>)
    requires Storable(d, blkSz)
    ensures ws != []
  {
    var n := StoredParts(d.parts);
    [FirstField(0 < n, |d.idata| % 32, HasId(d), if d.typ < EXTENDED_TYPE then d.typ else EXTENDED_TYPE)]
    + (if HasId(d) then EncodeId(d) else [])
    + EncodeContent(d.parts[..n], blkSz)
    + (if d.typ >= EXTENDED_TYPE then [d.typ] else [])
    + d.idata
  }

  /** What can be read back: the descriptor without its empty parts at the end. */
  function Stored(d: Dsc): Dsc {
    d.(parts := d.parts[..StoredParts(d.parts)])
  }

  // ---------------------------------------------------------------------------------------------
  // Reading
  // ---------------------------------------------------------------------------------------------

  predicate OwnsContent(w: Word) { w / 0x8000 == 1 }
  function LoSize(w: Word): nat { w / 0x400 % 32 }
  predicate HasIdFlag(w: Word) { w / 0x200 % 2 == 1 }
  function TypeField(w: Word): nat { w % 0x200 }

  lemma {:induction false} FirstFieldParts(own: bool, loSize: nat, hasId: bool, typ: nat)
    requires loSize < 32 && typ <= EXTENDED_TYPE
    ensures var w := FirstField(own, loSize, hasId, typ);
            OwnsContent(w) == own && LoSize(w) == loSize && HasIdFlag(w) == hasId && TypeField(w) == typ
  {
    var low := (if hasId then 1 else 0) * 0x200 + typ;
    assert low / 0x200 == (if hasId then 1 else 0) && low % 0x200 == typ && low < 0x400;
    var w := FirstField(own, loSize, hasId, typ);
    assert w == ((if own then 32 else 0) + loSize) * 0x400 + low;
    assert w / 0x400 == (if own then 32 else 0) + loSize && w % 0x400 == low;
  }

  lemma {:induction false} FirstFieldZero(own: bool, loSize: nat, hasId: bool, typ: nat)
    requires loSize < 32 && typ <= EXTENDED_TYPE
    ensures FirstField(own, loSize, hasId, typ) == 0 <==> !own && loSize == 0 && !hasId && typ == 0
  {
  }

  /** A word list is read in order; a part that is missing makes the reader throw. */
  datatype Got<T> = Got(value: T, used: nat)

  function DecodePart(ws: seq<Word>): (r: Outcome<Got<Part>>)
    ensures r.Ok? ==> 1 <= r.value.used <= |ws|
  {
    if ws == [] then Throws(NotEnoughRoom)
    else
      var large := ws[0] >= 0x8000;
      if large && |ws| < 2 then Throws(NotEnoughRoom)
      else
        var n := if large then 2 else 1;
        var csize := ws[0] % 0x8000 + if large then Nat(ws[1]) * 0x8000 else 0;
        match Read(ws[n..], AnyEnd)
        case Throws(e) => Throws(e)
        case Ok(p) =>
          Ok(Got(Part(csize, Struct(p.exts, p.ended, p.raw)), n + UsedWithin(p, ws[n..])))
  }

  function UsedWithin(p: Parsed, ws: seq<Word>): (n: nat)
    ensures n <= |ws|
  {
    if p.used <= |ws| then p.used else 0
  }

  function DecodeParts(ws: seq<Word>, n: nat): (r: Outcome<Got<seq<Part>>>)
    ensures r.Ok? ==> r.value.used <= |ws|
    decreases n
  {
    if n == 0 then Ok(Got([], 0))
    else
      match DecodePart(ws)
      case Throws(e) => Throws(e)
      case Ok(first) =>
        match DecodeParts(ws[first.used..], n - 1)
        case Throws(e) => Throws(e)
        case Ok(more) => Ok(Got([first.value] + more.value, first.used + more.used))
  }

  /** The id field: its id, if there is one, and the size with its sixth bit. */
  function DecodeId(ws: seq<Word>, w: Word): (r: Outcome<Got<(nat, nat)>>)
    ensures r.Ok? ==> r.value.used <= |ws|
  {
    if !HasIdFlag(w) then Ok(Got((0, LoSize(w)), 0))
    else if |ws| < 2 then Throws(NotEnoughRoom)
    else Ok(Got((ws[0] + Nat(ws[1]) % 0x8000 * 0x1_0000, LoSize(w) + if ws[1] >= 0x8000 then 32 else 0), 2))
  }

  /** An id field without an id makes sense only for the sixth bit of the size; no persistent id is used twice. */
  function CheckId(w: Word, id: nat, sz: nat, ids: set<nat>): Outcome<Id> {
    if id == 0 then if HasIdFlag(w) && sz < 32 then Throws(Inconsistent) else Ok(Temporal)
    else if id in ids then Throws(Inconsistent)
    else Ok(Persistent(id))
  }

  predicate Consistent(parts: seq<Part>, blkSz: nat) {
    forall p :: p in parts ==> p.csize <= DataSizes(p.segm.exts, blkSz) + |p.segm.raw|
  }

  function DecodeContent(ws: seq<Word>, w: Word): (r: Outcome<Got<seq<Part>>>)
    ensures r.Ok? ==> r.value.used <= |ws|
  {
    if !OwnsContent(w) then Ok(Got([], 0))
    else if ws == [] then Throws(NotEnoughRoom)
    else if ws[0] == MAX_PARTS then Throws(Inconsistent)
    else
      match DecodeParts(ws[1..], Nat(ws[0]) + 1)
      case Throws(e) => Throws(e)
      case Ok(parts) => Ok(Got(parts.value, 1 + parts.used))
  }

  function DecodeType(ws: seq<Word>, w: Word): (r: Outcome<Got<nat>>)
    ensures r.Ok? ==> r.value.used <= |ws|
  {
    if TypeField(w) != EXTENDED_TYPE then Ok(Got(TypeField(w), 0))
    else if ws == [] then Throws(NotEnoughRoom)
    else Ok(Got(ws[0], 1))
  }

  /** One descriptor, whose persistent id must not be among ids. */
  function DecodeDsc(ws: seq<Word>, ids: set<nat>, blkSz: nat): (r: Outcome<Got<Dsc>>)
    ensures r.Ok? ==> 1 <= r.value.used <= |ws|
  {
    if ws == [] then Throws(NotEnoughRoom)
    else
      match DecodeId(ws[1..], ws[0])
      case Throws(e) => Throws(e)
      case Ok(field) =>
        var sz := field.value.1;
        match DecodeContent(ws[1 + field.used..], ws[0])
        case Throws(e) => Throws(e)
        case Ok(parts) =>
          var at := 1 + field.used + parts.used;
          match CheckId(ws[0], field.value.0, sz, ids)
          case Throws(e) => Throws(e)
          case Ok(id) =>
            if !Consistent(parts.value, blkSz) then Throws(Inconsistent)
            else
              match DecodeType(ws[at..], ws[0])
              case Throws(e) => Throws(e)
              case Ok(typ) =>
                var idata := at + typ.used;
                if |ws| - idata < sz then Throws(NotEnoughRoom)
                else Ok(Got(Dsc(typ.value, id, parts.value, ws[idata..idata + sz]), idata + sz))
  }

  // ---------------------------------------------------------------------------------------------
  // Round trip of one descriptor
  // ---------------------------------------------------------------------------------------------

  lemma {:induction false} CsizeFields(csize: nat)
    requires csize <= MAX_CSIZE
    ensures var ws := EncodeCsize(csize);
            && (ws[0] >= 0x8000 <==> |ws| == 2) && 1 <= |ws| <= 2
            && ws[0] % 0x8000 + (if |ws| == 2 then Nat(ws[1]) * 0x8000 else 0) == csize
  {
  }

  lemma {:induction false} PartRoundTrip(p: Part, rest: seq<Word>, blkSz: nat)
    requires GoodPart(p, blkSz)
    ensures var ws := EncodeCsize(p.csize) + Encode(p.segm);
            DecodePart(ws + rest) == Ok(Got(p, |ws|))
  {
    hide Encode, Read, EncodeCsize, DataSizes;
    var head, code := EncodeCsize(p.csize), Encode(p.segm);
    var ws := head + code + rest;
    CsizeFields(p.csize);
    assert ws[0] == head[0] && (|head| == 2 ==> ws[1] == head[1]);
    assert ws[|head|..] == code + rest;
    ReadBack(p.segm, rest, AnyEnd);
    assert head + code + rest == (head + code) + rest;
  }

  lemma {:induction false} PartsRoundTrip(parts: seq<Part>, rest: seq<Word>, blkSz: nat)
    requires GoodParts(parts, blkSz)
    ensures DecodeParts(EncodeParts(parts, blkSz) + rest, |parts|) == Ok(Got(parts, |EncodeParts(parts, blkSz)|))
  {
    hide Encode, EncodeCsize, DecodePart;
    if parts != [] {
      assert parts[0] in parts;
      var first := EncodeCsize(parts[0].csize) + Encode(parts[0].segm);
      var more := EncodeParts(parts[1..], blkSz) + rest;
      assert EncodeParts(parts, blkSz) + rest == first + more;
      PartRoundTrip(parts[0], more, blkSz);
      assert (first + more)[|first|..] == more;
      PartsRoundTrip(parts[1..], rest, blkSz);
      assert [parts[0]] + parts[1..] == parts;
    }
  }

  function IdCode(d: Dsc): seq<Word>
    requires |d.idata| < 64 && (d.id.Persistent? ==> d.id.nr <= MAX_ID)
  {
    if HasId(d) then EncodeId(d) else []
  }

  function TypeCode(typ: nat): seq<Word>
    requires typ <= MAX_TYPE
  {
    if typ >= EXTENDED_TYPE then [typ] else []
  }

  predicate IdFree(id: Id, ids: set<nat>) {
    id.Persistent? ==> id.nr !in ids
  }

  lemma {:induction false} IdRoundTrip(d: Dsc, w: Word, ids: set<nat>, rest: seq<Word>)
    requires |d.idata| < 64 && (d.id.Persistent? ==> 0 < d.id.nr <= MAX_ID) && IdFree(d.id, ids)
    requires HasIdFlag(w) == HasId(d) && LoSize(w) == |d.idata| % 32
    ensures var r := DecodeId(IdCode(d) + rest, w);
            && r.Ok? && r.value.used == |IdCode(d)| && r.value.value.1 == |d.idata|
            && CheckId(w, r.value.value.0, |d.idata|, ids) == Ok(d.id)
  {
    hide HasIdFlag, LoSize;
    if HasId(d) {
      var ws := EncodeId(d) + rest;
      assert ws[0] == EncodeId(d)[0] && ws[1] == EncodeId(d)[1];
    }
  }

  lemma {:induction false} ContentRoundTrip(parts: seq<Part>, w: Word, rest: seq<Word>, blkSz: nat)
    requires |parts| <= MAX_PARTS && GoodParts(parts, blkSz)
    requires OwnsContent(w) == (parts != [])
    ensures DecodeContent(EncodeContent(parts, blkSz) + rest, w) == Ok(Got(parts, |EncodeContent(parts, blkSz)|))
    ensures Consistent(parts, blkSz)
  {
    hide OwnsContent, EncodeParts, DecodeParts, DataSizes;
    if parts != [] {
      PartsRoundTrip(parts, rest, blkSz);
      assert (EncodeContent(parts, blkSz) + rest)[1..] == EncodeParts(parts, blkSz) + rest;
    }
  }

  lemma {:induction false} TypeRoundTrip(typ: nat, w: Word, rest: seq<Word>)
    requires typ <= MAX_TYPE && TypeField(w) == if typ < EXTENDED_TYPE then typ else EXTENDED_TYPE
    ensures DecodeType(TypeCode(typ) + rest, w) == Ok(Got(typ, |TypeCode(typ)|))
  {
    hide TypeField;
  }

  /** The code of a descriptor: first field, id field, content, extended type, internal data. */
  lemma {:induction false} DscCode(d: Dsc, blkSz: nat)
    requires Storable(d, blkSz)
    ensures var code, parts := EncodeDsc(d, blkSz), d.parts[..StoredParts(d.parts)];
            && code == [code[0]] + IdCode(d) + EncodeContent(parts, blkSz) + TypeCode(d.typ) + d.idata
            && OwnsContent(code[0]) == (parts != []) && LoSize(code[0]) == |d.idata| % 32
                && HasIdFlag(code[0]) == HasId(d)
            && TypeField(code[0]) == (if d.typ < EXTENDED_TYPE then d.typ else EXTENDED_TYPE)
            && (code[0] == 0 <==> Blank(d)) && (Blank(d) ==> code == [0])
  {
    hide FirstField, OwnsContent, LoSize, HasIdFlag, EncodeParts, EncodeId;
    var typ := if d.typ < EXTENDED_TYPE then d.typ else EXTENDED_TYPE;
    FirstFieldZero(0 < StoredParts(d.parts), |d.idata| % 32, HasId(d), typ);
    FirstFieldParts(0 < StoredParts(d.parts), |d.idata| % 32, HasId(d), typ);
  }

  /** A descriptor that was stored is read back, but for its empty parts at the end, whatever follows. */
  lemma {:induction false} DscRoundTrip(d: Dsc, rest: seq<Word>, ids: set<nat>, blkSz: nat)
    requires Storable(d, blkSz) && IdFree(d.id, ids)
    ensures DecodeDsc(EncodeDsc(d, blkSz) + rest, ids, blkSz) == Ok(Got(Stored(d), |EncodeDsc(d, blkSz)|))
  {
    hide OwnsContent, LoSize, HasIdFlag, TypeField, EncodeDsc, EncodeContent, DecodeContent, IdCode, TypeCode, DecodeId,
        DecodeType, CheckId, Consistent;
    DscCode(d, blkSz);
    var code, parts := EncodeDsc(d, blkSz), d.parts[..StoredParts(d.parts)];
    var content := EncodeContent(parts, blkSz);
    var ws := code + rest;
    var rest3 := d.idata + rest;
    var rest2 := TypeCode(d.typ) + rest3;
    var rest1 := content + rest2;
    Tails(code[0], IdCode(d), content, TypeCode(d.typ), d.idata, rest);
    IdRoundTrip(d, code[0], ids, rest1);
    ContentRoundTrip(parts, code[0], rest2, blkSz);
    TypeRoundTrip(d.typ, code[0], rest3);
  }

  /** What is left of a list of words behind its first pieces. */
  lemma {:induction false} Tails(w: Word, a: seq<Word>, b: seq<Word>, c: seq<Word>, e: seq<Word>, rest: seq<Word>)
    ensures var ws := [w] + a + b + c + e + rest;
            && ws[0] == w && ws[1..] == a + (b + (c + (e + rest)))
            && ws[1 + |a|..] == b + (c + (e + rest)) && ws[1 + |a| + |b|..] == c + (e + rest)
            && ws[1 + |a| + |b| + |c|..1 + |a| + |b| + |c| + |e|] == e
  {
  }

  // ---------------------------------------------------------------------------------------------
  // Many descriptors, with padding between them
  // ---------------------------------------------------------------------------------------------

  function Padding(n: nat): (ws: seq<Word>)
    ensures |ws| == n && forall i :: 0 <= i < n ==> ws[i] == 0
  {
    seq(n, _ => 0)
  }

  /** Each descriptor behind some padding, and some at the end. */
  function EncodeStream(ds: seq<Dsc>, pads: seq<nat>, blkSz: nat): seq<Word>
    requires |pads| == |ds| + 1 && forall d :: d in ds ==> Storable(d, blkSz)
  {
    if ds == [] then Padding(pads[0])
    else
      assert ds[0] in ds;
      Padding(pads[0]) + EncodeDsc(ds[0], blkSz) + EncodeStream(ds[1..], pads[1..], blkSz)
  }

  function WithId(ids: set<nat>, id: Id): set<nat> {
    if id.Persistent? then ids + {id.nr} else ids
  }

  /** load_descriptors: skips words that are zero, else reads a descriptor. */
  function DecodeStream(ws: seq<Word>, ids: set<nat>, blkSz: nat): Outcome<seq<Dsc>>
    decreases |ws|
  {
    if ws == [] then Ok([])
    else if ws[0] == 0 then DecodeStream(ws[1..], ids, blkSz)
    else
      match DecodeDsc(ws, ids, blkSz)
      case Throws(e) => Throws(e)
      case Ok(d) =>
        match DecodeStream(ws[d.used..], WithId(ids, d.value.id), blkSz)
        case Throws(e) => Throws(e)
        case Ok(ds) => Ok([d.value] + ds)
  }

  /** No persistent id occurs twice or is among ids. */
  predicate IdsFree(ds: seq<Dsc>, ids: set<nat>)
    decreases |ds|
  {
    ds == [] || (IdFree(ds[0].id, ids) && IdsFree(ds[1..], WithId(ids, ds[0].id)))
  }

  function AllStored(ds: seq<Dsc>): (r: seq<Dsc>)
    ensures |r| == |ds| && forall i :: 0 <= i < |ds| ==> r[i] == Stored(ds[i])
  {
    seq(|ds|, i requires 0 <= i < |ds| => Stored(ds[i]))
  }

  lemma {:induction false} PaddingSkipped(n: nat, rest: seq<Word>, ids: set<nat>, blkSz: nat)
    ensures DecodeStream(Padding(n) + rest, ids, blkSz) == DecodeStream(rest, ids, blkSz)
  {
    if n == 0 {
      assert Padding(0) + rest == rest;
    } else {
      var ws := Padding(n) + rest;
      assert ws[0] == 0 && ws[1..] == Padding(n - 1) + rest;
      PaddingSkipped(n - 1, rest, ids, blkSz);
    }
  }

  /** The descriptors that padding cannot be mistaken for. */
  function Visible(ds: seq<Dsc>): (r: seq<Dsc>)
    ensures |r| <= |ds|
  {
    if ds == [] then [] else (if Blank(ds[0]) then [] else [ds[0]]) + Visible(ds[1..])
  }

  /**
   * Descriptors of any number, with any padding between them, are read back in their order, but for those that look
   * like padding.
   */
  lemma {:induction false} StreamRoundTrip(ds: seq<Dsc>, pads: seq<nat>, ids: set<nat>, blkSz: nat)
    requires |pads| == |ds| + 1 && (forall d :: d in ds ==> Storable(d, blkSz)) && IdsFree(ds, ids)
    ensures DecodeStream(EncodeStream(ds, pads, blkSz), ids, blkSz) == Ok(AllStored(Visible(ds)))
    decreases |ds|
  {
    hide EncodeDsc, DecodeDsc, Blank, Storable;
    if ds == [] {
      PaddingSkipped(pads[0], [], ids, blkSz);
      assert Padding(pads[0]) + [] == Padding(pads[0]);
    } else {
      assert ds[0] in ds;
      var code, more := EncodeDsc(ds[0], blkSz), EncodeStream(ds[1..], pads[1..], blkSz);
      assert Padding(pads[0]) + code + more == Padding(pads[0]) + (code + more);
      PaddingSkipped(pads[0], code + more, ids, blkSz);
      DscCode(ds[0], blkSz);
      DscRoundTrip(ds[0], more, ids, blkSz);
      assert (code + more)[0] == code[0] && (code + more)[|code|..] == more;
      BlankHasNoId(ds[0], ids);
      StreamRoundTrip(ds[1..], pads[1..], WithId(ids, ds[0].id), blkSz);
      assert [Stored(ds[0])] + AllStored(Visible(ds[1..])) == AllStored([ds[0]] + Visible(ds[1..]));
      assert [] + Visible(ds[1..]) == Visible(ds[1..]);
    }
  }

  lemma {:induction false} BlankHasNoId(d: Dsc, ids: set<nat>)
    ensures Blank(d) ==> WithId(ids, d.id) == ids
  {
  }

  /** So a stream keeps all of them exactly if none looks like padding. */
  lemma {:induction false} StreamKeepsAll(ds: seq<Dsc>, pads: seq<nat>, ids: set<nat>, blkSz: nat)
    requires |pads| == |ds| + 1 && (forall d :: d in ds ==> Storable(d, blkSz)) && IdsFree(ds, ids)
    ensures DecodeStream(EncodeStream(ds, pads, blkSz), ids, blkSz) == Ok(AllStored(ds)) <==>
            forall d :: d in ds ==> !Blank(d)
  {
    StreamRoundTrip(ds, pads, ids, blkSz);
    AllVisible(ds);
  }

  lemma {:induction false} AllVisible(ds: seq<Dsc>)
    ensures if forall d :: d in ds ==> !Blank(d) then Visible(ds) == ds else |Visible(ds)| < |ds|
  {
    hide Blank;
    if ds != [] {
      AllVisible(ds[1..]);
      assert ds[0] in ds && ds == [ds[0]] + ds[1..];
    }
  }

  // ---------------------------------------------------------------------------------------------
  // Where the words lie and what their bits say
  // ---------------------------------------------------------------------------------------------

  /** The first word: bit 15 content, bits 14 to 10 the low bits of the size, bit 9 id field, bits 8 to 0 the type. */
  predicate FieldLaidOut(d: Dsc, w: Word) {
    && (w / 0x8000 == 1 <==> 0 < StoredParts(d.parts)) && w / 0x400 % 32 == |d.idata| % 32
    && (w / 0x200 % 2 == 1 <==> d.id.Persistent? || 32 <= |d.idata|)
    && w % 0x200 == if d.typ < 0x1ff then d.typ else 0x1ff
  }

  /** The id field, its low half first: 31 bits of id, zero for a temporal one, and above them bit 5 of the size. */
  predicate IdLaidOut(d: Dsc, lo: Word, hi: Word) {
    && Nat(lo) + 0x1_0000 * (Nat(hi) % 0x8000) == (if d.id.Persistent? then d.id.nr else 0)
    && (hi / 0x8000 == 1 <==> 32 <= |d.idata|)
  }

  /** The size of a part: 15 bits, or with bit 15 set the low 15 of 31 and then the others. */
  predicate CsizeLaidOut(csize: nat, ws: seq<Word>) {
    if csize < 0x8000 then ws == [csize]
    else |ws| == 2 && ws[0] / 0x8000 == 1 && Nat(ws[0]) % 0x8000 + 0x8000 * Nat(ws[1]) == csize
  }

  /** The parts one after the other, each with its size and its segment. */
  predicate PartsLaidOut(parts: seq<Part>, blkSz: nat, ws: seq<Word>)
    requires GoodParts(parts, blkSz)
  {
    if parts == [] then ws == []
    else
      assert parts[0] in parts;
      var m := if parts[0].csize < 0x8000 then 1 else 2;
      var n := m + StructLen(parts[0].segm);
      && n <= |ws| && CsizeLaidOut(parts[0].csize, ws[..m]) && LaidOut(parts[0].segm, ws[m..n])
      && PartsLaidOut(parts[1..], blkSz, ws[n..])
  }

  /** The count of the parts less one, and the parts. */
  predicate ContentLaidOut(parts: seq<Part>, blkSz: nat, ws: seq<Word>)
    requires GoodParts(parts, blkSz)
  {
    if parts == [] then ws == [] else ws != [] && ws[0] == |parts| - 1 && PartsLaidOut(parts, blkSz, ws[1..])
  }

  /** The words of a descriptor: first word, id field, content, extended type, internal data. */
  predicate DscLaidOut(d: Dsc, blkSz: nat, ws: seq<Word>)
    requires Storable(d, blkSz)
  {
    var i := if HasId(d) then 3 else 1;
    var x := if d.typ < 0x1ff then 0 else 1;
    && i + x + |d.idata| <= |ws|
    && var e := |ws| - |d.idata|;
       && FieldLaidOut(d, ws[0]) && (HasId(d) ==> IdLaidOut(d, ws[1], ws[2]))
       && ContentLaidOut(d.parts[..StoredParts(d.parts)], blkSz, ws[i..e - x])
       && (0x1ff <= d.typ ==> ws[e - 1] == d.typ) && ws[e..] == d.idata
  }

  lemma {:induction false} FieldsDecide(w: Word, own: bool, loSize: nat, hasId: bool, typ: nat)
    requires loSize < 32 && typ <= EXTENDED_TYPE
    ensures w == FirstField(own, loSize, hasId, typ) <==>
            && (w / 0x8000 == 1 <==> own) && w / 0x400 % 32 == loSize && (w / 0x200 % 2 == 1 <==> hasId)
            && w % 0x200 == typ
  {
    var t, u := w / 0x400, w / 0x200;
    assert u == 2 * t + u % 2 && w == 0x200 * u + w % 0x200 && t == 32 * (t / 32) + t % 32 && w / 0x8000 == t / 32;
  }

  lemma {:induction false} IdDecides(d: Dsc, lo: Word, hi: Word)
    requires |d.idata| < 64 && (d.id.Persistent? ==> d.id.nr <= MAX_ID)
    ensures IdLaidOut(d, lo, hi) <==> [lo, hi] == EncodeId(d)
  {
    var id := if d.id.Persistent? then d.id.nr else 0;
    var code := EncodeId(d);
    assert [lo, hi] == code <==> lo == code[0] && hi == code[1];
    assert id == 0x1_0000 * (id / 0x1_0000) + id % 0x1_0000 && id / 0x1_0000 < 0x8000;
    assert hi == hi / 0x8000 * 0x8000 + hi % 0x8000;
  }

  lemma {:induction false} CsizeDecides(csize: nat, ws: seq<Word>)
    requires csize <= MAX_CSIZE
    ensures CsizeLaidOut(csize, ws) <==> ws == EncodeCsize(csize)
    ensures |EncodeCsize(csize)| == if csize < 0x8000 then 1 else 2
  {
    if 0x8000 <= csize && |ws| == 2 {
      assert ws == EncodeCsize(csize) <==> ws[0] == 0x8000 + csize % 0x8000 && ws[1] == csize / 0x8000;
      assert ws[0] == ws[0] / 0x8000 * 0x8000 + ws[0] % 0x8000;
    }
  }

  lemma {:induction false} PartsLaid(parts: seq<Part>, blkSz: nat, ws: seq<Word>)
    requires GoodParts(parts, blkSz)
    ensures PartsLaidOut(parts, blkSz, ws) <==> ws == EncodeParts(parts, blkSz)
  {
    hide Encode, EncodeCsize, CsizeLaidOut, LaidOut, StructLen, DataSizes;
    if parts != [] {
      assert parts[0] in parts;
      var head, code, more := EncodeCsize(parts[0].csize), Encode(parts[0].segm), EncodeParts(parts[1..], blkSz);
      CsizeDecides(parts[0].csize, head);
      StructLaid(parts[0].segm, code);
      var m, n := |head|, |head| + |code|;
      if n <= |ws| {
        CsizeDecides(parts[0].csize, ws[..m]);
        StructLaid(parts[0].segm, ws[m..n]);
        PartsLaid(parts[1..], blkSz, ws[n..]);
        assert ws == ws[..m] + ws[m..n] + ws[n..];
        if ws == head + code + more { assert ws[..m] == head && ws[m..n] == code && ws[n..] == more; }
      }
    }
  }

  lemma {:induction false} ContentLaid(parts: seq<Part>, blkSz: nat, ws: seq<Word>)
    requires |parts| <= MAX_PARTS && GoodParts(parts, blkSz)
    ensures ContentLaidOut(parts, blkSz, ws) <==> ws == EncodeContent(parts, blkSz)
  {
    hide PartsLaidOut, EncodeParts, GoodParts;
    if parts != [] && ws != [] {
      PartsLaid(parts, blkSz, ws[1..]);
      assert ws == [ws[0]] + ws[1..];
    }
  }

  lemma {:induction false} FieldLaid(d: Dsc, blkSz: nat, w: Word)
    requires Storable(d, blkSz)
    ensures FieldLaidOut(d, w) <==> w == EncodeDsc(d, blkSz)[0]
  {
    hide FirstField, EncodeContent, EncodeId, GoodParts;
    FieldsDecide(w, 0 < StoredParts(d.parts), |d.idata| % 32, HasId(d),
                 if d.typ < EXTENDED_TYPE then d.typ else EXTENDED_TYPE);
  }

  /** These are the words of a descriptor, and no others. */
  lemma {:induction false} DscLaid(d: Dsc, blkSz: nat, ws: seq<Word>)
    requires Storable(d, blkSz)
    ensures DscLaidOut(d, blkSz, ws) <==> ws == EncodeDsc(d, blkSz)
  {
    hide FieldLaidOut, IdLaidOut, ContentLaidOut, EncodeContent, EncodeId, EncodeDsc, GoodParts, OwnsContent, LoSize,
        HasIdFlag, TypeField, StoredParts, HasId, Blank;
    DscCode(d, blkSz);
    var code, parts := EncodeDsc(d, blkSz), d.parts[..StoredParts(d.parts)];
    var id, content, typ := IdCode(d), EncodeContent(parts, blkSz), TypeCode(d.typ);
    var i, x := 1 + |id|, |typ|;
    if i + x + |d.idata| <= |ws| {
      var e := |ws| - |d.idata|;
      FieldLaid(d, blkSz, ws[0]);
      if HasId(d) { IdDecides(d, ws[1], ws[2]); }
      ContentLaid(parts, blkSz, ws[i..e - x]);
      FiveParts(ws, i, e - x, e);
      if ws == code { FiveSlices([code[0]], id, content, typ, d.idata); }
    }
  }

  lemma {:induction false} FiveParts(ws: seq<Word>, i: nat, t: nat, e: nat)
    requires 0 < i <= t <= e <= |ws|
    ensures ws == [ws[0]] + ws[1..i] + ws[i..t] + ws[t..e] + ws[e..]
  {
  }

  lemma {:induction false} FiveSlices(a: seq<Word>, b: seq<Word>, c: seq<Word>, d: seq<Word>, e: seq<Word>)
    requires |a| == 1
    ensures var ws := a + b + c + d + e;
            var i, t, p := 1 + |b|, 1 + |b| + |c|, 1 + |b| + |c| + |d|;
            ws[0] == a[0] && ws[1..i] == b && ws[i..t] == c && ws[t..p] == d && ws[p..] == e
  {
  }

  /** Words that lie so are read as the descriptor, but for its empty parts at the end, whatever follows. */
  lemma {:induction false} ReadDscLaidOut(d: Dsc, ws: seq<Word>, rest: seq<Word>, ids: set<nat>, blkSz: nat)
    requires Storable(d, blkSz) && DscLaidOut(d, blkSz, ws) && IdFree(d.id, ids)
    ensures DecodeDsc(ws + rest, ids, blkSz) == Ok(Got(Stored(d), |ws|))
  {
    hide DscLaidOut, EncodeDsc, DecodeDsc;
    DscLaid(d, blkSz, ws);
    DscRoundTrip(d, rest, ids, blkSz);
  }

  // ---------------------------------------------------------------------------------------------
  // The loops
  // ---------------------------------------------------------------------------------------------

  /** count_incompressible_cparts: from the end, as long as the parts are empty. */
  method CountStored(parts: seq<Part>) returns (n: nat)
    ensures n == StoredParts(parts)
  {
    n := |parts|;
    assert parts[..n] == parts;
    while 0 < n && parts[n - 1].csize == 0
      invariant n <= |parts| && StoredParts(parts[..n]) == StoredParts(parts)
    {
      assert parts[..n][..n - 1] == parts[..n - 1];
      n := n - 1;
    }
  }

  lemma {:induction false} PartsAppend(parts: seq<Part>, i: nat, blkSz: nat)
    requires i < |parts| && GoodParts(parts, blkSz)
    ensures GoodParts(parts[..i], blkSz) && GoodParts(parts[..i + 1], blkSz) && GoodPart(parts[i], blkSz)
    ensures EncodeParts(parts[..i + 1], blkSz) == EncodeParts(parts[..i],
        blkSz) + EncodeCsize(parts[i].csize) + Encode(parts[i].segm)
    decreases i
  {
    hide EncodeCsize, Encode;
    GoodPrefix(parts, i, blkSz);
    GoodPrefix(parts, i + 1, blkSz);
    assert parts[i] in parts;
    if i == 0 {
      assert parts[..1] == [parts[0]];
      OnePart(parts[0], blkSz);
      assert parts[..0] == [];
    } else {
      GoodTail(parts, blkSz);
      PartsAppend(parts[1..], i - 1, blkSz);
      assert parts[1..][..i] == parts[..i + 1][1..] && parts[1..][..i - 1] == parts[..i][1..];
    }
  }

  lemma {:induction false} GoodPrefix(parts: seq<Part>, n: nat, blkSz: nat)
    requires n <= |parts| && GoodParts(parts, blkSz)
    ensures GoodParts(parts[..n], blkSz)
  {
    assert forall p :: p in parts[..n] ==> p in parts;
  }

  lemma {:induction false} GoodTail(parts: seq<Part>, blkSz: nat)
    requires parts != [] && GoodParts(parts, blkSz)
    ensures GoodParts(parts[1..], blkSz)
  {
  }

  lemma {:induction false} OnePart(p: Part, blkSz: nat)
    requires GoodPart(p, blkSz)
    ensures EncodeParts([p], blkSz) == EncodeCsize(p.csize) + Encode(p.segm)
  {
    assert [p][1..] == [];
  }

  /** What every descriptor keeps: a 16-bit type, a 31-bit id, and segments that have an end. */
  ghost predicate Formed(d: Dsc) {
    && d.typ <= MAX_TYPE && (d.id.Persistent? ==> d.id.nr <= MAX_ID) && |d.parts| <= MAX_PARTS
    && forall p :: p in d.parts ==> FormedPart(p)
  }

  ghost predicate FormedPart(p: Part) {
    WellKept(p.segm) && p.segm.ended && Items(p.segm.exts, true) <= MAX_LEN
  }

  /** Of the parts only what their segments need to be written. */
  predicate AllEncodable(parts: seq<Part>) {
    forall p :: p in parts ==> Encodable(p.segm)
  }

  /** calc_struct_footprint_size of a descriptor: two bytes for each word; throws if its sizes cannot be written. */
  method DscFootprint(d: Dsc, blkSz: nat) returns (r: Outcome<nat>)
    requires Formed(d)
    ensures r.Ok? <==> |d.idata| < 64 && AllEncodable(d.parts[..StoredParts(d.parts)])
    ensures r.Ok? && Storable(d, blkSz) ==> r.value == 2 * |EncodeDsc(d, blkSz)|
  {
    hide EncodeParts, Encode, GoodPart, GoodParts, Encodable, FormedPart, AllEncodable;
    var sz := 2;
    if |d.idata| >= 64 { return Throws(Inconsistent); }
    if HasId(d) {
      sz := sz + 4;
    }
    var n := CountStored(d.parts);
    if 0 < n {
      var parts := PartsFootprint(d.parts[..n], blkSz);
      if parts.Throws? { return Throws(parts.error); }
      sz := sz + 2 + parts.value;
    } else {
      NoneToEncode(d.parts);
    }
    if d.typ >= EXTENDED_TYPE {
      sz := sz + 2;
    }
    r := Ok(sz + 2 * |d.idata|);
  }

  lemma {:induction false} NoneToEncode(parts: seq<Part>)
    ensures AllEncodable(parts[..0])
  {
  }

  method PartsFootprint(parts: seq<Part>, blkSz: nat) returns (r: Outcome<nat>)
    requires forall p :: p in parts ==> FormedPart(p)
    ensures r.Ok? <==> AllEncodable(parts)
    ensures r.Ok? && GoodParts(parts, blkSz) ==> r.value == 2 * |EncodeParts(parts, blkSz)|
  {
    hide EncodeParts, Encode, EncodeCsize, GoodParts, GoodPart, Encodable;
    var sz := 0;
    NoneToEncode(parts);
    NoParts(parts, blkSz);
    for i := 0 to |parts|
      invariant AllEncodable(parts[..i])
      invariant GoodParts(parts[..i], blkSz) ==> sz == 2 * |EncodeParts(parts[..i], blkSz)|
    {
      OneMorePart(parts, i, blkSz);
      assert parts[i] in parts;
      var segm := FootprintSize(parts[i].segm);
      if segm.Throws? { return Throws(segm.error); }
      sz := sz + (if parts[i].csize < 0x8000 then 2 else 4) + segm.value;
    }
    assert parts[..|parts|] == parts;
    r := Ok(sz);
  }

  lemma {:induction false} OneMorePart(parts: seq<Part>, i: nat, blkSz: nat)
    requires i < |parts|
    ensures AllEncodable(parts[..i + 1]) <==> AllEncodable(parts[..i]) && Encodable(parts[i].segm)
    ensures AllEncodable(parts) ==> Encodable(parts[i].segm)
    ensures GoodParts(parts[..i + 1], blkSz) <==> GoodParts(parts[..i], blkSz) && GoodPart(parts[i], blkSz)
    ensures GoodParts(parts[..i + 1], blkSz) ==>
              && EncodeParts(parts[..i + 1], blkSz)
                 == EncodeParts(parts[..i], blkSz) + EncodeCsize(parts[i].csize) + Encode(parts[i].segm)
              && |EncodeCsize(parts[i].csize)| == if parts[i].csize < 0x8000 then 1 else 2
  {
    hide Encode, EncodeParts, EncodeCsize, Encodable, DataSizes;
    assert parts[..i + 1] == parts[..i] + [parts[i]];
    if GoodParts(parts[..i + 1], blkSz) {
      PartsAppend(parts[..i + 1], i, blkSz);
      assert parts[..i + 1][..i] == parts[..i] && parts[..i + 1][..i + 1] == parts[..i + 1];
      CsizeWords(parts[i].csize);
    }
  }

  lemma {:induction false} CsizeWords(csize: nat)
    requires csize <= MAX_CSIZE
    ensures |EncodeCsize(csize)| == if csize < 0x8000 then 1 else 2
  {
  }

  lemma {:induction false} NoParts(parts: seq<Part>, blkSz: nat)
    ensures GoodParts(parts[..0], blkSz) && EncodeParts(parts[..0], blkSz) == []
  {
  }

  /** Whether no part claims more bytes than its segment has or than its size field counts. */
  method ChkContentParts(parts: seq<Part>, blkSz: nat) returns (ok: bool)
    ensures ok <==>
            forall p :: p in parts ==> p.csize <= DataSizes(p.segm.exts, blkSz) + |p.segm.raw| && p.csize <= MAX_CSIZE
  {
    hide DataSizes;
    for i := 0 to |parts|
      invariant forall p :: p in parts[..i] ==>
                p.csize <= DataSizes(p.segm.exts, blkSz) + |p.segm.raw| && p.csize <= MAX_CSIZE
    {
      assert parts[..i + 1] == parts[..i] + [parts[i]];
      var p := parts[i];
      if p.csize > DataSizes(p.segm.exts, blkSz) + |p.segm.raw| || p.csize > MAX_CSIZE { return false; }
    }
    assert parts[..|parts|] == parts;
    ok := true;
  }

  /** A checked descriptor can be stored if the segments of its parts can be written. */
  lemma {:induction false} CheckedIsStorable(d: Dsc, blkSz: nat)
    requires Formed(d) && |d.idata| < 64 && d.id != Persistent(0)
    requires forall p :: p in d.parts ==>
              p.csize <= DataSizes(p.segm.exts, blkSz) + |p.segm.raw| && p.csize <= MAX_CSIZE
    ensures Storable(d, blkSz) <==> AllEncodable(d.parts[..StoredParts(d.parts)])
  {
    hide DataSizes, Encodable, WellKept;
    var stored := d.parts[..StoredParts(d.parts)];
    assert forall p :: p in stored ==> p in d.parts;
    assert forall p :: p in stored && GoodPart(p, blkSz) ==> Encodable(p.segm);
  }

  lemma {:induction false} StorableIsChecked(d: Dsc, blkSz: nat)
    requires Storable(d, blkSz)
    ensures forall p :: p in d.parts ==> p.csize <= DataSizes(p.segm.exts, blkSz) + |p.segm.raw| && p.csize <= MAX_CSIZE
  {
    hide DataSizes, Encodable;
    var n := StoredParts(d.parts);
    forall i | 0 <= i < |d.parts|
      ensures d.parts[i].csize <= DataSizes(d.parts[i].segm.exts, blkSz) + |d.parts[i].segm.raw|
          && d.parts[i].csize <= MAX_CSIZE
    {
      if i < n { assert d.parts[..n][i] in d.parts[..n]; }
    }
  }

  /**
   * write_struct_into of a descriptor: after the checks the words of the fields that are there, one after the other.
   */
  method WriteDsc(d: Dsc, blkSz: nat, room: nat) returns (r: Outcome<seq<Word>>)
    requires Formed(d)
    ensures r.Ok? <==> Storable(d, blkSz) && 2 * |EncodeDsc(d, blkSz)| <= room
    ensures r.Ok? ==> r.value == EncodeDsc(d, blkSz) && DscLaidOut(d, blkSz, r.value)
  {
    hide EncodeParts, EncodeId, GoodPart, GoodParts, FirstField, FormedPart, AllEncodable, Encodable, DataSizes,
        EncodeDsc, DscLaidOut;
    if Storable(d, blkSz) { DscLaid(d, blkSz, EncodeDsc(d, blkSz)); }
    if |d.idata| >= 64 || d.id == Persistent(0) { return Throws(Inconsistent); }
    var consistent := ChkContentParts(d.parts, blkSz);
    if Storable(d, blkSz) { StorableIsChecked(d, blkSz); }
    if !consistent { return Throws(Inconsistent); }
    CheckedIsStorable(d, blkSz);
    r := WriteFields(d, blkSz);
    if r.Ok? && 2 * |r.value| > room { return Throws(NotEnoughRoom); }
  }

  method WriteFields(d: Dsc, blkSz: nat) returns (r: Outcome<seq<Word>>)
    requires Formed(d) && |d.idata| < 64 && forall p :: p in d.parts ==> p.csize <= MAX_CSIZE
    requires Storable(d, blkSz) <==> AllEncodable(d.parts[..StoredParts(d.parts)])
    ensures r.Ok? <==> Storable(d, blkSz)
    ensures r.Ok? ==> r.value == EncodeDsc(d, blkSz)
  {
    hide EncodeParts, EncodeId, GoodPart, FirstField, FormedPart, AllEncodable, Encodable;
    var n := CountStored(d.parts);
    var hasId := d.id.Persistent? || |d.idata| >= 32;
    var ws := [FirstField(0 < n, |d.idata| % 32, hasId, if d.typ < EXTENDED_TYPE then d.typ else EXTENDED_TYPE)];
    if hasId {
      ws := ws + EncodeId(d);
    }
    if 0 < n {
      assert forall p :: p in d.parts[..n] ==> p in d.parts;
      var parts := WriteParts(d.parts[..n], blkSz);
      if parts.Throws? { return Throws(parts.error); }
      assert ws + [n - 1] + parts.value == ws + ([n - 1] + parts.value);
      ws := ws + [n - 1] + parts.value;
    } else {
      NoneToEncode(d.parts);
    }
    if d.typ >= EXTENDED_TYPE {
      ws := ws + [d.typ];
    }
    r := Ok(ws + d.idata);
  }

  method WriteParts(parts: seq<Part>, blkSz: nat) returns (r: Outcome<seq<Word>>)
    requires forall p :: p in parts ==> FormedPart(p) && p.csize <= MAX_CSIZE
    ensures r.Ok? <==> AllEncodable(parts)
    ensures r.Ok? && GoodParts(parts, blkSz) ==> r.value == EncodeParts(parts, blkSz)
  {
    hide EncodeParts, Encode, GoodParts, GoodPart, Encodable;
    var ws: seq<Word> := [];
    NoneToEncode(parts);
    NoParts(parts, blkSz);
    for i := 0 to |parts|
      invariant AllEncodable(parts[..i])
      invariant GoodParts(parts[..i], blkSz) ==> ws == EncodeParts(parts[..i], blkSz)
    {
      OneMorePart(parts, i, blkSz);
      assert parts[i] in parts;
      var csize := parts[i].csize;
      if csize < 0x8000 {
        ws := ws + [csize];
      } else {
        ws := ws + [0x8000 + csize % 0x8000, csize / 0x8000];
      }
      var sz := FootprintSize(parts[i].segm);
      if sz.Throws? { return Throws(sz.error); }
      var segm := WriteStruct(parts[i].segm, sz.value);
      ws := ws + segm.value.0;
    }
    assert parts[..|parts|] == parts;
    r := Ok(ws);
  }

  function Following(ds: seq<Dsc>, r: Outcome<seq<Dsc>>): Outcome<seq<Dsc>> {
    if r.Throws? then r else Ok(ds + r.value)
  }

  /** load_descriptors: padding is skipped, anything else is a descriptor. */
  method LoadStream(ws: seq<Word>, known: set<nat>, blkSz: nat) returns (r: Outcome<seq<Dsc>>)
    ensures r == DecodeStream(ws, known, blkSz)
  {
    hide DecodeDsc;
    var ds: seq<Dsc>, ids, pos := [], known, 0;
    assert ws[0..] == ws;
    FollowingNone(DecodeStream(ws, known, blkSz));
    while pos < |ws|
      invariant pos <= |ws| && DecodeStream(ws, known, blkSz) == Following(ds, DecodeStream(ws[pos..], ids, blkSz))
    {
      if ws[pos] == 0 {
        assert ws[pos..][1..] == ws[pos + 1..];
        pos := pos + 1;
      } else {
        var d := DecodeDsc(ws[pos..], ids, blkSz);
        if d.Throws? { return Throws(d.error); }
        var got := d.value;
        assert ws[pos..][got.used..] == ws[pos + got.used..];
        FollowingOne(ds, got.value, DecodeStream(ws[pos + got.used..], WithId(ids, got.value.id), blkSz));
        ds := ds + [got.value];
        ids := WithId(ids, got.value.id);
        pos := pos + got.used;
      }
    }
    assert ds + [] == ds;
    r := Ok(ds);
  }

  lemma {:induction false} FollowingNone(r: Outcome<seq<Dsc>>)
    ensures Following([], r) == r
  {
    if r.Ok? {
      assert [] + r.value == r.value;
    }
  }

  lemma {:induction false} FollowingOne(ds: seq<Dsc>, d: Dsc, r: Outcome<seq<Dsc>>)
    ensures Following(ds, Following([d], r)) == Following(ds + [d], r)
  {
    if r.Ok? {
      assert ds + ([d] + r.value) == ds + [d] + r.value;
    }
  }
}
