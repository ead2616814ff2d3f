/** The Internet checksum of RFC 1071, section 2 (xoz/mem/inet_checksum.h, xoz/mem/inet_checksum.cpp). */
module InetChecksum {
  import opened Outcomes
  import opened Layout
  import opened BlockArrays
  import opened SegmentIo

  type Word = w: nat | w < 0x1_0000

  function Nat(w: Word): nat {
    w
  }

  /** What a sum is in 32 bits. */
  function Wrap32(sum: nat): (w: nat)
    ensures w <= sum && w <= 0xffff_ffff && (sum <= 0xffff_ffff ==> w == sum)
  {
    sum % 0x1_0000_0000
  }

  /** The sum of the words, without any carry lost. */
  function Sum(ws: seq<Word>): nat {
    if ws == [] then 0 else ws[0] + Sum(ws[1..])
  }

  lemma {:induction false} SumAppend(s: seq<Word>, t: seq<Word>)
    ensures Sum(s + t) == Sum(s) + Sum(t)
  {
    if s == [] {
      assert s + t == t;
    } else {
      assert (s + t)[1..] == s[1..] + t;
      SumAppend(s[1..], t);
    }
  }

  lemma {:induction false} SumBound(ws: seq<Word>)
    ensures Sum(ws) <= 0xffff * |ws|
  {
    if ws != [] {
      SumBound(ws[1..]);
    }
  }

  /** What is left of a sum once its carries are added back in: 0 for 0, else the residue in 1 to 0xffff. */
  function Folded(sum: nat): (c: nat)
    ensures c <= 0xffff && c % 0xffff == sum % 0xffff && (c == 0 <==> sum == 0)
  {
    if sum == 0 then 0 else 1 + (sum - 1) % 0xffff
  }

  lemma {:induction false} FoldedUnique(sum: nat, c: nat)
    requires c <= 0xffff && c % 0xffff == sum % 0xffff && (c == 0 <==> sum == 0)
    ensures c == Folded(sum)
  {
  }

  /** Adding a carry back in keeps the residue. */
  lemma {:induction false} CarryKeepsResidue(sum: nat)
    ensures (sum / 0x1_0000 + sum % 0x1_0000) % 0xffff == sum % 0xffff
  {
    var hi, lo := sum / 0x1_0000, sum % 0x1_0000;
    assert sum == 0xffff * hi + (hi + lo);
  }

  method FoldInetChecksum(sum: nat) returns (c: nat)
    ensures c == Folded(sum)
  {
    c := sum;
    while c / 0x1_0000 != 0
      invariant c % 0xffff == sum % 0xffff && (c == 0 <==> sum == 0)
      decreases c
    {
      CarryKeepsResidue(c);
      c := c / 0x1_0000 + c % 0x1_0000;
    }
    FoldedUnique(sum, c);
  }

  /** A folded part stands for the part. */
  lemma {:induction false} FoldedTwice(a: nat, b: nat)
    ensures Folded(Folded(a) + b) == Folded(a + b)
  {
    var x := Folded(a);
    SameResidue(x, a, b);
    FoldedUnique(a + b, Folded(x + b));
  }

  lemma {:induction false} SameResidue(x: nat, y: nat, b: nat)
    requires x % 0xffff == y % 0xffff
    ensures (x + b) % 0xffff == (y + b) % 0xffff
  {
    var q, r := x / 0xffff - y / 0xffff, y + b;
    assert x + b == 0xffff * q + r;
  }

  /** The sum of at most 0xffff words fits 32 bits. */
  method InetChecksumOfWords(ws: seq<Word>) returns (c: nat)
    requires |ws| <= 0xffff
    ensures c == Folded(Sum(ws))
  {
    var sum := 0;
    for i := 0 to |ws|
      invariant sum == Sum(ws[..i]) && sum <= 0xffff * i
    {
      assert ws[..i + 1] == ws[..i] + [ws[i]];
      SumAppend(ws[..i], [ws[i]]);
      sum := sum + ws[i];
      assert sum <= MAX_U32;
    }
    assert ws[..|ws|] == ws;
    c := FoldInetChecksum(sum);
  }

  // ---------------------------------------------------------------------------------------------
  // Words in bytes, the low byte first
  // ---------------------------------------------------------------------------------------------

  function LittleEndian(lo: Byte, hi: Byte): Word {
    var high: nat := hi;
    high * 256 + lo
  }

  function WordsOf(bytes: seq<Byte>): (ws: seq<Word>)
    ensures |ws| == |bytes| / 2
  {
    if |bytes| < 2 then [] else [LittleEndian(bytes[0], bytes[1])] + WordsOf(bytes[2..])
  }

  function BytesOf(ws: seq<Word>): (bytes: seq<Byte>)
    ensures |bytes| == 2 * |ws|
  {
    if ws == [] then [] else [ws[0] % 256, ws[0] / 256] + BytesOf(ws[1..])
  }

  lemma {:induction false} WordsOfBytes(ws: seq<Word>)
    ensures WordsOf(BytesOf(ws)) == ws
  {
    if ws != [] {
      WordsOfBytes(ws[1..]);
      assert BytesOf(ws)[2..] == BytesOf(ws[1..]);
    }
  }

  lemma {:induction false} BytesOfWords(bytes: seq<Byte>)
    requires |bytes| % 2 == 0
    ensures BytesOf(WordsOf(bytes)) == bytes
  {
    if bytes != [] {
      BytesOfWords(bytes[2..]);
      assert bytes == [bytes[0], bytes[1]] + bytes[2..];
    }
  }

  lemma {:induction false} WordsAppend(s: seq<Byte>, t: seq<Byte>)
    requires |s| % 2 == 0
    ensures WordsOf(s + t) == WordsOf(s) + WordsOf(t)
  {
    if s == [] {
      assert s + t == t;
    } else {
      var u := s + t;
      assert u[0] == s[0] && u[1] == s[1] && u[2..] == s[2..] + t;
      WordsAppend(s[2..], t);
      assert WordsOf(u) == [LittleEndian(s[0], s[1])] + (WordsOf(s[2..]) + WordsOf(t));
    }
  }

  // ---------------------------------------------------------------------------------------------
  // The checksum of a stretch of an io
  // ---------------------------------------------------------------------------------------------

  const BATCH_SZ := 64

  /** Adds up to 32 words to the sum, which stays within 32 bits, and folds. */
  method AddBatch(sum: nat, bytes: seq<Byte>) returns (c: nat)
    requires sum <= 0xffff && |bytes| <= BATCH_SZ && |bytes| % 2 == 0
    ensures c == Folded(sum + Sum(WordsOf(bytes)))
  {
    c := sum;
    var i := 0;
    while i < |bytes|
      invariant 0 <= i <= |bytes| && i % 2 == 0 && c == sum + Sum(WordsOf(bytes[..i])) && c <= 0xffff * (1 + i)
    {
      assert bytes[..i + 2] == bytes[..i] + bytes[i..i + 2];
      WordsAppend(bytes[..i], bytes[i..i + 2]);
      SumAppend(WordsOf(bytes[..i]), WordsOf(bytes[i..i + 2]));
      assert bytes[i..i + 2] == [bytes[i], bytes[i + 1]];
      OneWord(bytes[i], bytes[i + 1]);
      c := c + LittleEndian(bytes[i], bytes[i + 1]);
      i := i + 2;
    }
    assert bytes[..|bytes|] == bytes;
    c := FoldInetChecksum(c);
  }

  lemma {:induction false} OneWord(lo: Byte, hi: Byte)
    ensures Sum(WordsOf([lo, hi])) == LittleEndian(lo, hi)
  {
  }

  /** What was summed so far stands, folded, for the first n bytes of data. */
  ghost predicate SummedUpto(c: nat, data: seq<Byte>, n: nat) {
    n <= |data| && c == Folded(Sum(WordsOf(data[..n])))
  }

  lemma {:induction false} SummedMore(c: nat, data: seq<Byte>, n: nat, bytes: seq<Byte>)
    requires SummedUpto(c, data, n) && n % 2 == 0 && |bytes| % 2 == 0
    requires n + |bytes| <= |data| && bytes == data[n..n + |bytes|]
    ensures SummedUpto(Folded(c + Sum(WordsOf(bytes))), data, n + |bytes|)
  {
    hide WordsOf, Sum, Folded;
    assert data[..n + |bytes|] == data[..n] + bytes;
    WordsAppend(data[..n], bytes);
    SumAppend(WordsOf(data[..n]), WordsOf(bytes));
    FoldedTwice(Sum(WordsOf(data[..n])), Sum(WordsOf(bytes)));
  }

  lemma {:induction false} SummedNothing(data: seq<Byte>)
    ensures SummedUpto(0, data, 0)
  {
  }

  lemma {:induction false} SummedAll(c: nat, data: seq<Byte>)
    requires SummedUpto(c, data, |data|)
    ensures c == Folded(Sum(WordsOf(data)))
  {
    assert data[..|data|] == data;
  }

  /** The batches give the checksum of the whole stretch, if its words can be counted in 16 bits. */
  method InetChecksumOfIo(io: IOSegment, begin: nat, end: nat) returns (r: Outcome<nat>)
    requires io.Valid() && io.srcSz <= MAX_U32 && io.rdMin <= begin <= end <= io.rdEnd && (end - begin) % 2 == 0
    modifies io`rd
    ensures io.Valid() && io.rd == if r.Ok? then end else old(io.rd)
    ensures r.Throws? <==> 0xffff < (end - begin) / 2
    ensures end <= |io.Content()| && (r.Ok? ==> r.value == Folded(Sum(WordsOf(io.Content()[begin..end]))))
  {
    hide IOSegment.Valid, IOSegment.Content, SummedUpto, WordsOf;
    io.Bounds();
    var sz := end - begin;
    if 0xffff < sz / 2 { return Throws(BadRequest); }
    io.SeekRd(begin, Beg);
    ghost var data := io.Content()[begin..end];
    var c: nat := 0;
    SummedNothing(data);
    for batch := 0 to sz / BATCH_SZ
      invariant io.Valid() && io.rd == begin + batch * BATCH_SZ && io.Content() == old(io.Content())
      invariant SummedUpto(c, data, batch * BATCH_SZ) && c <= 0xffff
    {
      c := SumNext(io, BATCH_SZ, c, data, begin, batch * BATCH_SZ);
    }
    c := SumNext(io, sz % BATCH_SZ, c, data, begin, sz / BATCH_SZ * BATCH_SZ);
    SummedAll(c, data);
    r := Ok(c);
  }

  method SumNext(io: IOSegment, n: nat, c: nat, ghost data: seq<Byte>, ghost begin: nat,
      ghost done: nat) returns (c2: nat)
    requires io.Valid() && n <= BATCH_SZ && n % 2 == 0 && done % 2 == 0 && c <= 0xffff
    requires io.rd == begin + done && begin + |data| <= io.rdEnd && begin + |data| <= io.srcSz && done + n <= |data|
    requires data == io.Content()[begin..begin + |data|]
    requires SummedUpto(c, data, done)
    modifies io`rd
    ensures io.Valid() && io.rd == old(io.rd) + n && io.Content() == old(io.Content())
    ensures SummedUpto(c2, data, done + n) && c2 <= 0xffff
  {
    hide SummedUpto, WordsOf, Mounted, IOSegment.Valid;
    var bytes := io.ReadAll(n);
    SliceOfSlice(io.Content(), begin, |data|, done, n);
    SummedMore(c, data, done, bytes.value);
    c2 := AddBatch(c, bytes.value);
  }

  // ---------------------------------------------------------------------------------------------
  // Checking, adding and removing
  // ---------------------------------------------------------------------------------------------

  predicate IsGood(c: nat)
    requires c <= 0xffff
  {
    c == 0 || c == 0xffff
  }

  /** The sum after a word was taken out of it: its complement is added. */
  function Removed(sum: nat, w: Word): nat {
    sum + (0xffff - w)
  }

  /** A stored checksum passes the test exactly if it is congruent to the sum. */
  lemma {:induction false} GoodIffCongruent(sum: nat, stored: Word)
    ensures IsGood(Folded(Removed(sum, stored))) <==> sum % 0xffff == stored % 0xffff
  {
  }

  /** Removing what was added restores the residue. */
  lemma {:induction false} RemoveUndoesAdd(sum: nat, w: Word)
    ensures Removed(sum + w, w) % 0xffff == sum % 0xffff
  {
  }
}
