/** Where the bytes of an extent lie: full blocks in order, selected sub-blocks from the most significant bit on. */
module Layout {
  import opened Extents
  import opened Products

  type Byte = b: nat | b < 256

  /** Block sizes are powers of two; below 16 bytes there are no sub-blocks. */
  ghost predicate GoodBlkSz(blkSz: nat) {
    0 < blkSz <= 0x10000 && (blkSz < 16 || blkSz % 16 == 0)
  }

  function SubSz(blkSz: nat): nat {
    blkSz / 16
  }

  function DataSize(ext: Extent, blkSz: nat): nat {
    match ext
    case Full(_, cnt) => Times(cnt, blkSz)
    case Sub(_, bits) => Times(|bits|, SubSz(blkSz))
  }

  // ---------------------------------------------------------------------------------------------
  // Positions
  // ---------------------------------------------------------------------------------------------

  /** n consecutive positions from a on. */
  function Run(a: nat, n: nat): (p: seq<nat>)
    ensures |p| == n && forall k :: 0 <= k < n ==> p[k] == a + k
  {
    seq(n, k requires 0 <= k => a + k)
  }

  lemma {:induction false} RunHas(a: nat, n: nat, x: nat)
    ensures x in Run(a, n) <==> a <= x < a + n
  {
    assert a <= x < a + n ==> Run(a, n)[x - a] == x;
  }

  /**
   * The positions of the selected sub-blocks from the i-th on, which lies at `at`; sub-block i is selected by bit 15 -
   * i.
   */
  function SubPos(at: nat, subSz: nat, bits: Bitmap, i: nat): seq<nat>
    requires i <= 16
    decreases 16 - i, at
  {
    if i == 16 then []
    else (if 15 - i in bits then Run(at, subSz) else []) + SubPos(at + subSz, subSz, bits, i + 1)
  }

  function ExtPos(ext: Extent, blkSz: nat): seq<nat> {
    match ext
    case Full(nr, cnt) => Run(Times(nr, blkSz), Times(cnt, blkSz))
    case Sub(nr, bits) => SubPos(Times(nr, blkSz), SubSz(blkSz), bits, 0)
  }

  ghost predicate Increasing(p: seq<nat>) {
    forall i, j :: 0 <= i < j < |p| ==> p[i] < p[j]
  }

  function Upto(bits: Bitmap, n: nat): Bitmap {
    set b | b in bits && b < n
  }

  lemma {:induction false} SubPosSize(at: nat, subSz: nat, bits: Bitmap, i: nat)
    requires i <= 16
    ensures |SubPos(at, subSz, bits, i)| == Times(|Upto(bits, 16 - i)|, subSz)
    decreases 16 - i
  {
    if i == 16 {
      assert Upto(bits, 0) == {};
    } else {
      SubPosSize(at + subSz, subSz, bits, i + 1);
      if 15 - i in bits {
        assert Upto(bits, 16 - i) == Upto(bits, 15 - i) + {15 - i};
        Distribute(|Upto(bits, 15 - i)|, 1, subSz);
      } else {
        assert Upto(bits, 16 - i) == Upto(bits, 15 - i);
      }
    }
  }

  lemma {:induction false} ExtPosSize(ext: Extent, blkSz: nat)
    ensures |ExtPos(ext, blkSz)| == DataSize(ext, blkSz)
  {
    if ext.Sub? {
      SubPosSize(Times(ext.nr, blkSz), SubSz(blkSz), ext.bits, 0);
      assert Upto(ext.bits, 16) == ext.bits;
    }
  }

  /** Position x lies in the i-th sub-block of the block at base. */
  ghost predicate InSub(base: nat, subSz: nat, i: nat, x: nat) {
    base + Times(i, subSz) <= x < base + Times(i + 1, subSz)
  }

  ghost predicate InSelected(base: nat, subSz: nat, bits: Bitmap, x: nat) {
    exists i: nat :: i < 16 && 15 - i in bits && InSub(base, subSz, i, x)
  }

  /** Every position lies in a selected sub-block, and they come in increasing order. */
  lemma {:induction false} SubPosWithin(base: nat, at: nat, subSz: nat, bits: Bitmap, i: nat)
    requires i <= 16 && at == base + Times(i, subSz)
    ensures var p := SubPos(at, subSz, bits, i);
            Increasing(p) && forall k :: 0 <= k < |p| ==> at <= p[k] && InSelected(base, subSz, bits, p[k])
    decreases 16 - i
  {
    if i < 16 {
      Distribute(i, 1, subSz);
      SubPosWithin(base, at + subSz, subSz, bits, i + 1);
      var rest := SubPos(at + subSz, subSz, bits, i + 1);
      if 15 - i in bits {
        IncreasingAppend(Run(at, subSz), rest, at + subSz);
        forall x | at <= x < at + subSz
          ensures InSelected(base, subSz, bits, x)
        {
          assert InSub(base, subSz, i, x);
        }
      } else {
        assert SubPos(at, subSz, bits, i) == rest;
      }
    }
  }

  lemma {:induction false} IncreasingAppend(p: seq<nat>, q: seq<nat>, mid: nat)
    requires Increasing(p) && Increasing(q)
    requires forall k :: 0 <= k < |p| ==> p[k] < mid
    requires forall k :: 0 <= k < |q| ==> mid <= q[k]
    ensures Increasing(p + q)
  {
  }

  // ---------------------------------------------------------------------------------------------
  // Positions and cells
  // ---------------------------------------------------------------------------------------------

  /** The block that position x lies in. */
  function BlkAt(x: nat, blkSz: nat): nat {
    if blkSz == 0 then 0 else x / blkSz
  }

  /** The bit of the sub-block that position x lies in; a block too small for sub-blocks counts as one. */
  function BitAt(x: nat, blkSz: nat): (bit: nat)
    ensures bit < 16
  {
    if blkSz < 16 then 0
    else
      var i := (x % blkSz) / SubSz(blkSz);
      if i < 16 then 15 - i else 0
  }

  /** A position of an extent lies in a cell the extent owns. */
  lemma {:induction false} ExtPosCover(ext: Extent, blkSz: nat, x: nat)
    requires GoodBlkSz(blkSz) && x in ExtPos(ext, blkSz)
    ensures ext.Cover(BlkAt(x, blkSz), BitAt(x, blkSz)) == 1
  {
    if ext.Full? {
      FullPosBlock(ext.nr, ext.cnt, blkSz, x);
    } else {
      var i := SubPosIndex(ext.nr, blkSz, ext.bits, x);
      SubPosBit(ext.nr, blkSz, i, x);
    }
  }

  lemma {:induction false} SubPosIndex(nr: nat, blkSz: nat, bits: Bitmap, x: nat) returns (i: nat)
    requires x in ExtPos(Sub(nr, bits), blkSz)
    ensures i < 16 && 15 - i in bits && InSub(Times(nr, blkSz), SubSz(blkSz), i, x)
  {
    SubPosWithin(Times(nr, blkSz), Times(nr, blkSz), SubSz(blkSz), bits, 0);
    assert InSelected(Times(nr, blkSz), SubSz(blkSz), bits, x);
    i :| i < 16 && 15 - i in bits && InSub(Times(nr, blkSz), SubSz(blkSz), i, x);
  }

  lemma {:induction false} FullPosBlock(nr: nat, cnt: nat, blkSz: nat, x: nat)
    requires 0 < blkSz && Times(nr, blkSz) <= x < Times(nr, blkSz) + Times(cnt, blkSz)
    ensures nr <= BlkAt(x, blkSz) < nr + cnt
  {
    var q, r := BlkAt(x, blkSz), x % blkSz;
    Quotient(x, blkSz, q, r);
    hide BlkAt;
    Distribute(nr, cnt, blkSz);
    Distribute(q, 1, blkSz);
    LessCancel(nr, q + 1, blkSz);
    LessCancel(q, nr + cnt, blkSz);
  }

  lemma {:induction false} SubWithinBlock(blkSz: nat, i: nat)
    requires GoodBlkSz(blkSz) && i < 16
    ensures Times(i, SubSz(blkSz)) + SubSz(blkSz) == Times(i + 1, SubSz(blkSz)) <= blkSz
  {
    Distribute(i, 1, SubSz(blkSz));
    LessEqual(i + 1, 16, SubSz(blkSz));
    TimesIsProduct(16, SubSz(blkSz));
  }

  lemma {:induction false} SubPosBit(nr: nat, blkSz: nat, i: nat, x: nat)
    requires GoodBlkSz(blkSz) && i < 16 && InSub(Times(nr, blkSz), SubSz(blkSz), i, x)
    ensures BlkAt(x, blkSz) == nr && BitAt(x, blkSz) == 15 - i
  {
    var subSz := SubSz(blkSz);
    SubWithinBlock(blkSz, i);
    var r := x - Times(nr, blkSz);
    DivMod(nr, r, blkSz);
    DivMod(i, r - Times(i, subSz), subSz);
  }

  /** The positions of one extent are distinct. */
  lemma {:induction false} ExtPosIncreasing(ext: Extent, blkSz: nat)
    requires GoodBlkSz(blkSz)
    ensures Increasing(ExtPos(ext, blkSz))
  {
    if ext.Sub? {
      SubPosWithin(Times(ext.nr, blkSz), Times(ext.nr, blkSz), SubSz(blkSz), ext.bits, 0);
    }
  }

  lemma {:induction false} SubPosBound(nr: nat, blkSz: nat, i: nat, x: nat)
    requires GoodBlkSz(blkSz) && i < 16 && InSub(Times(nr, blkSz), SubSz(blkSz), i, x)
    ensures Times(nr, blkSz) <= x < Times(nr + 1, blkSz)
  {
    SubWithinBlock(blkSz, i);
    Distribute(nr, 1, blkSz);
  }

  /** The positions of an extent lie within its blocks. */
  lemma {:induction false} ExtPosBound(ext: Extent, blkSz: nat, x: nat)
    requires GoodBlkSz(blkSz) && x in ExtPos(ext, blkSz)
    ensures Times(ext.nr, blkSz) <= x < Times(ext.PastEnd(), blkSz)
  {
    if ext.Full? {
      Distribute(ext.nr, ext.cnt, blkSz);
    } else {
      var i := SubPosIndex(ext.nr, blkSz, ext.bits, x);
      SubPosBound(ext.nr, blkSz, i, x);
    }
  }

  // ---------------------------------------------------------------------------------------------
  // Bytes at positions
  // ---------------------------------------------------------------------------------------------

  ghost predicate Within(p: seq<nat>, n: nat) {
    forall k :: 0 <= k < |p| ==> p[k] < n
  }

  ghost predicate Distinct(p: seq<nat>) {
    forall i, j :: 0 <= i < j < |p| ==> p[i] != p[j]
  }

  ghost predicate Apart(p: seq<nat>, q: seq<nat>) {
    forall i, j :: 0 <= i < |p| && 0 <= j < |q| ==> p[i] != q[j]
  }

  /** The bytes of buf at the positions p, in that order. */
  ghost function At(buf: seq<Byte>, p: seq<nat>): (d: seq<Byte>)
    requires Within(p, |buf|)
    ensures |d| == |p| && forall k :: 0 <= k < |p| ==> d[k] == buf[p[k]]
  {
    seq(|p|, k requires 0 <= k < |p| => buf[p[k]])
  }

  /** buf2 is buf with the bytes d written at the positions p, and nothing else changed. */
  ghost predicate Patched(buf: seq<Byte>, buf2: seq<Byte>, p: seq<nat>, d: seq<Byte>) {
    && |buf2| == |buf| && |p| == |d| && Within(p, |buf|)
    && (forall k :: 0 <= k < |p| ==> buf2[p[k]] == d[k])
    && (forall x :: 0 <= x < |buf| && x !in p ==> buf2[x] == buf[x])
  }

  lemma {:induction false} SliceOfSlice<T>(s: seq<T>, a: nat, n: nat, b: nat, m: nat)
    requires a + n <= |s| && b + m <= n
    ensures s[a..a + n][b..b + m] == s[a + b..a + b + m]
  {
    var x, y := s[a..a + n][b..b + m], s[a + b..a + b + m];
    assert |x| == |y| && forall j :: 0 <= j < m ==> x[j] == y[j];
  }

  lemma {:induction false} JoinSlices<T>(s: seq<T>, a: nat, n: nat, m: nat)
    requires a + n + m <= |s|
    ensures s[a..a + n] + s[a + n..a + n + m] == s[a..a + n + m]
  {
  }

  lemma {:induction false} AtAppend(buf: seq<Byte>, p: seq<nat>, q: seq<nat>)
    requires Within(p, |buf|) && Within(q, |buf|)
    ensures Within(p + q, |buf|) && At(buf, p + q) == At(buf, p) + At(buf, q)
  {
  }

  lemma {:induction false} AtRun(buf: seq<Byte>, a: nat, n: nat)
    requires a + n <= |buf|
    ensures Within(Run(a, n), |buf|) && At(buf, Run(a, n)) == buf[a..a + n]
  {
  }

  lemma {:induction false} PatchRun(buf: seq<Byte>, a: nat, d: seq<Byte>)
    requires a + |d| <= |buf|
    ensures Patched(buf, buf[..a] + d + buf[a + |d|..], Run(a, |d|), d)
  {
    var buf2 := buf[..a] + d + buf[a + |d|..];
    forall x | 0 <= x < |buf| && x !in Run(a, |d|)
      ensures buf2[x] == buf[x]
    {
      RunHas(a, |d|, x);
    }
  }

  /** Two writes at different positions are one write. */
  lemma {:induction false} PatchTwice(b0: seq<Byte>, b1: seq<Byte>, b2: seq<Byte>, p: seq<nat>, d: seq<Byte>,
      q: seq<nat>, e: seq<Byte>)
    requires Patched(b0, b1, p, d) && Patched(b1, b2, q, e) && Apart(p, q)
    ensures Patched(b0, b2, p + q, d + e)
  {
    forall k | 0 <= k < |p|
      ensures b2[p[k]] == d[k]
    {
      assert p[k] !in q;
    }
    forall x | 0 <= x < |b0| && x !in p + q
      ensures b2[x] == b0[x]
    {
      assert x !in p && x !in q;
    }
  }

  /** A write at the positions lo, lo + 1, ... of p replaces a slice of the bytes at p. */
  lemma {:induction false} PatchWithin(buf: seq<Byte>, buf2: seq<Byte>, p: seq<nat>, lo: nat, d: seq<Byte>)
    requires Within(p, |buf|) && Distinct(p) && lo + |d| <= |p|
    requires Patched(buf, buf2, p[lo..lo + |d|], d)
    ensures At(buf2, p) == At(buf, p)[..lo] + d + At(buf, p)[lo + |d|..]
  {
    var w := p[lo..lo + |d|];
    var flat := At(buf, p)[..lo] + d + At(buf, p)[lo + |d|..];
    forall k | 0 <= k < |p|
      ensures At(buf2, p)[k] == flat[k]
    {
      if lo <= k < lo + |d| {
        assert w[k - lo] == p[k];
      } else {
        assert p[k] !in w;
      }
    }
  }

  // ---------------------------------------------------------------------------------------------
  // Lists of extents
  // ---------------------------------------------------------------------------------------------

  function DataSizes(exts: seq<Extent>, blkSz: nat): nat {
    if exts == [] then 0 else DataSize(exts[0], blkSz) + DataSizes(exts[1..], blkSz)
  }

  /** The flat view: the positions of all the extents, one extent after the other. */
  function SegPos(exts: seq<Extent>, blkSz: nat): seq<nat> {
    if exts == [] then [] else ExtPos(exts[0], blkSz) + SegPos(exts[1..], blkSz)
  }

  lemma {:induction false} SegPosSize(exts: seq<Extent>, blkSz: nat)
    ensures |SegPos(exts, blkSz)| == DataSizes(exts, blkSz)
  {
    if exts != [] {
      ExtPosSize(exts[0], blkSz);
      SegPosSize(exts[1..], blkSz);
    }
  }

  lemma {:induction false} SegPosAppend(s: seq<Extent>, t: seq<Extent>, blkSz: nat)
    ensures SegPos(s + t, blkSz) == SegPos(s, blkSz) + SegPos(t, blkSz)
    ensures DataSizes(s + t, blkSz) == DataSizes(s, blkSz) + DataSizes(t, blkSz)
  {
    if s == [] {
      assert s + t == t;
    } else {
      assert (s + t)[1..] == s[1..] + t;
      SegPosAppend(s[1..], t, blkSz);
    }
  }

  /** How many of the extents own sub-block `bit` of block `blk`. */
  function Covers(exts: seq<Extent>, blk: nat, bit: nat): nat {
    if exts == [] then 0 else exts[0].Cover(blk, bit) + Covers(exts[1..], blk, bit)
  }

  lemma {:induction false} CoversAppend(s: seq<Extent>, t: seq<Extent>, blk: nat, bit: nat)
    ensures Covers(s + t, blk, bit) == Covers(s, blk, bit) + Covers(t, blk, bit)
  {
    if s == [] {
      assert s + t == t;
    } else {
      assert (s + t)[1..] == s[1..] + t;
      CoversAppend(s[1..], t, blk, bit);
    }
  }

  /** A position of a list of extents lies in a cell that one of them owns. */
  lemma {:induction false} SegPosCovers(exts: seq<Extent>, blkSz: nat, x: nat)
    requires GoodBlkSz(blkSz) && x in SegPos(exts, blkSz)
    ensures Covers(exts, BlkAt(x, blkSz), BitAt(x, blkSz)) >= 1
  {
    if x in ExtPos(exts[0], blkSz) {
      ExtPosCover(exts[0], blkSz, x);
    } else {
      SegPosCovers(exts[1..], blkSz, x);
    }
  }

  /** No cell is owned twice. */
  ghost predicate Disjoint(exts: seq<Extent>) {
    forall blk: nat, bit: nat :: bit < 16 ==> Covers(exts, blk, bit) <= 1
  }

  /** Two lists that share no cell have no position in common. */
  lemma {:induction false} SegPosApart(s: seq<Extent>, t: seq<Extent>, blkSz: nat)
    requires GoodBlkSz(blkSz)
    requires forall blk: nat, bit: nat :: bit < 16 ==> Covers(s, blk, bit) + Covers(t, blk, bit) <= 1
    ensures Apart(SegPos(s, blkSz), SegPos(t, blkSz))
  {
    hide BlkAt, BitAt, SegPos, Covers, GoodBlkSz;
    var p, q := SegPos(s, blkSz), SegPos(t, blkSz);
    forall i, j | 0 <= i < |p| && 0 <= j < |q|
      ensures p[i] != q[j]
    {
      SegPosCovers(s, blkSz, p[i]);
      SegPosCovers(t, blkSz, q[j]);
    }
  }

  /** Extents that share no cell have distinct positions. */
  lemma {:induction false} SegPosDistinct(exts: seq<Extent>, blkSz: nat)
    requires GoodBlkSz(blkSz) && Disjoint(exts)
    ensures Distinct(SegPos(exts, blkSz))
  {
    if exts != [] {
      var head, tail := [exts[0]], exts[1..];
      assert exts == head + tail;
      forall blk: nat, bit: nat | bit < 16
        ensures Covers(head, blk, bit) + Covers(tail, blk, bit) <= 1
      {
        CoversAppend(head, tail, blk, bit);
      }
      SegPosAppend(head, tail, blkSz);
      SegPosDistinct(tail, blkSz);
      SegPosApart(head, tail, blkSz);
      ExtPosIncreasing(exts[0], blkSz);
      assert SegPos(head, blkSz) == ExtPos(exts[0], blkSz);
    }
  }

  /** Positions of extents below block `past` lie in the first `past` blocks. */
  lemma {:induction false} SegPosWithin(exts: seq<Extent>, blkSz: nat, past: nat)
    requires GoodBlkSz(blkSz) && forall e :: e in exts ==> e.PastEnd() <= past
    ensures Within(SegPos(exts, blkSz), Times(past, blkSz))
  {
    if exts != [] {
      SegPosWithin(exts[1..], blkSz, past);
      var p := ExtPos(exts[0], blkSz);
      forall k | 0 <= k < |p|
        ensures p[k] < Times(past, blkSz)
      {
        ExtPosBound(exts[0], blkSz, p[k]);
        LessEqual(exts[0].PastEnd(), past, blkSz);
      }
    }
  }
}
