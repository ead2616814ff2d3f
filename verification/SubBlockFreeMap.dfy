/** Free sub-blocks of the blocks for suballocation, binned by how many are free (xoz/alloc/subblock_free_map.cpp). */
module SubBlockFreeMaps {
  import opened Outcomes
  import opened Extents

  /** Block number to free bits. */
  type BitsOf = map<nat, Bitmap>

  function Put(m: BitsOf, nr: nat, bits: Bitmap): BitsOf {
    m[nr := bits]
  }

  function Cover(m: BitsOf, blk: nat, bit: nat): nat {
    if blk in m && bit in m[blk] then 1 else 0
  }

  /** Bin k holds exactly the tracked blocks with k + 1 free bits. */
  ghost predicate IsBin(bin: BitsOf, m: BitsOf, k: nat) {
    forall nr :: (nr in bin <==> nr in m && |m[nr]| == k + 1) && (nr in bin ==> bin[nr] == m[nr])
  }

  ghost predicate Binned(bins: seq<BitsOf>, m: BitsOf) {
    |bins| == 16 && forall k :: 0 <= k < 16 ==> IsBin(bins[k], m, k)
  }

  /** top is made of the n most significant bits of `bits`. */
  ghost predicate MostSignificant(bits: Bitmap, n: nat, top: Bitmap) {
    && top <= bits && |top| == n
    && forall i, j :: i in top && j in bits && j !in top ==> j < i
  }

  lemma {:induction false} MostSignificantUnique(bits: Bitmap, n: nat, top: Bitmap, other: Bitmap)
    requires MostSignificant(bits, n, top) && MostSignificant(bits, n, other)
    ensures top == other
  {
    assert top <= other || other <= top;
    SubsetSize(top, other);
    SubsetSize(other, top);
  }

  lemma {:induction false} UntrackBins(bins: seq<BitsOf>, m: BitsOf, nr: nat)
    requires Binned(bins, m) && nr in m && m[nr] != {}
    ensures var k := |m[nr]| - 1;
            k < 16 && nr in bins[k] && Binned(bins[k := bins[k] - {nr}], m - {nr})
  {
    BitsBounded(m[nr]);
    assert IsBin(bins[|m[nr]| - 1], m, |m[nr]| - 1);
  }

  lemma {:induction false} TrackBins(bins: seq<BitsOf>, m: BitsOf, nr: nat, bits: Bitmap)
    requires Binned(bins, m) && nr !in m && bits != {}
    ensures var k := |bits| - 1;
            k < 16 && Binned(bins[k := Put(bins[k], nr, bits)], Put(m, nr, bits))
  {
    BitsBounded(bits);
  }

  lemma {:induction false} HasSmallest(s: set<nat>)
    requires s != {}
    ensures exists x :: x in s && forall y :: y in s ==> x <= y
  {
    var x :| x in s;
    while exists y :: y in s && y < x
      invariant x in s
      decreases x
    {
      var y :| y in s && y < x;
      x := y;
    }
  }

  /** The first element of an ordered set. */
  method First(s: set<nat>) returns (x: nat)
    requires s != {}
    ensures x in s && forall y :: y in s ==> x <= y
  {
    HasSmallest(s);
    x :| x in s && forall y :: y in s ==> x <= y;
  }

  datatype AllocResult = Allocated(ext: Extent) | NoFit

  /** The first block, in the fullest bin that is large enough. */
  ghost predicate BestBlock(m: BitsOf, n: nat, nr: nat) {
    && nr in m && n <= |m[nr]|
    && forall other :: other in m && n <= |m[other]| ==>
         |m[nr]| < |m[other]| || (|m[nr]| == |m[other]| && nr <= other)
  }

  /** m after `top` was taken from block nr. */
  function Without(m: BitsOf, nr: nat, top: Bitmap): BitsOf
    requires nr in m
  {
    if m[nr] == top then m - {nr} else Put(m, nr, m[nr] - top)
  }

  class SubBlockFreeMap {
    var frByNr: BitsOf
    var bins: seq<BitsOf>

    ghost predicate Valid()
      reads this
    {
      Binned(bins, frByNr) && forall nr :: nr in frByNr ==> frByNr[nr] != {}
    }

    constructor ()
      ensures Valid() && frByNr == map[]
    {
      frByNr := map[];
      bins := seq(16, _ => map[]);
    }

    method Reset()
      modifies this
      ensures Valid() && frByNr == map[]
    {
      frByNr := map[];
      bins := seq(16, _ => map[]);
    }

    /** Removes the block from its bin and from the index. */
    method Untrack(nr: nat)
      requires Valid() && nr in frByNr
      modifies this
      ensures Valid() && frByNr == old(frByNr) - {nr}
    {
      UntrackBins(bins, frByNr, nr);
      var k := |frByNr[nr]| - 1;
      bins := bins[k := bins[k] - {nr}];
      frByNr := frByNr - {nr};
    }

    /** Adds the block to its bin and to the index. */
    method Track(nr: nat, bits: Bitmap)
      requires Valid() && nr !in frByNr && bits != {}
      modifies this
      ensures Valid() && frByNr == Put(old(frByNr), nr, bits)
    {
      TrackBins(bins, frByNr, nr, bits);
      var k := |bits| - 1;
      bins := bins[k := Put(bins[k], nr, bits)];
      frByNr := Put(frByNr, nr, bits);
    }

    method Provide(ext: Extent) returns (r: Outcome<()>)
      requires Valid()
      modifies this
      ensures Valid()
      ensures r.Throws? ==> unchanged(this)
      ensures r.Ok? <==> (if ext.Sub? then ext.bits != {} else ext.cnt == 1) && ext.nr !in old(frByNr)
      ensures r.Ok? ==> frByNr == Put(old(frByNr), ext.nr, if ext.Sub? then ext.bits else ALL_BITS)
    {
      if ext.Full? && ext.cnt != 1 { return Throws(NotSubExtent); }
      var bits := if ext.Sub? then ext.bits else ALL_BITS;
      assert 0 in ALL_BITS;
      if bits == {} { return Throws(NotSubExtent); }
      if ext.nr in frByNr { return Throws(ExtentOverlap); }
      Track(ext.nr, bits);
      r := Ok(());
    }

    /** Takes the n most significant free bits of the first block of the smallest bin that is large enough. */
    method Alloc(n: nat) returns (r: Outcome<AllocResult>)
      requires Valid()
      modifies this
      ensures Valid()
      ensures r.Throws? <==> n == 0 || 16 < n
      ensures !(r.Ok? && r.value.Allocated?) ==> unchanged(this)
      ensures r.Ok? ==> (r.value.NoFit? <==> forall nr :: nr in old(frByNr) ==> |old(frByNr)[nr]| < n)
      ensures r.Ok? && r.value.Allocated? ==>
                var ext := r.value.ext;
                && ext.Sub? && BestBlock(old(frByNr), n, ext.nr)
                && MostSignificant(old(frByNr)[ext.nr], n, ext.bits)
                && frByNr == Without(old(frByNr), ext.nr, ext.bits)
    {
      if n == 0 || 16 < n { return Throws(BadRequest); }
      var found, nr := FindBlock(n);
      if !found { return Ok(NoFit); }
      var free := frByNr[nr];
      var top := TopBits(free, n);
      Untrack(nr);
      assert free == top + (free - top);
      if free != top {
        Track(nr, free - top);
      }
      r := Ok(Allocated(Sub(nr, top)));
    }

    /** The first block of the smallest bin that has n free bits or more. */
    method FindBlock(n: nat) returns (found: bool, nr: nat)
      requires Valid() && 1 <= n <= 16
      ensures found ==> BestBlock(frByNr, n, nr)
      ensures !found ==> forall other :: other in frByNr ==> |frByNr[other]| < n
    {
      var bin := n - 1;
      while bin < 16 && bins[bin] == map[]
        invariant n - 1 <= bin <= 16
        invariant forall k :: n - 1 <= k < bin ==> bins[k] == map[]
      {
        bin := bin + 1;
      }
      BinsSearched(bins, frByNr, n, bin);
      if bin == 16 {
        forall other | other in frByNr
          ensures |frByNr[other]| < n
        {
          BitsBounded(frByNr[other]);
        }
        return false, 0;
      }
      nr := First(bins[bin].Keys);
      BestInBin(bins, frByNr, n, bin, nr);
      found := true;
    }

    /** Puts the bits back; a bit of a tracked block that is already free makes it throw and change nothing. */
    method Dealloc(ext: Extent) returns (r: Outcome<()>)
      requires Valid()
      modifies this
      ensures Valid()
      ensures r.Throws? ==> unchanged(this)
      ensures r == Throws(NotSubExtent) <==> ext.Full? || ext.bits == {}
      ensures r == Throws(ExtentOverlap) <==>
              ext.Sub? && ext.nr in old(frByNr) && old(frByNr)[ext.nr] * ext.bits != {}
      ensures r.Throws? ==> r.error in {NotSubExtent, ExtentOverlap}
      ensures r.Ok? ==> frByNr == With(old(frByNr), ext.nr, ext.bits)
    {
      if ext.Full? || ext.bits == {} { return Throws(NotSubExtent); }
      var free: Bitmap := {};
      if ext.nr in frByNr {
        free := frByNr[ext.nr];
        if free * ext.bits != {} { return Throws(ExtentOverlap); }
        Untrack(ext.nr);
      }
      Track(ext.nr, free + ext.bits);
      assert {} + ext.bits == ext.bits;
      assert frByNr == With(old(frByNr), ext.nr, ext.bits);
      r := Ok(());
    }

    /** Gives a wholly free block back. */
    method ReleaseOne(ext: Extent) returns (r: Outcome<()>)
      requires Valid() && ext.Full?
      modifies this
      ensures Valid()
      ensures r.Throws? ==> unchanged(this)
      ensures r.Ok? <==> ext.cnt == 1 && ext.nr in old(frByNr) && old(frByNr)[ext.nr] == ALL_BITS
      ensures r.Ok? ==> frByNr == old(frByNr) - {ext.nr}
    {
      if ext.cnt != 1 || ext.nr !in frByNr || frByNr[ext.nr] != ALL_BITS { return Throws(NoSuchExtent); }
      Untrack(ext.nr);
      r := Ok(());
    }

    /** Gives wholly free blocks back one by one; throws at the first that is not one. */
    method Release(exts: seq<Extent>) returns (r: Outcome<()>, ghost done: nat)
      requires Valid() && forall e :: e in exts ==> e.Full?
      modifies this
      ensures Valid() && done <= |exts| && (r.Ok? <==> done == |exts|)
      ensures frByNr == old(frByNr) - Numbers(exts[..done])
      ensures r.Throws? ==>
                var e := exts[done];
                e.cnt != 1 || e.nr in Numbers(exts[..done]) || e.nr !in old(frByNr) || old(frByNr)[e.nr] != ALL_BITS
    {
      done := 0;
      for i := 0 to |exts|
        invariant Valid() && done == i && frByNr == old(frByNr) - Numbers(exts[..i])
      {
        r := ReleaseOne(exts[i]);
        if r.Throws? { return; }
        assert exts[..i + 1] == exts[..i] + [exts[i]];
        assert Numbers(exts[..i + 1]) == Numbers(exts[..i]) + {exts[i].nr};
        done := i + 1;
      }
      r := Ok(());
    }
  }

  function Numbers(exts: seq<Extent>): set<nat> {
    set e | e in exts :: e.nr
  }

  function With(m: BitsOf, nr: nat, bits: Bitmap): BitsOf {
    Put(m, nr, if nr in m then m[nr] + bits else bits)
  }

  lemma {:induction false} BinsSearched(bins: seq<BitsOf>, m: BitsOf, n: nat, bin: nat)
    requires Binned(bins, m) && 1 <= n <= 16 && n - 1 <= bin <= 16
    requires forall k :: n - 1 <= k < bin ==> bins[k] == map[]
    ensures forall nr :: nr in m && n <= |m[nr]| ==> bin < |m[nr]|
    ensures bin < 16 && bins[bin] != map[] ==> exists nr :: nr in m && n <= |m[nr]|
  {
    forall nr | nr in m && n <= |m[nr]|
      ensures bin < |m[nr]|
    {
      BitsBounded(m[nr]);
      assert IsBin(bins[|m[nr]| - 1], m, |m[nr]| - 1);
    }
    if bin < 16 && bins[bin] != map[] {
      var nr :| nr in bins[bin];
      assert IsBin(bins[bin], m, bin);
    }
  }

  lemma {:induction false} BestInBin(bins: seq<BitsOf>, m: BitsOf, n: nat, bin: nat, nr: nat)
    requires Binned(bins, m) && 1 <= n <= 16 && n - 1 <= bin < 16 && nr in bins[bin]
    requires forall other :: other in bins[bin].Keys ==> nr <= other
    requires forall other :: other in m && n <= |m[other]| ==> bin < |m[other]|
    ensures nr in m && bins[bin][nr] == m[nr] && BestBlock(m, n, nr)
  {
    assert IsBin(bins[bin], m, bin);
    forall other | other in m && n <= |m[other]|
      ensures |m[nr]| < |m[other]| || (|m[nr]| == |m[other]| && nr <= other)
    {
      if |m[other]| == bin + 1 { assert other in bins[bin].Keys; }
    }
  }

  /** Walks from the most significant bit down until n bits were moved. */
  method TopBits(bits: Bitmap, n: nat) returns (top: Bitmap)
    requires n <= |bits|
    ensures MostSignificant(bits, n, top)
  {
    top := {};
    var free, remain, i := bits, n, 16;
    while 0 < i && 0 < remain
      invariant 0 <= i <= 16
      invariant top + free == bits && top !! free && |top| + remain == n
      invariant forall j :: j in bits ==> (j in top <==> i <= j) || remain == 0
      invariant forall j, k :: j in top && k in free ==> k < j
    {
      i := i - 1;
      if i in free {
        top := top + {i};
        free := free - {i};
        remain := remain - 1;
      }
    }
  }

  // ---------------------------------------------------------------------------------------------
  // Conservation
  // ---------------------------------------------------------------------------------------------

  /** The free bits of all the tracked blocks. */
  ghost function FreeCnt(m: BitsOf): nat {
    if m == map[] then 0 else
      var nr :| nr in m;
      |m[nr]| + FreeCnt(m - {nr})
  }

  /** Any block can be counted first. */
  lemma {:induction false} FreeCntSplit(m: BitsOf, nr: nat)
    requires nr in m
    ensures FreeCnt(m) == |m[nr]| + FreeCnt(m - {nr})
    decreases |m|
  {
    var first :| first in m && FreeCnt(m) == |m[first]| + FreeCnt(m - {first});
    if first != nr {
      FreeCntSplit(m - {first}, nr);
      FreeCntSplit(m - {nr}, first);
      assert m - {first} - {nr} == m - {nr} - {first};
    }
  }

  /** What an allocation takes from a block, a deallocation of the same bits gives back. */
  lemma {:induction false} WithoutWith(m: BitsOf, nr: nat, bits: Bitmap)
    requires nr in m && bits <= m[nr] && bits != {}
    ensures With(Without(m, nr, bits), nr, bits) == m
  {
    assert m[nr] - bits + bits == m[nr];
  }

  lemma {:induction false} WithoutCover(m: BitsOf, nr: nat, bits: Bitmap, blk: nat, bit: nat)
    requires nr in m && bits <= m[nr]
    ensures Cover(Without(m, nr, bits), blk, bit) + Sub(nr, bits).Cover(blk, bit) == Cover(m, blk, bit)
  {
  }

  lemma {:induction false} WithoutFreeCnt(m: BitsOf, nr: nat, bits: Bitmap)
    requires nr in m && bits <= m[nr]
    ensures FreeCnt(Without(m, nr, bits)) + |bits| == FreeCnt(m)
  {
    FreeCntSplit(m, nr);
    if m[nr] != bits {
      var rest := Without(m, nr, bits);
      FreeCntSplit(rest, nr);
      assert rest - {nr} == m - {nr};
      assert m[nr] == bits + (m[nr] - bits);
    }
  }

  lemma {:induction false} WithCover(m: BitsOf, nr: nat, bits: Bitmap, blk: nat, bit: nat)
    requires nr in m ==> m[nr] !! bits
    ensures Cover(With(m, nr, bits), blk, bit) == Cover(m, blk, bit) + Sub(nr, bits).Cover(blk, bit)
  {
  }

  lemma {:induction false} WithFreeCnt(m: BitsOf, nr: nat, bits: Bitmap)
    requires nr in m ==> m[nr] !! bits
    ensures FreeCnt(With(m, nr, bits)) == FreeCnt(m) + |bits|
  {
    var more := With(m, nr, bits);
    FreeCntSplit(more, nr);
    assert more - {nr} == m - {nr};
    if nr in m {
      FreeCntSplit(m, nr);
    } else {
      assert m - {nr} == m;
    }
  }
}
