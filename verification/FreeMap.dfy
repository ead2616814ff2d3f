/** Best-fit map of free blocks with two indexes (xoz/alloc/free_map.h, xoz/alloc/free_map.cpp). */
module FreeMaps {
  import opened Outcomes
  import opened Extents

  /** A run of cnt free blocks that starts at block nr. */
  datatype Chunk = Chunk(nr: nat, cnt: nat) {
    function PastEnd(): nat { nr + cnt }

    predicate Holds(blk: nat) { nr <= blk < PastEnd() }

    predicate Overlaps(other: Chunk) { nr < other.PastEnd() && other.nr < PastEnd() }
  }

  // ---------------------------------------------------------------------------------------------
  // The index by block number
  // ---------------------------------------------------------------------------------------------

  ghost predicate WellSized(s: seq<Chunk>) {
    forall i :: 0 <= i < |s| ==> 0 < s[i].cnt <= MAX_BLK_CNT
  }

  /** Ascending by block number and pairwise disjoint. */
  ghost predicate Ascending(s: seq<Chunk>) {
    forall i, j :: 0 <= i < j < |s| ==> s[i].PastEnd() <= s[j].nr
  }

  /** How many chunks hold block blk. */
  function Cover(s: seq<Chunk>, blk: nat): nat {
    if s == [] then 0 else (if s[0].Holds(blk) then 1 else 0) + Cover(s[1..], blk)
  }

  /** How many blocks the chunks hold together. */
  function Total(s: seq<Chunk>): nat {
    if s == [] then 0 else s[0].cnt + Total(s[1..])
  }

  lemma {:induction false} CoverAppend(s: seq<Chunk>, t: seq<Chunk>, blk: nat)
    ensures Cover(s + t, blk) == Cover(s, blk) + Cover(t, blk)
  {
    if s == [] {
      assert s + t == t;
    } else {
      assert (s + t)[1..] == s[1..] + t;
      CoverAppend(s[1..], t, blk);
    }
  }

  lemma {:induction false} TotalAppend(s: seq<Chunk>, t: seq<Chunk>)
    ensures Total(s + t) == Total(s) + Total(t)
  {
    if s == [] {
      assert s + t == t;
    } else {
      assert (s + t)[1..] == s[1..] + t;
      TotalAppend(s[1..], t);
    }
  }

  lemma {:induction false} CoverPositive(s: seq<Chunk>, blk: nat)
    ensures Cover(s, blk) > 0 <==> exists i :: 0 <= i < |s| && s[i].Holds(blk)
  {
    if s != [] {
      CoverPositive(s[1..], blk);
      if Cover(s[1..], blk) > 0 {
        var i :| 0 <= i < |s[1..]| && s[1..][i].Holds(blk);
        assert s[i + 1].Holds(blk);
      }
      if i :| 0 <= i < |s| && s[i].Holds(blk) {
        if i > 0 { assert s[1..][i - 1].Holds(blk); }
      }
    }
  }

  /** The index of the first chunk whose block number is nr or more: std::map::lower_bound. */
  function LowerBoundNr(s: seq<Chunk>, nr: nat): (i: nat)
    requires WellSized(s) && Ascending(s)
    ensures i <= |s|
    ensures forall j :: 0 <= j < i ==> s[j].nr < nr
    ensures forall j :: i <= j < |s| ==> nr <= s[j].nr
  {
    if s == [] || nr <= s[0].nr then 0 else 1 + LowerBoundNr(s[1..], nr)
  }

  // ---------------------------------------------------------------------------------------------
  // The index by block count
  // ---------------------------------------------------------------------------------------------

  ghost predicate SortedByCnt(s: seq<Chunk>) {
    forall i, j :: 0 <= i < j < |s| ==> s[i].cnt <= s[j].cnt
  }

  /** The index of the first chunk of cnt blocks or more: std::multimap::lower_bound. */
  function LowerBoundCnt(s: seq<Chunk>, cnt: nat): (i: nat)
    requires SortedByCnt(s)
    ensures i <= |s|
    ensures forall j :: 0 <= j < i ==> s[j].cnt < cnt
    ensures forall j :: i <= j < |s| ==> cnt <= s[j].cnt
  {
    if s == [] || cnt <= s[0].cnt then 0 else 1 + LowerBoundCnt(s[1..], cnt)
  }

  lemma {:induction false} InsertSorted(s: seq<Chunk>, i: nat, c: Chunk)
    requires SortedByCnt(s) && i <= |s|
    requires forall j :: 0 <= j < i ==> s[j].cnt <= c.cnt
    requires forall j :: i <= j < |s| ==> c.cnt <= s[j].cnt
    ensures SortedByCnt(Splice(s, i, i, c))
  {
    var t := Splice(s, i, i, c);
    forall a, b | 0 <= a < b < |t|
      ensures t[a].cnt <= t[b].cnt
    {
      assert t[a] == if a < i then s[a] else if a == i then c else s[a - 1];
      assert t[b] == if b < i then s[b] else if b == i then c else s[b - 1];
    }
  }

  lemma {:induction false} InsertMultiset(s: seq<Chunk>, i: nat, c: Chunk)
    requires i <= |s|
    ensures multiset(Splice(s, i, i, c)) == multiset(s) + multiset{c}
  {
    assert s == s[..i] + s[i..];
  }

  /** t is s with c entered behind all chunks of its size. */
  ghost predicate EnteredBehind(s: seq<Chunk>, t: seq<Chunk>, c: Chunk) {
    exists i ::
      && 0 <= i <= |s| && t == Splice(s, i, i, c)
      && (forall j :: 0 <= j < i ==> s[j].cnt <= c.cnt) && (forall j :: i <= j < |s| ==> c.cnt < s[j].cnt)
  }

  /** std::multimap::insert: behind the chunks of the same count. */
  function InsertByCnt(s: seq<Chunk>, c: Chunk): (t: seq<Chunk>)
    requires SortedByCnt(s)
    ensures SortedByCnt(t) && EnteredBehind(s, t, c)
    ensures multiset(t) == multiset(s) + multiset{c}
  {
    var i := LowerBoundCnt(s, c.cnt + 1);
    InsertSorted(s, i, c);
    InsertMultiset(s, i, c);
    Splice(s, i, i, c)
  }

  function RemoveAt(s: seq<Chunk>, i: nat): (t: seq<Chunk>)
    requires i < |s|
    ensures multiset(t) == multiset(s) - multiset{s[i]}
  {
    assert s == s[..i] + [s[i]] + s[i + 1..];
    s[..i] + s[i + 1..]
  }

  lemma {:induction false} RemoveKeepsSorted(s: seq<Chunk>, i: nat)
    requires i < |s| && SortedByCnt(s)
    ensures SortedByCnt(RemoveAt(s, i))
  {
    var t := RemoveAt(s, i);
    assert forall k :: 0 <= k < |t| ==> t[k] == (if k < i then s[k] else s[k + 1]);
  }

  /** The chunks that are not among those gone, in their order. */
  function Less(t: seq<Chunk>, gone: seq<Chunk>): seq<Chunk> {
    if t == [] then [] else (if t[0] in gone then [] else [t[0]]) + Less(t[1..], gone)
  }

  lemma {:induction false} LessAppend(t: seq<Chunk>, u: seq<Chunk>, gone: seq<Chunk>)
    ensures Less(t + u, gone) == Less(t, gone) + Less(u, gone)
  {
    if t == [] {
      assert t + u == u;
    } else {
      assert (t + u)[1..] == t[1..] + u;
      LessAppend(t[1..], u, gone);
    }
  }

  /** Taking away first these and then those. */
  lemma {:induction false} LessTwice(t: seq<Chunk>, gone: seq<Chunk>, more: seq<Chunk>)
    ensures Less(Less(t, gone), more) == Less(t, gone + more)
    ensures Less(t, gone + more) == Less(t, more + gone)
  {
    if t != [] {
      LessTwice(t[1..], gone, more);
      LessAppend(if t[0] in gone then [] else [t[0]], Less(t[1..], gone), more);
    }
  }

  lemma {:induction false} LessElements(t: seq<Chunk>, gone: seq<Chunk>)
    ensures forall c :: c in Less(t, gone) <==> c in t && c !in gone
  {
    if t != [] {
      LessElements(t[1..], gone);
      assert t == [t[0]] + t[1..];
    }
  }

  lemma {:induction false} LessNothing(t: seq<Chunk>, gone: seq<Chunk>)
    requires forall c :: c in gone ==> c !in t
    ensures Less(t, gone) == t
  {
    if t != [] {
      assert t == [t[0]] + t[1..];
      assert forall c :: c in gone && c in t[1..] ==> c in t;
      LessNothing(t[1..], gone);
    }
  }

  /** Removing the only chunk of its kind. */
  lemma {:induction false} RemoveIsLess(t: seq<Chunk>, k: nat)
    requires k < |t| && multiset(t)[t[k]] == 1
    ensures RemoveAt(t, k) == Less(t, [t[k]])
  {
    hide Less;
    OnlyOne(t, k);
    var a, c, b := t[..k], t[k], t[k + 1..];
    assert t == a + ([c] + b);
    LessAppend(a, [c] + b, [c]);
    LessAppend([c], b, [c]);
    LessNothing(a, [c]);
    LessNothing(b, [c]);
    LessSame(c);
  }

  lemma {:induction false} LessSame(c: Chunk)
    ensures Less([c], [c]) == []
  {
  }

  lemma {:induction false} OnlyOne(t: seq<Chunk>, k: nat)
    requires k < |t| && multiset(t)[t[k]] == 1
    ensures t[k] !in t[..k] && t[k] !in t[k + 1..]
  {
    var a, b := t[..k], t[k + 1..];
    assert t == a + [t[k]] + b;
    assert multiset(t) == multiset(a) + multiset{t[k]} + multiset(b);
    assert t[k] !in multiset(a) && t[k] !in multiset(b);
  }

  lemma {:induction false} LessBounds(t: seq<Chunk>, gone: seq<Chunk>, cnt: nat)
    ensures (forall j :: 0 <= j < |t| ==> t[j].cnt <= cnt) ==>
              forall j :: 0 <= j < |Less(t, gone)| ==> Less(t, gone)[j].cnt <= cnt
    ensures (forall j :: 0 <= j < |t| ==> cnt < t[j].cnt) ==>
              forall j :: 0 <= j < |Less(t, gone)| ==> cnt < Less(t, gone)[j].cnt
  {
    hide Less;
    LessElements(t, gone);
    forall j | 0 <= j < |Less(t, gone)|
      ensures Less(t, gone)[j] in t
    {
      assert Less(t, gone)[j] in Less(t, gone);
    }
  }

  lemma {:induction false} EnteredAt(a: seq<Chunk>, b: seq<Chunk>, c: Chunk)
    requires (forall j :: 0 <= j < |a| ==> a[j].cnt <= c.cnt) && (forall j :: 0 <= j < |b| ==> c.cnt < b[j].cnt)
    ensures EnteredBehind(a + b, a + ([c] + b), c)
  {
    assert a + ([c] + b) == Splice(a + b, |a|, |a|, c);
  }

  /** It makes no difference for the place of a chunk whether others go before or after it is entered. */
  lemma {:induction false} EnteredLess(s: seq<Chunk>, t: seq<Chunk>, c: Chunk, gone: seq<Chunk>)
    requires EnteredBehind(s, t, c) && c !in gone
    ensures EnteredBehind(Less(s, gone), Less(t, gone), c)
  {
    hide Less;
    var i :| 0 <= i <= |s| && t == Splice(s, i, i, c) && (forall j :: 0 <= j < i ==> s[j].cnt <= c.cnt)
        && (forall j :: i <= j < |s| ==> c.cnt < s[j].cnt);
    var a, b := s[..i], s[i..];
    assert s == a + b && t == a + ([c] + b);
    LessAppend(a, b, gone);
    LessAppend(a, [c] + b, gone);
    LessAppend([c], b, gone);
    LessNothing([c], gone);
    LessBounds(a, gone, c.cnt);
    LessBounds(b, gone, c.cnt);
    EnteredAt(Less(a, gone), Less(b, gone), c);
  }

  /** chunks[lo..hi] replaced by the single chunk c. */
  function Splice(s: seq<Chunk>, lo: nat, hi: nat, c: Chunk): seq<Chunk>
    requires lo <= hi <= |s|
  {
    s[..lo] + [c] + s[hi..]
  }

  // ---------------------------------------------------------------------------------------------
  // What an allocation and a deallocation do to the chunks
  // ---------------------------------------------------------------------------------------------

  /** A chunk serves n blocks if it has exactly n, or so many more that the rest is above the split threshold. */
  predicate Usable(c: Chunk, n: nat, splitAbove: nat) {
    c.cnt == n || c.cnt > n + splitAbove
  }

  /** The first of the chunks that serves n blocks, or |t|. */
  function FirstUsable(t: seq<Chunk>, n: nat, splitAbove: nat): (k: nat)
    ensures k <= |t| && (k < |t| ==> Usable(t[k], n, splitAbove))
    ensures forall j :: 0 <= j < k ==> !Usable(t[j], n, splitAbove)
  {
    if t == [] || Usable(t[0], n, splitAbove) then 0 else 1 + FirstUsable(t[1..], n, splitAbove)
  }

  lemma {:induction false} FirstUsableIs(t: seq<Chunk>, n: nat, splitAbove: nat, k: nat)
    requires k <= |t| && (k < |t| ==> Usable(t[k], n, splitAbove))
    requires forall j :: 0 <= j < k ==> !Usable(t[j], n, splitAbove)
    ensures k == FirstUsable(t, n, splitAbove)
  {
  }

  /**
   * A chunk that has been freed last is not taken before a chunk of its size or a smaller one that serves; where it is
   * the only one to serve, or the smallest, it is taken.
   */
  lemma {:induction false} OldestFirst(s: seq<Chunk>, t: seq<Chunk>, c: Chunk, n: nat, splitAbove: nat)
    requires EnteredBehind(s, t, c)
    ensures var k, m := FirstUsable(s, n, splitAbove), FirstUsable(t, n, splitAbove);
            if k < |s| && s[k].cnt <= c.cnt then m < |t| && t[m] == s[k]
            else if Usable(c, n, splitAbove) then m < |t| && t[m] == c
            else m < |t| <==> k < |s|
  {
    hide FirstUsable, Usable;
    var i :| 0 <= i <= |s| && t == Splice(s, i, i, c) && (forall j :: 0 <= j < i ==> s[j].cnt <= c.cnt)
        && (forall j :: i <= j < |s| ==> c.cnt < s[j].cnt);
    assert s == s[..i] + s[i..] && t == s[..i] + ([c] + s[i..]);
    OldestOf(s[..i], s[i..], c, n, splitAbove);
  }

  lemma {:induction false} OldestOf(a: seq<Chunk>, b: seq<Chunk>, c: Chunk, n: nat, splitAbove: nat)
    requires (forall j :: 0 <= j < |a| ==> a[j].cnt <= c.cnt) && (forall j :: 0 <= j < |b| ==> c.cnt < b[j].cnt)
    ensures var s, t := a + b, a + ([c] + b);
            var k, m := FirstUsable(s, n, splitAbove), FirstUsable(t, n, splitAbove);
            if k < |s| && s[k].cnt <= c.cnt then m < |t| && t[m] == s[k]
            else if Usable(c, n, splitAbove) then m < |t| && t[m] == c
            else m < |t| <==> k < |s|
  {
    hide Usable;
    FirstUsableAppend(a, b, n, splitAbove);
    FirstUsableAppend(a, [c] + b, n, splitAbove);
    FirstUsableAppend([c], b, n, splitAbove);
  }

  lemma {:induction false} FirstUsableAppend(a: seq<Chunk>, b: seq<Chunk>, n: nat, splitAbove: nat)
    ensures var k := FirstUsable(a, n, splitAbove);
            FirstUsable(a + b, n, splitAbove) == if k < |a| then k else |a| + FirstUsable(b, n, splitAbove)
  {
    var k := FirstUsable(a, n, splitAbove);
    FirstUsableIs(a + b, n, splitAbove, if k < |a| then k else |a| + FirstUsable(b, n, splitAbove));
  }

  /** The size of the largest chunk below n; 0 stands for none. */
  function HintBelow(t: seq<Chunk>, n: nat): (h: nat)
    requires SortedByCnt(t) && 0 < n
    ensures IsHint(t, n, h)
  {
    var i := LowerBoundCnt(t, n);
    if 0 < i then t[i - 1].cnt else 0
  }

  predicate MergesNext(s: seq<Chunk>, c: Chunk)
    requires WellSized(s) && Ascending(s)
  {
    var i := LowerBoundNr(s, c.nr);
    i < |s| && c.PastEnd() == s[i].nr && c.cnt + s[i].cnt <= MAX_BLK_CNT
  }

  function WithNext(s: seq<Chunk>, c: Chunk): Chunk
    requires WellSized(s) && Ascending(s)
  {
    if MergesNext(s, c) then Chunk(c.nr, c.cnt + s[LowerBoundNr(s, c.nr)].cnt) else c
  }

  predicate MergesPrev(s: seq<Chunk>, c: Chunk)
    requires WellSized(s) && Ascending(s)
  {
    var i := LowerBoundNr(s, c.nr);
    0 < i && s[i - 1].PastEnd() == c.nr && s[i - 1].cnt + WithNext(s, c).cnt <= MAX_BLK_CNT
  }

  /** The chunks [FreedLo, FreedHi) merge with c into the chunk FreedChunk. */
  function FreedLo(s: seq<Chunk>, c: Chunk, coalescing: bool): nat
    requires WellSized(s) && Ascending(s)
  {
    var i := LowerBoundNr(s, c.nr);
    if coalescing && MergesPrev(s, c) then i - 1 else i
  }

  function FreedHi(s: seq<Chunk>, c: Chunk, coalescing: bool): nat
    requires WellSized(s) && Ascending(s)
  {
    var i := LowerBoundNr(s, c.nr);
    if coalescing && MergesNext(s, c) then i + 1 else i
  }

  function FreedChunk(s: seq<Chunk>, c: Chunk, coalescing: bool): Chunk
    requires WellSized(s) && Ascending(s)
  {
    if !coalescing then c
    else if MergesPrev(s, c) then
      var prev := s[LowerBoundNr(s, c.nr) - 1];
      Chunk(prev.nr, prev.cnt + WithNext(s, c).cnt)
    else WithNext(s, c)
  }

  /** The chunks that merge with c. */
  function FreedAway(s: seq<Chunk>, c: Chunk, coalescing: bool): seq<Chunk>
    requires WellSized(s) && Ascending(s)
  {
    s[FreedLo(s, c, coalescing)..FreedHi(s, c, coalescing)]
  }

  /** The chunks after c was freed: merged first with the next chunk, then with the previous one, where they touch. */
  function Freed(s: seq<Chunk>, c: Chunk, coalescing: bool): seq<Chunk>
    requires WellSized(s) && Ascending(s)
  {
    Splice(s, FreedLo(s, c, coalescing), FreedHi(s, c, coalescing), FreedChunk(s, c, coalescing))
  }

  ghost predicate Clear(s: seq<Chunk>, c: Chunk) {
    forall i :: 0 <= i < |s| ==> !s[i].Overlaps(c)
  }

  lemma {:induction false} SpliceAt(s: seq<Chunk>, lo: nat, hi: nat, c: Chunk, k: nat)
    requires lo <= hi <= |s| && k < |Splice(s, lo, hi, c)|
    ensures Splice(s, lo, hi, c)[k] == if k < lo then s[k] else if k == lo then c else s[k + (hi - lo - 1)]
  {
  }

  lemma {:induction false} SpliceAscending(s: seq<Chunk>, lo: nat, hi: nat, c: Chunk)
    requires lo <= hi <= |s| && WellSized(s) && Ascending(s)
    requires 0 < c.cnt <= MAX_BLK_CNT
    requires 0 < lo ==> s[lo - 1].PastEnd() <= c.nr
    requires hi < |s| ==> c.PastEnd() <= s[hi].nr
    ensures WellSized(Splice(s, lo, hi, c)) && Ascending(Splice(s, lo, hi, c))
  {
    var t := Splice(s, lo, hi, c);
    forall a | 0 <= a < |t|
      ensures 0 < t[a].cnt <= MAX_BLK_CNT && (a < lo ==> t[a].PastEnd() <= c.nr) && (lo < a ==> c.PastEnd() <= t[a].nr)
    {
      SpliceAt(s, lo, hi, c, a);
    }
    forall a, b | 0 <= a < b < |t|
      ensures t[a].PastEnd() <= t[b].nr
    {
      SpliceAt(s, lo, hi, c, a);
      SpliceAt(s, lo, hi, c, b);
    }
  }

  lemma {:induction false} SpliceCounts(s: seq<Chunk>, lo: nat, hi: nat, c: Chunk, blk: nat)
    requires lo <= hi <= |s|
    ensures Cover(Splice(s, lo, hi, c), blk) + Cover(s[lo..hi], blk) == Cover(s, blk) + (if c.Holds(blk) then 1 else 0)
    ensures Total(Splice(s, lo, hi, c)) + Total(s[lo..hi]) == Total(s) + c.cnt
  {
    assert s == s[..lo] + (s[lo..hi] + s[hi..]);
    assert Splice(s, lo, hi, c) == s[..lo] + ([c] + s[hi..]);
    CoverAppend(s[..lo], s[lo..hi] + s[hi..], blk);
    CoverAppend(s[lo..hi], s[hi..], blk);
    CoverAppend(s[..lo], [c] + s[hi..], blk);
    CoverAppend([c], s[hi..], blk);
    TotalAppend(s[..lo], s[lo..hi] + s[hi..]);
    TotalAppend(s[lo..hi], s[hi..]);
    TotalAppend(s[..lo], [c] + s[hi..]);
    TotalAppend([c], s[hi..]);
  }

  /** The neighbours of a chunk that overlaps none lie to its left and to its right. */
  lemma {:induction false} ClearNeighbours(s: seq<Chunk>, c: Chunk)
    requires WellSized(s) && Ascending(s) && 0 < c.cnt && Clear(s, c)
    ensures var i := LowerBoundNr(s, c.nr);
            (0 < i ==> s[i - 1].PastEnd() <= c.nr) && (i < |s| ==> c.PastEnd() <= s[i].nr)
  {
    var i := LowerBoundNr(s, c.nr);
    if i < |s| { assert !s[i].Overlaps(c); }
    if 0 < i { assert !s[i - 1].Overlaps(c); }
  }

  /** Freeing a chunk that overlaps none keeps the map well formed. */
  lemma {:induction false} FreedWellFormed(s: seq<Chunk>, c: Chunk, coalescing: bool)
    requires WellSized(s) && Ascending(s) && 0 < c.cnt <= MAX_BLK_CNT && Clear(s, c)
    ensures WellSized(Freed(s, c, coalescing)) && Ascending(Freed(s, c, coalescing))
  {
    ClearNeighbours(s, c);
    SpliceAscending(s, FreedLo(s, c, coalescing), FreedHi(s, c, coalescing), FreedChunk(s, c, coalescing));
  }

  lemma {:induction false} MergedCounts(s: seq<Chunk>, c: Chunk, coalescing: bool, blk: nat)
    requires WellSized(s) && Ascending(s) && 0 < c.cnt <= MAX_BLK_CNT && Clear(s, c)
    ensures var lo, hi := FreedLo(s, c, coalescing), FreedHi(s, c, coalescing);
            var merged := FreedChunk(s, c, coalescing);
            Cover(s[lo..hi], blk) + (if c.Holds(blk) then 1 else 0) == (if merged.Holds(blk) then 1 else 0)
            && Total(s[lo..hi]) + c.cnt == merged.cnt
  {
    hide Cover, Total, LowerBoundNr;
    var i := LowerBoundNr(s, c.nr);
    var lo, hi := FreedLo(s, c, coalescing), FreedHi(s, c, coalescing);
    ClearNeighbours(s, c);
    NoChunks(blk);
    if 0 < i { OneChunk(s[i - 1], blk); }
    if i < |s| { OneChunk(s[i], blk); }
    if lo < i < hi {
      assert s[lo..hi] == [s[i - 1]] + [s[i]];
      CoverAppend([s[i - 1]], [s[i]], blk);
      TotalAppend([s[i - 1]], [s[i]]);
    } else if lo < i {
      assert s[lo..hi] == [s[i - 1]];
    } else if i < hi {
      assert s[lo..hi] == [s[i]];
    } else {
      assert s[lo..hi] == [];
    }
  }

  lemma {:induction false} NoChunks(blk: nat)
    ensures Cover([], blk) == 0 && Total([]) == 0
  {
  }

  lemma {:induction false} OneChunk(c: Chunk, blk: nat)
    ensures Cover([c], blk) == (if c.Holds(blk) then 1 else 0) && Total([c]) == c.cnt
  {
  }

  /** Freeing a chunk that overlaps none adds exactly its blocks. */
  lemma {:induction false} FreedCounts(s: seq<Chunk>, c: Chunk, coalescing: bool, blk: nat)
    requires WellSized(s) && Ascending(s) && 0 < c.cnt <= MAX_BLK_CNT && Clear(s, c)
    ensures Cover(Freed(s, c, coalescing), blk) == Cover(s, blk) + (if c.Holds(blk) then 1 else 0)
    ensures Total(Freed(s, c, coalescing)) == Total(s) + c.cnt
  {
    MergedCounts(s, c, coalescing, blk);
    SpliceCounts(s, FreedLo(s, c, coalescing), FreedHi(s, c, coalescing), FreedChunk(s, c, coalescing), blk);
  }

  /** std::map::find of a chunk of the index. */
  lemma {:induction false} Found(s: seq<Chunk>, c: Chunk)
    requires WellSized(s) && Ascending(s) && c in s
    ensures LowerBoundNr(s, c.nr) < |s| && s[LowerBoundNr(s, c.nr)] == c
  {
    var i :| 0 <= i < |s| && s[i] == c;
    assert forall a, b :: 0 <= a < b < |s| ==> s[a].nr < s[b].nr;
  }

  lemma {:induction false} CountsBounded(s: seq<Chunk>, t: seq<Chunk>)
    requires WellSized(s) && multiset(s) == multiset(t)
    ensures WellSized(t)
  {
    forall i | 0 <= i < |t|
      ensures 0 < t[i].cnt <= MAX_BLK_CNT
    {
      assert t[i] in multiset(s);
    }
  }

  /** The chunks after the first n blocks of chunk i were taken. */
  function Taken(s: seq<Chunk>, i: nat, n: nat): seq<Chunk>
    requires i < |s| && n <= s[i].cnt
  {
    if s[i].cnt == n then RemoveAt(s, i) else s[i := Chunk(s[i].nr + n, s[i].cnt - n)]
  }

  /** The chunks after the first n blocks of the chunk that starts at block nr were taken. */
  function TakenByNr(s: seq<Chunk>, nr: nat, n: nat): seq<Chunk>
    requires WellSized(s) && Ascending(s)
  {
    var i := LowerBoundNr(s, nr);
    if i < |s| && n <= s[i].cnt then Taken(s, i, n) else s
  }

  lemma {:induction false} RemoveWellFormed(s: seq<Chunk>, i: nat)
    requires WellSized(s) && Ascending(s) && i < |s|
    ensures WellSized(RemoveAt(s, i)) && Ascending(RemoveAt(s, i))
  {
    var t := RemoveAt(s, i);
    assert forall k :: 0 <= k < |t| ==> t[k] == (if k < i then s[k] else s[k + 1]);
  }

  lemma {:induction false} TakenWellFormed(s: seq<Chunk>, i: nat, n: nat)
    requires WellSized(s) && Ascending(s) && i < |s| && 0 < n <= s[i].cnt
    ensures WellSized(Taken(s, i, n)) && Ascending(Taken(s, i, n))
  {
    var t := Taken(s, i, n);
    if s[i].cnt == n {
      RemoveWellFormed(s, i);
    } else {
      assert forall k :: 0 <= k < |t| ==> t[k].PastEnd() == s[k].PastEnd() && s[k].nr <= t[k].nr;
    }
  }

  lemma {:induction false} TakenCounts(s: seq<Chunk>, i: nat, n: nat, blk: nat)
    requires i < |s| && 0 < n <= s[i].cnt
    ensures Cover(Taken(s, i, n), blk) + (if s[i].nr <= blk < s[i].nr + n then 1 else 0) == Cover(s, blk)
    ensures Total(Taken(s, i, n)) + n == Total(s)
  {
    var c := s[i];
    assert s[i..i + 1] == [c];
    if c.cnt == n {
      assert s == s[..i] + ([c] + s[i + 1..]);
      CoverAppend(s[..i], [c] + s[i + 1..], blk);
      CoverAppend([c], s[i + 1..], blk);
      CoverAppend(s[..i], s[i + 1..], blk);
      TotalAppend(s[..i], [c] + s[i + 1..]);
      TotalAppend([c], s[i + 1..]);
      TotalAppend(s[..i], s[i + 1..]);
    } else {
      var d := Chunk(c.nr + n, c.cnt - n);
      assert Taken(s, i, n) == Splice(s, i, i + 1, d);
      SpliceCounts(s, i, i + 1, d, blk);
    }
  }

  /** The same step in the index by count. */
  function TakenByCnt(t: seq<Chunk>, k: nat, n: nat): (u: seq<Chunk>)
    requires k < |t| && n <= t[k].cnt && SortedByCnt(t)
    ensures SortedByCnt(u)
    ensures multiset(u) == if t[k].cnt == n then multiset(t) - multiset{t[k]}
                           else multiset(t) - multiset{t[k]} + multiset{Chunk(t[k].nr + n, t[k].cnt - n)}
  {
    RemoveKeepsSorted(t, k);
    var rest := RemoveAt(t, k);
    if t[k].cnt == n then rest else InsertByCnt(rest, Chunk(t[k].nr + n, t[k].cnt - n))
  }

  lemma {:induction false} TakenMultiset(s: seq<Chunk>, i: nat, n: nat)
    requires i < |s| && n <= s[i].cnt
    ensures multiset(Taken(s, i, n)) == if s[i].cnt == n then multiset(s) - multiset{s[i]}
                                        else multiset(s) - multiset{s[i]} + multiset{Chunk(s[i].nr + n, s[i].cnt - n)}
  {
    if s[i].cnt != n {
      UpdateMultiset(s, i, Chunk(s[i].nr + n, s[i].cnt - n));
    }
  }

  lemma {:induction false} SameTaken(s: seq<Chunk>, t: seq<Chunk>, i: nat, k: nat, n: nat)
    requires SortedByCnt(t) && multiset(s) == multiset(t) && k < |t| && i < |s| && s[i] == t[k] && 0 < n <= t[k].cnt
    ensures multiset(Taken(s, i, n)) == multiset(TakenByCnt(t, k, n))
  {
    hide *;
    TakenMultiset(s, i, n);
  }

  lemma {:induction false} UpdateMultiset(s: seq<Chunk>, i: nat, c: Chunk)
    requires i < |s|
    ensures multiset(s[i := c]) == multiset(s) - multiset{s[i]} + multiset{c}
  {
  }

  /** The two indexes are well formed and hold the same chunks. */
  ghost predicate Coherent(s: seq<Chunk>, t: seq<Chunk>) {
    && WellSized(s)
    && Ascending(s)
    && SortedByCnt(t)
    && multiset(s) == multiset(t)
  }

  /** Coherent but for overlaps: what holds between the steps of a deallocation. */
  ghost predicate Synced(s: seq<Chunk>, t: seq<Chunk>) {
    StrictNr(s) && SortedByCnt(t) && multiset(s) == multiset(t)
  }

  ghost predicate StrictNr(s: seq<Chunk>) {
    forall i, j :: 0 <= i < j < |s| ==> s[i].nr < s[j].nr
  }

  /** A chunk numbered nr fits at index i. */
  ghost predicate Between(s: seq<Chunk>, i: nat, nr: nat) {
    i <= |s| && (0 < i ==> s[i - 1].nr < nr) && (i < |s| ==> nr < s[i].nr)
  }

  lemma {:induction false} SyncedUnique(s: seq<Chunk>, t: seq<Chunk>, i: nat)
    requires Synced(s, t) && i < |s|
    ensures s[i] in t
    ensures forall c :: c in t && c.nr == s[i].nr ==> c == s[i]
  {
    assert s[i] in multiset(s);
    forall c | c in t && c.nr == s[i].nr
      ensures c == s[i]
    {
      assert c in multiset(t);
      var j :| 0 <= j < |s| && s[j] == c;
    }
  }

  lemma {:induction false} SyncedOnce(s: seq<Chunk>, t: seq<Chunk>, i: nat)
    requires Synced(s, t) && i < |s|
    ensures multiset(t)[s[i]] == 1
  {
    var a, b := s[..i], s[i + 1..];
    assert s == a + [s[i]] + b;
    assert multiset(s) == multiset(a) + multiset{s[i]} + multiset(b);
    assert s[i] !in a && s[i] !in b;
  }

  lemma {:induction false} RemoveKeepsStrict(s: seq<Chunk>, i: nat)
    requires i < |s| && StrictNr(s)
    ensures StrictNr(RemoveAt(s, i))
  {
    var t := RemoveAt(s, i);
    assert forall k :: 0 <= k < |t| ==> t[k] == (if k < i then s[k] else s[k + 1]);
  }

  lemma {:induction false} SpliceStrict(s: seq<Chunk>, i: nat, c: Chunk)
    requires i <= |s| && StrictNr(s) && Between(s, i, c.nr)
    ensures StrictNr(Splice(s, i, i, c))
  {
    var t := Splice(s, i, i, c);
    forall a, b | 0 <= a < b < |t|
      ensures t[a].nr < t[b].nr
    {
      assert t[a] == if a < i then s[a] else if a == i then c else s[a - 1];
      assert t[b] == if b < i then s[b] else if b == i then c else s[b - 1];
    }
  }

  /** A chunk that overlaps any chunk of the map overlaps one of its two neighbours. */
  lemma {:induction false} NeighboursDecide(s: seq<Chunk>, c: Chunk)
    requires WellSized(s) && Ascending(s) && 0 < c.cnt
    ensures var i := LowerBoundNr(s, c.nr);
            Clear(s, c) <==> (0 < i ==> !s[i - 1].Overlaps(c)) && (i < |s| ==> !s[i].Overlaps(c))
  {
    var i := LowerBoundNr(s, c.nr);
    if (0 < i ==> !s[i - 1].Overlaps(c)) && (i < |s| ==> !s[i].Overlaps(c)) {
      forall k | 0 <= k < |s|
        ensures !s[k].Overlaps(c)
      {
        if k < i - 1 { assert s[k].PastEnd() <= s[i - 1].nr; }
        if i < k { assert s[i].PastEnd() <= s[k].nr; }
      }
    }
  }

  lemma {:induction false} StrictOfAscending(s: seq<Chunk>)
    requires WellSized(s) && Ascending(s)
    ensures StrictNr(s)
  {
  }

  /** No chunk starts where a chunk that overlaps none starts: the two bounds agree. */
  lemma {:induction false} UpperBoundNr(s: seq<Chunk>, c: Chunk)
    requires WellSized(s) && Ascending(s) && 0 < c.cnt && Clear(s, c)
    ensures LowerBoundNr(s, c.nr + 1) == LowerBoundNr(s, c.nr)
  {
    var i, j := LowerBoundNr(s, c.nr), LowerBoundNr(s, c.nr + 1);
    assert i < |s| ==> !s[i].Overlaps(c);
    assert j < |s| ==> c.nr + 1 <= s[j].nr;
  }

  /** Replacing, dropping and adding around index i are splices. */
  lemma {:induction false} SpliceSteps(s: seq<Chunk>, i: nat, c: Chunk)
    requires i <= |s|
    ensures 0 < i ==> s[i - 1 := c] == Splice(s, i - 1, i, c)
    ensures 0 < i < |s| ==> RemoveAt(s[i - 1 := c], i) == Splice(s, i - 1, i + 1, c)
    ensures i < |s| ==> Splice(RemoveAt(s, i), i, i, c) == Splice(s, i, i + 1, c)
  {
  }

  /** What the two tests of a coalescing deallocation find out about the chunks around c. */
  lemma {:induction false} CoalesceTests(s: seq<Chunk>, c: Chunk, i: nat)
    requires WellSized(s) && Ascending(s) && 0 < c.cnt <= MAX_BLK_CNT && Clear(s, c) && i == LowerBoundNr(s, c.nr + 1)
    ensures i == LowerBoundNr(s, c.nr) && WithNext(s, c).nr == c.nr
    ensures MergesNext(s, c) <==> i < |s| && c.PastEnd() == s[i].nr && s[i].cnt + c.cnt <= MAX_BLK_CNT
    ensures MergesPrev(s, c) <==>
            0 < i && s[i - 1].PastEnd() == c.nr && s[i - 1].cnt + WithNext(s, c).cnt <= MAX_BLK_CNT
    ensures Between(s, i, c.nr) && (i < |s| ==> Between(RemoveAt(s, i), i, c.nr))
  {
    ClearNeighbours(s, c);
    UpperBoundNr(s, c);
  }

  /** The index by number after chunk `next` was dropped and its predecessor grown, or the merged chunk added. */
  function MergeSteps(s: seq<Chunk>, next: nat, merged: Chunk, withNext: bool, withPrev: bool): seq<Chunk>
    requires next <= |s| && (withNext ==> next < |s|) && (withPrev ==> 0 < next)
  {
    if withPrev then
      var grown := s[next - 1 := Chunk(s[next - 1].nr, s[next - 1].cnt + merged.cnt)];
      if withNext then RemoveAt(grown, next) else grown
    else Splice(if withNext then RemoveAt(s, next) else s, next, next, merged)
  }

  /** The chunks that such steps take away. */
  function MergedAway(s: seq<Chunk>, next: nat, withNext: bool, withPrev: bool): seq<Chunk>
    requires next <= |s| && (withNext ==> next < |s|) && (withPrev ==> 0 < next)
  {
    s[if withPrev then next - 1 else next..if withNext then next + 1 else next]
  }

  /** The chunk that they enter. */
  function MergedInto(s: seq<Chunk>, next: nat, merged: Chunk, withPrev: bool): Chunk
    requires next <= |s| && (withPrev ==> 0 < next)
  {
    if withPrev then Chunk(s[next - 1].nr, s[next - 1].cnt + merged.cnt) else merged
  }

  lemma {:induction false} MergedParts(s: seq<Chunk>, t: seq<Chunk>, next: nat, merged: Chunk, withNext: bool,
      withPrev: bool)
    requires next <= |s| && (withNext ==> next < |s|) && (withPrev ==> 0 < next) && Synced(s, t)
    ensures var gone := MergedAway(s, next, withNext, withPrev);
            && (!withPrev && !withNext ==> gone == [] && Less(t, gone) == t)
            && (!withPrev && withNext ==> gone == [s[next]] && next <= |RemoveAt(s, next)|)
            && (withPrev && !withNext ==> gone == [s[next - 1]])
            && (withPrev && withNext ==> gone == [s[next - 1], s[next]] && s[next - 1].nr < s[next].nr)
  {
    LessNothing(t, []);
  }

  lemma {:induction false} EnteredThenLess(t: seq<Chunk>, prev: Chunk, next: Chunk, grown: Chunk, t1: seq<Chunk>)
    requires EnteredBehind(Less(t, [prev]), t1, grown) && grown != next
    ensures EnteredBehind(Less(t, [prev, next]), Less(t1, [next]), grown)
  {
    EnteredLess(Less(t, [prev]), t1, grown, [next]);
    LessTwice(t, [prev], [next]);
    assert [prev] + [next] == [prev, next];
  }

  lemma {:induction false} FreedParts(s: seq<Chunk>, c: Chunk)
    requires WellSized(s) && Ascending(s)
    ensures var i, m := LowerBoundNr(s, c.nr), WithNext(s, c);
            && FreedLo(s, c, true) == (if MergesPrev(s, c) then i - 1 else i)
            && FreedHi(s, c, true) == (if MergesNext(s, c) then i + 1 else i)
            && FreedChunk(s, c, true) == if MergesPrev(s, c) then Chunk(s[i - 1].nr, s[i - 1].cnt + m.cnt) else m
  {
  }

  /** The four ways a chunk is merged, step by step, end in Freed. */
  lemma {:induction false} CoalescePlan(s: seq<Chunk>, c: Chunk, i: nat)
    requires WellSized(s) && Ascending(s) && i == LowerBoundNr(s, c.nr)
    ensures Freed(s, c, true) == MergeSteps(s, i, WithNext(s, c), MergesNext(s, c), MergesPrev(s, c))
    ensures FreedAway(s, c, true) == MergedAway(s, i, MergesNext(s, c), MergesPrev(s, c))
    ensures FreedChunk(s, c, true) == MergedInto(s, i, WithNext(s, c), MergesPrev(s, c))
  {
    hide Ascending, WellSized, WithNext, FreedLo, FreedHi, FreedChunk, Splice, RemoveAt;
    FreedParts(s, c);
    SpliceSteps(s, i, FreedChunk(s, c, true));
  }

  /** Without coalescing the chunk is added as it is. */
  lemma {:induction false} InsertPlan(s: seq<Chunk>, c: Chunk)
    requires WellSized(s) && Ascending(s) && 0 < c.cnt && Clear(s, c)
    ensures var i := LowerBoundNr(s, c.nr);
            && StrictNr(s) && Between(s, i, c.nr) && i <= |s| && Freed(s, c, false) == Splice(s, i, i, c)
            && FreedAway(s, c, false) == [] && FreedChunk(s, c, false) == c
  {
    ClearNeighbours(s, c);
    StrictOfAscending(s);
  }

  lemma {:induction false} TakenCoherent(s: seq<Chunk>, t: seq<Chunk>, k: nat, n: nat)
    requires Coherent(s, t) && k < |t| && 0 < n <= t[k].cnt
    ensures var i := LowerBoundNr(s, t[k].nr);
            i < |s| && s[i] == t[k] && Coherent(Taken(s, i, n), TakenByCnt(t, k, n))
  {
    assert t[k] in multiset(t);
    Found(s, t[k]);
    var i := LowerBoundNr(s, t[k].nr);
    TakenWellFormed(s, i, n);
    SameTaken(s, t, i, k, n);
  }

  // ---------------------------------------------------------------------------------------------
  // Coalescing
  // ---------------------------------------------------------------------------------------------

  /** No two free chunks touch. */
  ghost predicate Apart(s: seq<Chunk>) {
    forall i :: 0 < i < |s| ==> s[i - 1].PastEnd() < s[i].nr
  }

  predicate TouchesPrev(s: seq<Chunk>, c: Chunk)
    requires WellSized(s) && Ascending(s)
  {
    var i := LowerBoundNr(s, c.nr);
    0 < i && s[i - 1].PastEnd() == c.nr
  }

  predicate TouchesNext(s: seq<Chunk>, c: Chunk)
    requires WellSized(s) && Ascending(s)
  {
    var i := LowerBoundNr(s, c.nr);
    i < |s| && c.PastEnd() == s[i].nr
  }

  /** The size of c together with the chunks that touch it. */
  function JoinedCnt(s: seq<Chunk>, c: Chunk): nat
    requires WellSized(s) && Ascending(s)
  {
    var i := LowerBoundNr(s, c.nr);
    c.cnt + (if TouchesPrev(s, c) then s[i - 1].cnt else 0) + (if TouchesNext(s, c) then s[i].cnt else 0)
  }

  lemma {:induction false} SpliceApart(s: seq<Chunk>, lo: nat, hi: nat, c: Chunk)
    requires lo <= hi <= |s| && Apart(s)
    ensures Apart(Splice(s, lo, hi, c)) <==>
            (0 < lo ==> s[lo - 1].PastEnd() < c.nr) && (hi < |s| ==> c.PastEnd() < s[hi].nr)
  {
    var t := Splice(s, lo, hi, c);
    if 0 < lo { assert t[lo - 1] == s[lo - 1] && t[lo] == c; }
    if hi < |s| { assert t[lo] == c && t[lo + 1] == s[hi]; }
    forall i | 0 < i < |t| && i != lo && i != lo + 1
      ensures t[i - 1].PastEnd() < t[i].nr
    {
      if lo + 1 < i {
        assert t[i] == s[i + (hi - lo - 1)] && t[i - 1] == s[i - 1 + (hi - lo - 1)];
      }
    }
  }

  lemma {:induction false} FreedGaps(s: seq<Chunk>, c: Chunk)
    requires WellSized(s) && Ascending(s) && Apart(s) && 0 < c.cnt <= MAX_BLK_CNT && Clear(s, c)
    ensures var lo, hi, m := FreedLo(s, c, true), FreedHi(s, c, true), FreedChunk(s, c, true);
            && ((0 < lo ==> s[lo - 1].PastEnd() < m.nr) <==> (TouchesPrev(s, c) ==> MergesPrev(s, c)))
            && ((hi < |s| ==> m.PastEnd() < s[hi].nr) <==> (TouchesNext(s, c) ==> MergesNext(s, c)))
  {
    ClearNeighbours(s, c);
    var i := LowerBoundNr(s, c.nr);
    if 1 < i { assert s[i - 2].PastEnd() < s[i - 1].nr; }
    if i + 1 < |s| { assert s[i].PastEnd() < s[i + 1].nr; }
    hide Ascending, WellSized, Apart, Clear;
  }

  /** A coalescing deallocation leaves no two free chunks that touch exactly if what it joins fits the 16-bit count. */
  lemma {:induction false} FreedApart(s: seq<Chunk>, c: Chunk)
    requires WellSized(s) && Ascending(s) && Apart(s) && 0 < c.cnt <= MAX_BLK_CNT && Clear(s, c)
    ensures Apart(Freed(s, c, true)) <==> JoinedCnt(s, c) <= MAX_BLK_CNT
  {
    FreedGaps(s, c);
    SpliceApart(s, FreedLo(s, c, true), FreedHi(s, c, true), FreedChunk(s, c, true));
    assert (TouchesPrev(s, c) ==> MergesPrev(s, c)) && (TouchesNext(s, c) ==> MergesNext(s, c))
           <==> JoinedCnt(s, c) <= MAX_BLK_CNT by { hide Apart, Ascending, Clear, Freed; }
    hide Ascending, WellSized, Apart, Splice, MergesNext, MergesPrev, TouchesPrev, TouchesNext, JoinedCnt;
  }

  /** That is so whenever all the free blocks lie within 0xffff consecutive ones. */
  lemma {:induction false} WithinWindow(s: seq<Chunk>, c: Chunk, lo: nat)
    requires WellSized(s) && Ascending(s) && 0 < c.cnt && Clear(s, c)
    requires forall i :: 0 <= i < |s| ==> lo <= s[i].nr && s[i].PastEnd() <= lo + MAX_BLK_CNT
    requires lo <= c.nr && c.PastEnd() <= lo + MAX_BLK_CNT
    ensures JoinedCnt(s, c) <= MAX_BLK_CNT
  {
    var i := LowerBoundNr(s, c.nr);
    if 0 < i { assert lo <= s[i - 1].nr; }
    if i < |s| { assert s[i].PastEnd() <= lo + MAX_BLK_CNT; }
  }

  /** An allocation never makes two chunks touch. */
  lemma {:induction false} TakenApart(s: seq<Chunk>, i: nat, n: nat)
    requires WellSized(s) && Ascending(s) && Apart(s) && i < |s| && 0 < n <= s[i].cnt
    ensures Apart(Taken(s, i, n))
  {
    var t := Taken(s, i, n);
    forall k | 0 < k < |t|
      ensures t[k - 1].PastEnd() < t[k].nr
    {
      TakenGap(s, i, n, k);
    }
  }

  lemma {:induction false} TakenGap(s: seq<Chunk>, i: nat, n: nat, k: nat)
    requires Apart(s) && i < |s| && 0 < n <= s[i].cnt && 0 < k < |Taken(s, i, n)|
    ensures Taken(s, i, n)[k - 1].PastEnd() < Taken(s, i, n)[k].nr
  {
    assert s[k - 1].PastEnd() < s[k].nr;
    if s[i].cnt == n && i <= k {
      assert s[k].PastEnd() < s[k + 1].nr;
    }
  }

  // -- tidiness over runs --

  ghost predicate InWindow(s: seq<Chunk>, lo: nat) {
    forall i :: 0 <= i < |s| ==> lo <= s[i].nr && s[i].PastEnd() <= lo + MAX_BLK_CNT
  }

  /** No two chunks touch, and all lie within 0xffff blocks from lo on. */
  ghost predicate Tidy(s: seq<Chunk>, lo: nat) {
    Apart(s) && InWindow(s, lo)
  }

  lemma {:induction false} TakenTidy(s: seq<Chunk>, i: nat, n: nat, lo: nat)
    requires WellSized(s) && Ascending(s) && i < |s| && 0 < n <= s[i].cnt
    ensures Tidy(s, lo) ==> Tidy(Taken(s, i, n), lo)
  {
    if Tidy(s, lo) { TakenApart(s, i, n); }
  }

  lemma {:induction false} RemovedTidy(s: seq<Chunk>, i: nat, lo: nat)
    requires WellSized(s) && Ascending(s) && i < |s|
    ensures Tidy(s, lo) ==> Tidy(RemoveAt(s, i), lo)
  {
    if Tidy(s, lo) {
      TakenTidy(s, i, s[i].cnt, lo);
    }
  }

  lemma {:induction false} FreedTidy(s: seq<Chunk>, c: Chunk, lo: nat)
    requires WellSized(s) && Ascending(s) && 0 < c.cnt <= MAX_BLK_CNT && Clear(s, c)
    requires lo <= c.nr && c.PastEnd() <= lo + MAX_BLK_CNT
    ensures Tidy(s, lo) ==> Tidy(Freed(s, c, true), lo)
  {
    if Tidy(s, lo) {
      WithinWindow(s, c, lo);
      FreedApart(s, c);
      FreedInWindow(s, c, lo);
    }
  }

  lemma {:induction false} FreedTidyFrom(s: seq<Chunk>, c: Chunk)
    requires WellSized(s) && Ascending(s) && 0 < c.cnt <= MAX_BLK_CNT && Clear(s, c)
    ensures forall lo: nat :: lo <= c.nr && c.PastEnd() <= lo + MAX_BLK_CNT && Tidy(s, lo) ==>
              Tidy(Freed(s, c, true), lo)
  {
    forall lo: nat | lo <= c.nr && c.PastEnd() <= lo + MAX_BLK_CNT
      ensures Tidy(s, lo) ==> Tidy(Freed(s, c, true), lo)
    {
      FreedTidy(s, c, lo);
    }
  }

  lemma {:induction false} FreedInWindow(s: seq<Chunk>, c: Chunk, lo: nat)
    requires WellSized(s) && Ascending(s) && InWindow(s, lo) && lo <= c.nr && c.PastEnd() <= lo + MAX_BLK_CNT
    ensures InWindow(Freed(s, c, true), lo)
  {
    FreedParts(s, c);
    var t := Freed(s, c, true);
    forall k | 0 <= k < |t|
      ensures lo <= t[k].nr && t[k].PastEnd() <= lo + MAX_BLK_CNT
    {
      SpliceAt(s, FreedLo(s, c, true), FreedHi(s, c, true), FreedChunk(s, c, true), k);
    }
  }

  /** The hint of a failed allocation can be asked for: it is the size of a chunk. */
  lemma {:induction false} HintIsUsable(s: seq<Chunk>, n: nat, splitAbove: nat, h: nat)
    requires IsHint(s, n, h) && 0 < h
    ensures !NoneUsable(s, h, splitAbove)
  {
    var c :| c in s && c.cnt == h;
    assert Usable(c, h, splitAbove);
  }

  // ---------------------------------------------------------------------------------------------
  // Giving chunks back to the tail
  // ---------------------------------------------------------------------------------------------

  predicate Has(s: seq<Chunk>, c: Chunk)
    requires WellSized(s) && Ascending(s)
  {
    var i := LowerBoundNr(s, c.nr);
    i < |s| && s[i] == c
  }

  /** The chunks without the last n. */
  lemma {:induction false} DropLastChunk(s: seq<Chunk>)
    requires WellSized(s) && Ascending(s) && s != []
    ensures var c := s[|s| - 1];
            Has(s, c) && RemoveAt(s, LowerBoundNr(s, c.nr)) == s[..|s| - 1]
            && WellSized(s[..|s| - 1]) && Ascending(s[..|s| - 1])
  {
    Found(s, s[|s| - 1]);
    StrictOfAscending(s);
  }

  // ---------------------------------------------------------------------------------------------
  // The map
  // ---------------------------------------------------------------------------------------------

  ghost predicate NoneUsable(s: seq<Chunk>, n: nat, splitAbove: nat) {
    forall c :: c in s ==> !Usable(c, n, splitAbove)
  }

  /** h is the size of the largest chunk smaller than n; 0 stands for none. */
  ghost predicate IsHint(s: seq<Chunk>, n: nat, h: nat) {
    && h < n
    && (h > 0 ==> exists c :: c in s && c.cnt == h)
    && (forall c :: c in s && c.cnt < n ==> c.cnt <= h)
  }

  /** t is s after ext was taken from the front of the smallest chunk that serves n blocks. */
  ghost predicate BestFit(s: seq<Chunk>, n: nat, splitAbove: nat, ext: Extent, t: seq<Chunk>) {
    && ext.Full? && ext.cnt == n
    && exists i :: 0 <= i < |s| && s[i].nr == ext.nr && Usable(s[i], n, splitAbove) && t == Taken(s, i, n)
                   && forall c :: c in s && Usable(c, n, splitAbove) ==> s[i].cnt <= c.cnt
  }

  lemma {:induction false} UsableTransfer(s: seq<Chunk>, t: seq<Chunk>, n: nat, splitAbove: nat, k: nat)
    requires multiset(s) == multiset(t) && SortedByCnt(t) && k < |t| && Usable(t[k], n, splitAbove)
    requires forall j :: 0 <= j < k ==> !Usable(t[j], n, splitAbove)
    ensures forall c :: c in s && Usable(c, n, splitAbove) ==> t[k].cnt <= c.cnt
  {
    forall c | c in s && Usable(c, n, splitAbove)
      ensures t[k].cnt <= c.cnt
    {
      assert c in multiset(s);
      var j :| 0 <= j < |t| && t[j] == c;
    }
  }

  lemma {:induction false} HintTransfer(s: seq<Chunk>, t: seq<Chunk>, n: nat, splitAbove: nat, h: nat)
    requires multiset(s) == multiset(t) && NoneUsable(t, n, splitAbove) && IsHint(t, n, h)
    ensures NoneUsable(s, n, splitAbove) && IsHint(s, n, h)
  {
    forall c
      ensures c in s <==> c in t
    {
      assert c in s <==> c in multiset(s);
      assert c in t <==> c in multiset(t);
    }
  }

  /** The result of an allocation; a failed one carries the size of the closest smaller chunk as a hint. */
  datatype AllocResult = Allocated(ext: Extent) | Closest(cnt: nat)

  /**
   * How a map with the indexes s and t answers a request for n blocks: it takes them from the first chunk by count that
   * serves, or gives the hint.
   */
  ghost predicate IsServed(s: seq<Chunk>, t: seq<Chunk>, n: nat, splitAbove: nat, r: AllocResult, s': seq<Chunk>,
      t': seq<Chunk>)
  {
    && Coherent(s, t) && 0 < n
    && var k := FirstUsable(t, n, splitAbove);
       if k < |t| then
         r == Allocated(Full(t[k].nr, n)) && s' == TakenByNr(s, t[k].nr, n) && t' == TakenByCnt(t, k, n)
       else r == Closest(HintBelow(t, n)) && s' == s && t' == t
  }

  /** In the index by count the merged chunk is the last of its size; the others are in their order. */
  ghost predicate InOrder(s: seq<Chunk>, t: seq<Chunk>, c: Chunk, coalescing: bool, t': seq<Chunk>)
    requires WellSized(s) && Ascending(s)
  {
    EnteredBehind(Less(t, FreedAway(s, c, coalescing)), t', FreedChunk(s, c, coalescing))
  }

  class FreeMap {
    const coalescing: bool
    const splitAbove: nat

    var byNr: seq<Chunk>
    var byCnt: seq<Chunk>

    ghost predicate Valid()
      reads this
    {
      splitAbove <= 0xffff && Coherent(byNr, byCnt)
    }

    constructor (coalescing: bool, splitAbove: nat)
      requires splitAbove <= 0xffff
      ensures Valid() && byNr == [] && byCnt == []
      ensures this.coalescing == coalescing && this.splitAbove == splitAbove
    {
      this.coalescing, this.splitAbove := coalescing, splitAbove;
      byNr, byCnt := [], [];
    }

    method Reset()
      requires Valid()
      modifies this
      ensures Valid() && byNr == [] && byCnt == []
    {
      byNr, byCnt := [], [];
    }

    /** Erases from the index by count the chunk that the index by number has just changed or lost. */
    method EraseFromByCnt(target: Chunk)
      requires SortedByCnt(byCnt) && target in byCnt
      requires forall c :: c in byCnt && c.nr == target.nr ==> c == target
      modifies this`byCnt
      ensures SortedByCnt(byCnt)
      ensures multiset(byCnt) == multiset(old(byCnt)) - multiset{target}
      ensures old(multiset(byCnt)[target]) == 1 ==> byCnt == Less(old(byCnt), [target])
    {
      hide SortedByCnt, LowerBoundCnt, Less;
      var k := LowerBoundCnt(byCnt, target.cnt);
      ghost var j :| 0 <= j < |byCnt| && byCnt[j] == target;
      while byCnt[k].nr != target.nr
        invariant k <= j < |byCnt|
        decreases j - k
      {
        k := k + 1;
      }
      RemoveKeepsSorted(byCnt, k);
      if multiset(byCnt)[target] == 1 { RemoveIsLess(byCnt, k); }
      byCnt := RemoveAt(byCnt, k);
    }

    /** The first chunk by count that serves n blocks, or |byCnt|. */
    method FindUsable(n: nat) returns (k: nat)
      requires Valid() && 0 < n <= MAX_BLK_CNT
      ensures k == FirstUsable(byCnt, n, splitAbove)
    {
      k := LowerBoundCnt(byCnt, n);
      if k < |byCnt| && byCnt[k].cnt != n {
        var remain := byCnt[k].cnt - n;
        if remain <= splitAbove {
          var next := (n + splitAbove + 1) % 0x10000;
          if next <= n {
            // the 16-bit sum wrapped around: no chunk is that large
            k := |byCnt|;
            assert forall j :: 0 <= j < |byCnt| ==> byCnt[j].cnt <= MAX_BLK_CNT by { CountsBounded(byNr, byCnt); }
          } else {
            k := LowerBoundCnt(byCnt, next);
          }
        }
      }
      FirstUsableIs(byCnt, n, splitAbove, k);
    }

    /**
     * Takes n blocks of the smallest chunk that serves them (the oldest of that size); if none does,
     * the hint is the size of the largest chunk below n, which then can be asked for.
     */
    method Alloc(n: nat) returns (r: Outcome<AllocResult>)
      requires Valid() && n <= MAX_BLK_CNT
      modifies this
      ensures Valid()
      ensures r == Throws(ZeroBlocks) <==> n == 0
      ensures r.Throws? ==> n == 0 && unchanged(this)
      ensures r.Ok? && r.value.Closest? ==>
                unchanged(this) && NoneUsable(byNr, n, splitAbove) && IsHint(byNr, n, r.value.cnt)
      ensures r.Ok? && r.value.Allocated? ==> BestFit(old(byNr), n, splitAbove, r.value.ext, byNr)
      ensures r.Ok? ==> IsServed(old(byNr), old(byCnt), n, splitAbove, r.value, byNr, byCnt)
      ensures forall lo: nat :: old(Tidy(byNr, lo)) ==> Tidy(byNr, lo)
    {
      hide Tidy, Taken, TakenByNr, TakenByCnt, LowerBoundNr, LowerBoundCnt, HintBelow, FirstUsable, SortedByCnt,
          Ascending, WellSized;
      if n == 0 { return Throws(ZeroBlocks); }
      var k := FindUsable(n);
      if k == |byCnt| {
        var closest := ClosestBelow(n);
        HintTransfer(byNr, byCnt, n, splitAbove, closest);
        return Ok(Closest(closest));
      }
      ghost var s := byNr;
      UsableTransfer(byNr, byCnt, n, splitAbove, k);
      ghost var i;
      var ext;
      ext, i := Take(k, n);
      forall lo: nat
        ensures Tidy(s, lo) ==> Tidy(byNr, lo)
      {
        TakenTidy(s, i, n, lo);
      }
      r := Ok(Allocated(ext));
    }

    /** The size of the largest chunk below n. */
    method ClosestBelow(n: nat) returns (cnt: nat)
      requires Valid() && 0 < n
      ensures cnt == HintBelow(byCnt, n)
    {
      var h := LowerBoundCnt(byCnt, n);
      cnt := if h > 0 then byCnt[h - 1].cnt else 0;
    }

    /** Takes n blocks of the k-th chunk by count, in both indexes. */
    method Take(k: nat, n: nat) returns (ext: Extent, ghost i: nat)
      requires Valid() && k < |byCnt| && 0 < n <= byCnt[k].cnt
      modifies this
      ensures Valid()
      ensures i < |old(byNr)| && old(byNr)[i] == old(byCnt)[k] && byNr == Taken(old(byNr), i, n)
      ensures ext == Full(old(byCnt)[k].nr, n) && byCnt == TakenByCnt(old(byCnt), k, n)
      ensures byNr == TakenByNr(old(byNr), old(byCnt)[k].nr, n)
    {
      hide Taken, TakenByCnt, LowerBoundNr, Ascending, WellSized, SortedByCnt;
      TakenCoherent(byNr, byCnt, k, n);
      var c := byCnt[k];
      i := LowerBoundNr(byNr, c.nr);
      byNr := Taken(byNr, LowerBoundNr(byNr, c.nr), n);
      byCnt := TakenByCnt(byCnt, k, n);
      ext := Full(c.nr, n);
    }

    // -- the steps of a deallocation; between them the chunks may overlap, the two indexes never differ --

    method GrowChunk(i: nat, cnt: nat)
      requires Synced(byNr, byCnt) && i < |byNr|
      modifies this
      ensures Synced(byNr, byCnt) && byNr == old(byNr)[i := Chunk(old(byNr)[i].nr, cnt)]
      ensures EnteredBehind(Less(old(byCnt), [old(byNr)[i]]), byCnt, byNr[i])
    {
      hide EnteredBehind, Less;
      ghost var s, t := byNr, byCnt;
      SyncedUnique(byNr, byCnt, i);
      SyncedOnce(byNr, byCnt, i);
      EraseFromByCnt(byNr[i]);
      byNr := byNr[i := Chunk(byNr[i].nr, cnt)];
      byCnt := InsertByCnt(byCnt, byNr[i]);
      UpdateMultiset(s, i, byNr[i]);
      assert Synced(byNr, byCnt) by { assert StrictNr(byNr); hide *; }
    }

    method DropChunk(i: nat)
      requires Synced(byNr, byCnt) && i < |byNr|
      modifies this
      ensures Synced(byNr, byCnt) && byNr == RemoveAt(old(byNr), i)
      ensures byCnt == Less(old(byCnt), [old(byNr)[i]])
    {
      hide Less;
      SyncedOnce(byNr, byCnt, i);
      SyncedUnique(byNr, byCnt, i);
      EraseFromByCnt(byNr[i]);
      RemoveKeepsStrict(byNr, i);
      byNr := RemoveAt(byNr, i);
    }

    method AddChunk(i: nat, c: Chunk)
      requires Synced(byNr, byCnt) && i <= |byNr|
      requires Between(byNr, i, c.nr)
      modifies this
      ensures Synced(byNr, byCnt) && byNr == Splice(old(byNr), i, i, c) && EnteredBehind(old(byCnt), byCnt, c)
    {
      hide EnteredBehind;
      SpliceStrict(byNr, i, c);
      InsertMultiset(byNr, i, c);
      byNr := Splice(byNr, i, i, c);
      byCnt := InsertByCnt(byCnt, c);
    }

    /** Compares the chunk with its two neighbours only. */
    method FailIfOverlap(ext: Extent) returns (r: Outcome<()>)
      requires Valid() && ext.Full? && 0 < ext.cnt
      ensures r == (if Clear(byNr, Chunk(ext.nr, ext.cnt)) then Ok(()) else Throws(ExtentOverlap))
    {
      var i := LowerBoundNr(byNr, ext.nr);
      NeighboursDecide(byNr, Chunk(ext.nr, ext.cnt));
      if 0 < i {
        var d := DistanceInBlks(Full(byNr[i - 1].nr, byNr[i - 1].cnt), ext);
        if d.Throws? { return Throws(ExtentOverlap); }
      }
      if i < |byNr| {
        var d := DistanceInBlks(Full(byNr[i].nr, byNr[i].cnt), ext);
        if d.Throws? { return Throws(ExtentOverlap); }
      }
      r := Ok(());
    }

    /** Adds exactly the blocks of the extent, or throws and changes nothing. */
    method Dealloc(ext: Extent) returns (r: Outcome<()>)
      requires Valid() && (ext.Full? ==> ext.cnt <= MAX_BLK_CNT)
      modifies this
      ensures Valid()
      ensures r.Throws? ==> unchanged(this)
      ensures r == Throws(NotFullExtent) <==> ext.Sub? || ext.cnt == 0
      ensures r == Throws(ExtentOverlap) <==> ext.Full? && 0 < ext.cnt && !Clear(old(byNr), Chunk(ext.nr, ext.cnt))
      ensures r.Throws? ==> r.error in {NotFullExtent, ExtentOverlap}
      ensures r.Ok? ==> byNr == Freed(old(byNr), Chunk(ext.nr, ext.cnt), coalescing)
      ensures r.Ok? ==> InOrder(old(byNr), old(byCnt), Chunk(ext.nr, ext.cnt), coalescing, byCnt)
      ensures coalescing ==>
                forall lo: nat :: lo <= ext.nr && ext.PastEnd() <= lo + MAX_BLK_CNT && old(Tidy(byNr, lo)) ==>
                  Tidy(byNr, lo)
    {
      hide Tidy, InOrder, Freed, Clear, Ascending, WellSized;
      if ext.Sub? || ext.cnt == 0 { return Throws(NotFullExtent); }
      r := FailIfOverlap(ext);
      if r.Throws? { return; }
      var c := Chunk(ext.nr, ext.cnt);
      FreedWellFormed(byNr, c, coalescing);
      if coalescing {
        FreedTidyFrom(byNr, c);
        Coalesce(c);
      } else {
        Insert(c);
      }
    }

    /** Adds a chunk that is not to be merged. */
    method Insert(c: Chunk)
      requires Valid() && 0 < c.cnt && Clear(byNr, c)
      modifies this
      ensures Synced(byNr, byCnt) && byNr == Freed(old(byNr), c, false)
      ensures InOrder(old(byNr), old(byCnt), c, false, byCnt)
    {
      hide EnteredBehind, Less, Freed, FreedAway, FreedChunk, LowerBoundNr, Splice, Clear, Ascending, WellSized,
          StrictNr, SortedByCnt, Between;
      InsertPlan(byNr, c);
      LessNothing(byCnt, []);
      AddChunk(LowerBoundNr(byNr, c.nr), c);
    }

    method Coalesce(c: Chunk)
      requires Valid() && coalescing && 0 < c.cnt <= MAX_BLK_CNT && Clear(byNr, c)
      modifies this
      ensures Synced(byNr, byCnt) && byNr == Freed(old(byNr), c, true)
      ensures InOrder(old(byNr), old(byCnt), c, true, byCnt)
    {
      hide Freed, MergeSteps, MergedAway, MergedInto, SortedByCnt, Ascending, WellSized, StrictNr, EnteredBehind, Less,
          FreedAway, FreedChunk, LowerBoundNr, Clear, MergesNext, MergesPrev;
      var next := LowerBoundNr(byNr, c.nr + 1);
      CoalesceTests(byNr, c, next);
      CoalescePlan(byNr, c, next);
      StrictOfAscending(byNr);
      var withNext := next < |byNr| && c.PastEnd() == byNr[next].nr && byNr[next].cnt + c.cnt <= MAX_BLK_CNT;
      var merged := if withNext then Chunk(c.nr, c.cnt + byNr[next].cnt) else c;
      var withPrev := 0 < next && byNr[next - 1].PastEnd() == merged.nr
          && byNr[next - 1].cnt + merged.cnt <= MAX_BLK_CNT;
      assert withNext == MergesNext(byNr, c) && merged == WithNext(byNr, c) && withPrev == MergesPrev(byNr, c);
      Merge(next, merged, withNext, withPrev);
    }

    /** Puts the merged chunk into both maps, over its neighbours. */
    method Merge(next: nat, merged: Chunk, withNext: bool, withPrev: bool)
      requires Synced(byNr, byCnt) && next <= |byNr| && (withNext ==> next < |byNr|) && (withPrev ==> 0 < next)
      requires !withPrev && !withNext ==> Between(byNr, next, merged.nr)
      requires !withPrev && withNext ==> Between(RemoveAt(byNr, next), next, merged.nr)
      modifies this
      ensures Synced(byNr, byCnt)
      ensures byNr == MergeSteps(old(byNr), next, merged, withNext, withPrev)
      ensures EnteredBehind(Less(old(byCnt), MergedAway(old(byNr), next, withNext, withPrev)), byCnt,
          MergedInto(old(byNr), next, merged, withPrev))
    {
      hide Synced, Between, Splice, RemoveAt, EnteredBehind, Less;
      ghost var s, t := byNr, byCnt;
      MergedParts(s, t, next, merged, withNext, withPrev);
      if withPrev {
        GrowChunk(next - 1, byNr[next - 1].cnt + merged.cnt);
      }
      ghost var t1 := byCnt;
      if withNext {
        DropChunk(next);
        if withPrev { EnteredThenLess(t, s[next - 1], s[next], MergedInto(s, next, merged, true), t1); }
      }
      if !withPrev {
        AddChunk(next, merged);
      }
    }

    method Provide(ext: Extent) returns (r: Outcome<()>)
      requires Valid() && (ext.Full? ==> ext.cnt <= MAX_BLK_CNT)
      modifies this
      ensures Valid()
      ensures r.Throws? ==> unchanged(this)
      ensures r.Ok? <==> ext.Full? && 0 < ext.cnt && Clear(old(byNr), Chunk(ext.nr, ext.cnt))
      ensures r.Ok? ==> byNr == Freed(old(byNr), Chunk(ext.nr, ext.cnt), coalescing)
      ensures r.Ok? ==> InOrder(old(byNr), old(byCnt), Chunk(ext.nr, ext.cnt), coalescing, byCnt)
      ensures coalescing ==>
                forall lo: nat :: lo <= ext.nr && ext.PastEnd() <= lo + MAX_BLK_CNT && old(Tidy(byNr, lo)) ==>
                  Tidy(byNr, lo)
    {
      hide Tidy, InOrder, Freed;
      r := Dealloc(ext);
    }

    /** Removes the chunk that is exactly ext; throws if there is none. */
    method ReleaseOne(ext: Extent) returns (r: Outcome<()>)
      requires Valid() && ext.Full?
      modifies this
      ensures Valid()
      ensures r.Throws? ==> unchanged(this) && r.error == NoSuchExtent
      ensures r.Ok? <==> Has(old(byNr), Chunk(ext.nr, ext.cnt))
      ensures r.Ok? ==> byNr == RemoveAt(old(byNr), LowerBoundNr(old(byNr), ext.nr))
      ensures r.Ok? ==> byCnt == Less(old(byCnt), [Chunk(ext.nr, ext.cnt)])
      ensures forall lo: nat :: old(Tidy(byNr, lo)) ==> Tidy(byNr, lo)
    {
      hide Tidy;
      var i := LowerBoundNr(byNr, ext.nr);
      if i == |byNr| || byNr[i] != Chunk(ext.nr, ext.cnt) { return Throws(NoSuchExtent); }
      StrictOfAscending(byNr);
      RemoveWellFormed(byNr, i);
      forall lo: nat
        ensures Tidy(byNr, lo) ==> Tidy(RemoveAt(byNr, i), lo)
      {
        RemovedTidy(byNr, i, lo);
      }
      DropChunk(i);
      r := Ok(());
    }

    /** Removes the chunks one by one; throws at the first that is not in the map. */
    method Release(exts: seq<Extent>) returns (r: Outcome<()>, ghost done: nat)
      requires Valid() && forall e :: e in exts ==> e.Full?
      modifies this
      ensures Valid() && done <= |exts| && (r.Ok? <==> done == |exts|)
      ensures LessThose(old(byNr), byNr, exts, done) && byCnt == Less(old(byCnt), ChunksOf(exts[..done]))
      ensures r.Throws? ==> done < |exts| && r.error == NoSuchExtent && Chunk(exts[done].nr, exts[done].cnt) !in byNr
      ensures forall lo: nat :: old(Tidy(byNr, lo)) ==> Tidy(byNr, lo)
    {
      hide Tidy, LessThose, Has, RemoveAt, SortedByCnt, LowerBoundNr, Less, ChunksOf;
      done := 0;
      LessNone(byNr, exts);
      NoChunksGone(byCnt, exts);
      for i := 0 to |exts|
        invariant forall lo: nat :: old(Tidy(byNr, lo)) ==> Tidy(byNr, lo)
        invariant Valid() && done == i && LessThose(old(byNr), byNr, exts, i)
        invariant byCnt == Less(old(byCnt), ChunksOf(exts[..i]))
      {
        ghost var s := byNr;
        r := ReleaseOne(exts[i]);
        if r.Throws? {
          NotFound(byNr, exts[i]);
          return;
        }
        LessOne(old(byNr), s, exts, i);
        OneChunkGone(old(byCnt), exts, i);
        done := i + 1;
      }
      assert exts[..|exts|] == exts;
      r := Ok(());
    }
  }

  /** s has the chunks of s0 but for the first n of exts. */
  ghost predicate LessThose(s0: seq<Chunk>, s: seq<Chunk>, exts: seq<Extent>, n: nat) {
    n <= |exts| && forall c :: c in s <==> c in s0 && Full(c.nr, c.cnt) !in exts[..n]
  }

  /** The chunks that these extents are. */
  function ChunksOf(exts: seq<Extent>): seq<Chunk> {
    if exts == [] then [] else ChunksOf(exts[..|exts| - 1]) + [Chunk(exts[|exts| - 1].nr, exts[|exts| - 1].Span())]
  }

  lemma {:induction false} NoChunksGone(t: seq<Chunk>, exts: seq<Extent>)
    ensures Less(t, ChunksOf(exts[..0])) == t
  {
    LessNothing(t, []);
  }

  lemma {:induction false} OneChunkGone(t: seq<Chunk>, exts: seq<Extent>, i: nat)
    requires i < |exts| && exts[i].Full?
    ensures Less(Less(t, ChunksOf(exts[..i])), [Chunk(exts[i].nr, exts[i].cnt)]) == Less(t, ChunksOf(exts[..i + 1]))
  {
    hide Less;
    assert exts[..i + 1][..i] == exts[..i];
    LessTwice(t, ChunksOf(exts[..i]), [Chunk(exts[i].nr, exts[i].cnt)]);
  }

  lemma {:induction false} LessNone(s: seq<Chunk>, exts: seq<Extent>)
    ensures LessThose(s, s, exts, 0)
  {
  }

  lemma {:induction false} LessOne(s0: seq<Chunk>, s: seq<Chunk>, exts: seq<Extent>, n: nat)
    requires WellSized(s) && Ascending(s) && LessThose(s0, s, exts, n) && n < |exts| && exts[n].Full?
    requires Has(s, Chunk(exts[n].nr, exts[n].cnt))
    ensures LowerBoundNr(s, exts[n].nr) < |s|
    ensures LessThose(s0, RemoveAt(s, LowerBoundNr(s, exts[n].nr)), exts, n + 1)
  {
    hide Ascending, WellSized, RemoveAt;
    var i := LowerBoundNr(s, exts[n].nr);
    RemovedElements(s, i);
    assert exts[..n + 1] == exts[..n] + [exts[n]];
    assert s[i] == Chunk(exts[n].nr, exts[n].cnt);
  }

  lemma {:induction false} NotFound(s: seq<Chunk>, ext: Extent)
    requires WellSized(s) && Ascending(s) && ext.Full? && !Has(s, Chunk(ext.nr, ext.cnt))
    ensures Chunk(ext.nr, ext.cnt) !in s
  {
    if Chunk(ext.nr, ext.cnt) in s { Found(s, Chunk(ext.nr, ext.cnt)); }
  }

  lemma {:induction false} RemovedElements(s: seq<Chunk>, i: nat)
    requires WellSized(s) && Ascending(s) && i < |s|
    ensures forall c :: c in RemoveAt(s, i) <==> c in s && c != s[i]
  {
    var t := RemoveAt(s, i);
    forall c
      ensures c in t <==> c in s && c != s[i]
    {
      if c in s && c != s[i] {
        var k :| 0 <= k < |s| && s[k] == c;
        assert t[if k < i then k else k - 1] == c;
      }
    }
  }

  lemma {:induction false} FirstIsIn(s: seq<Chunk>)
    ensures s == [] || s[0] in s
  {
  }

  /** The chunks determine the index by number. */
  lemma {:induction false} SameChunks(s: seq<Chunk>, t: seq<Chunk>)
    requires WellSized(s) && Ascending(s) && WellSized(t) && Ascending(t)
    requires forall c :: c in s <==> c in t
    ensures s == t
  {
    FirstIsIn(s);
    FirstIsIn(t);
    if s != [] && t != [] {
      assert s[0] in t && t[0] in s;
      assert s == [s[0]] + s[1..] && t == [t[0]] + t[1..];
      forall c
        ensures c in s[1..] <==> c in t[1..]
      {
        assert c in s[1..] <==> c in s && c != s[0];
        assert c in t[1..] <==> c in t && c != t[0];
      }
      SameChunks(s[1..], t[1..]);
    }
  }
}
