/** Blocks taken from free chunks before the array grows (xoz/alloc/segment_allocator.cpp, allocate_extents). */
module Reuse {
  import opened Extents
  import opened FreeMaps
  import Ownership

  function Least(a: nat, b: nat): nat {
    var m := if a < b then a else b;
    if m < MAX_BLK_CNT then m else MAX_BLK_CNT
  }

  lemma {:induction false} LeastIs(a: nat, n: nat)
    ensures Least(a, n) <= a && Least(a, n) <= n && Least(a, n) <= MAX_BLK_CNT && (0 < a && 0 < n ==> 0 < Least(a, n))
    ensures Least(n, n) <= a ==> Least(a, n) == Least(n, n)
    ensures Least(Least(a, n), n) == Least(a, n) && (n <= a && n <= MAX_BLK_CNT ==> Least(a, n) == n)
  {
  }

  lemma {:induction false} LeastLess(n: nat, m: nat)
    requires n <= m
    ensures Least(n, n) <= Least(m, m)
  {
  }

  /**
   * The extents that a pass over the free chunks has taken, the two indexes that it leaves, the blocks that are still
   * missing, the extents and failures that it has counted, and the size that it has asked for last.
   */
  datatype Pass = Pass(exts: seq<Extent>, byNr: seq<Chunk>, byCnt: seq<Chunk>, left: nat, frag: nat, probe: nat) {
    function After(taken: seq<Extent>): Pass {
      this.(exts := taken + exts)
    }
  }

  lemma {:induction false} TakenBoth(s: seq<Chunk>, t: seq<Chunk>, k: nat, n: nat)
    requires Coherent(s, t) && k < |t| && 0 < n <= t[k].cnt
    ensures Coherent(TakenByNr(s, t[k].nr, n), TakenByCnt(t, k, n))
    ensures Total(TakenByNr(s, t[k].nr, n)) + n == Total(s)
  {
    hide Taken, TakenByCnt, Total;
    TakenCoherent(s, t, k, n);
    TakenCounts(s, LowerBoundNr(s, t[k].nr), n, 0);
  }

  /**
   * A pass for n blocks: it asks for as many as one extent may have and at most `probe`, and after a failure for as
   * many as the hint says; it ends when the extents and the failures have used up the threshold.
   */
  ghost function Reused(s: seq<Chunk>, t: seq<Chunk>, n: nat, frag: nat, threshold: nat, splitAbove: nat,
      probe: nat): (p: Pass)
    requires Coherent(s, t) && 0 < probe
    ensures p.left <= n
    decreases n, Least(probe, n)
  {
    if n == 0 || threshold <= frag then Pass([], s, t, n, frag, probe)
    else
      var ask := Least(probe, n);
      var k := FirstUsable(t, ask, splitAbove);
      if k < |t| then
        TakenBoth(s, t, k, ask);
        Reused(TakenByNr(s, t[k].nr, ask), TakenByCnt(t, k, ask), n - ask, frag + 1, threshold, splitAbove,
               ask).After([Full(t[k].nr, ask)])
      else if HintBelow(t, ask) == 0 then Pass([], s, t, n, frag, ask)
      else Reused(s, t, n, frag + 1, threshold, splitAbove, HintBelow(t, ask))
  }

  /** The first step of a pass. */
  lemma {:induction false} ReusedStep(s: seq<Chunk>, t: seq<Chunk>, n: nat, frag: nat, threshold: nat, splitAbove: nat,
      probe: nat)
    requires Coherent(s, t) && 0 < probe
    ensures WellSized(s) && Ascending(s) && SortedByCnt(t)
    ensures var ask, p := Least(probe, n), Reused(s, t, n, frag, threshold, splitAbove, probe);
            var k := FirstUsable(t, ask, splitAbove);
            if n == 0 || threshold <= frag then p == Pass([], s, t, n, frag, probe)
            else if k < |t| then
              var s', t' := TakenByNr(s, t[k].nr, ask), TakenByCnt(t, k, ask);
              && 0 < ask <= n && ask <= t[k].cnt && Coherent(s', t') && Total(s') + ask == Total(s)
              && p == Reused(s', t', n - ask, frag + 1, threshold, splitAbove, ask).After([Full(t[k].nr, ask)])
            else
              var h := HintBelow(t, ask);
              && h < ask <= n
              && if h == 0 then p == Pass([], s, t, n, frag, ask)
                 else p == Reused(s, t, n, frag + 1, threshold, splitAbove, h)
  {
    if n != 0 && frag < threshold && FirstUsable(t, Least(probe, n), splitAbove) < |t| {
      TakenBoth(s, t, FirstUsable(t, Least(probe, n), splitAbove), Least(probe, n));
    }
  }

  // -- a pass step by step --

  /** The pass that has taken some extents already goes on from here. */
  ghost predicate OnTrack(p: Pass, taken: seq<Extent>, s: seq<Chunk>, t: seq<Chunk>, n: nat, frag: nat, threshold: nat,
      splitAbove: nat, probe: nat)
  {
    Coherent(s, t) && 0 < probe && p == Reused(s, t, n, frag, threshold, splitAbove, probe).After(taken)
  }

  lemma {:induction false} TrackStart(s: seq<Chunk>, t: seq<Chunk>, n: nat, frag: nat, threshold: nat,
      splitAbove: nat, probe: nat)
    requires Coherent(s, t) && 0 < probe
    ensures OnTrack(Reused(s, t, n, frag, threshold, splitAbove, probe), [], s, t, n, frag, threshold, splitAbove,
              probe)
  {
    hide Coherent, Reused;
    var p := Reused(s, t, n, frag, threshold, splitAbove, probe);
    assert [] + p.exts == p.exts;
  }

  lemma {:induction false} TrackStep(p: Pass, taken: seq<Extent>, s: seq<Chunk>, t: seq<Chunk>, n: nat, frag: nat,
      threshold: nat, splitAbove: nat, probe: nat, r: AllocResult, s': seq<Chunk>, t': seq<Chunk>)
    requires OnTrack(p, taken, s, t, n, frag, threshold, splitAbove, probe) && 0 < n && frag < threshold
    requires IsServed(s, t, Least(probe, n), splitAbove, r, s', t')
    ensures var ask := Least(probe, n);
            if r.Allocated? then
              OnTrack(p, taken + [r.ext], s', t', n - ask, frag + 1, threshold, splitAbove, ask)
            else if r.cnt == 0 then p == Pass(taken, s', t', n, frag, ask)
            else OnTrack(p, taken, s', t', n, frag + 1, threshold, splitAbove, r.cnt)
  {
    hide Reused, TakenByNr, TakenByCnt, Total, Coherent, Ascending, WellSized, SortedByCnt, FirstUsable, HintBelow,
        Usable, IsHint;
    ReusedStep(s, t, n, frag, threshold, splitAbove, probe);
    if r.Allocated? {
      var rest := Reused(s', t', n - Least(probe, n), frag + 1, threshold, splitAbove, Least(probe, n));
      assert taken + ([r.ext] + rest.exts) == taken + [r.ext] + rest.exts;
    } else {
      assert r.cnt == 0 ==> taken + [] == taken;
    }
  }

  lemma {:induction false} TrackEnd(p: Pass, taken: seq<Extent>, s: seq<Chunk>, t: seq<Chunk>, n: nat, frag: nat,
      threshold: nat, splitAbove: nat, probe: nat)
    requires OnTrack(p, taken, s, t, n, frag, threshold, splitAbove, probe) && (n == 0 || threshold <= frag)
    ensures p == Pass(taken, s, t, n, frag, probe)
  {
    assert taken + [] == taken;
  }

  // -- what a pass achieves --

  /** The first step of a pass, and the two indexes after it. */
  lemma {:induction false} NextStep(s: seq<Chunk>, t: seq<Chunk>, n: nat, frag: nat, threshold: nat, splitAbove: nat,
      probe: nat) returns (s': seq<Chunk>, t': seq<Chunk>)
    requires Coherent(s, t) && 0 < probe
    ensures SortedByCnt(t)
    ensures var ask, p := Least(probe, n), Reused(s, t, n, frag, threshold, splitAbove, probe);
            var k := FirstUsable(t, ask, splitAbove);
            if n == 0 || threshold <= frag then p == Pass([], s, t, n, frag, probe)
            else if k < |t| then
              && 0 < ask <= n && ask <= MAX_BLK_CNT && Coherent(s', t') && Total(s') + ask == Total(s)
              && p == Reused(s', t', n - ask, frag + 1, threshold, splitAbove, ask).After([Full(t[k].nr, ask)])
            else
              var h := HintBelow(t, ask);
              && h < ask <= n
              && if h == 0 then p == Pass([], s, t, n, frag, ask)
                 else p == Reused(s, t, n, frag + 1, threshold, splitAbove, h)
  {
    hide Reused, TakenByNr, TakenByCnt, Total, Coherent, Ascending, WellSized, SortedByCnt, FirstUsable, HintBelow,
        Usable, IsHint;
    ReusedStep(s, t, n, frag, threshold, splitAbove, probe);
    s', t' := s, t;
    if n != 0 && frag < threshold && FirstUsable(t, Least(probe, n), splitAbove) < |t| {
      var k := FirstUsable(t, Least(probe, n), splitAbove);
      s', t' := TakenByNr(s, t[k].nr, Least(probe, n)), TakenByCnt(t, k, Least(probe, n));
    }
  }

  lemma {:induction false} BlksMore(e: Extent, exts: seq<Extent>)
    requires e.Full?
    ensures Ownership.FullBlks([]) == 0 && Ownership.FullBlks([e] + exts) == e.cnt + Ownership.FullBlks(exts)
    ensures forall x :: x in [e] + exts <==> x == e || x in exts
  {
    assert ([e] + exts)[1..] == exts;
  }

  /** No block gets lost or is taken twice: what is taken is no longer missing, and no longer free. */
  lemma {:induction false} PassCounts(s: seq<Chunk>, t: seq<Chunk>, n: nat, frag: nat, threshold: nat, splitAbove: nat,
      probe: nat)
    requires Coherent(s, t) && 0 < probe
    ensures var p := Reused(s, t, n, frag, threshold, splitAbove, probe);
            && p.left + Ownership.FullBlks(p.exts) == n && p.left + Total(s) == n + Total(p.byNr)
            && forall e :: e in p.exts ==> e.Full? && 0 < e.cnt <= MAX_BLK_CNT
    decreases n, Least(probe, n)
  {
    hide Reused, Total, Coherent, SortedByCnt, FirstUsable, HintBelow, Usable, IsHint, Ownership.FullBlks;
    BlksMore(Full(0, 0), []);
    var s', t' := NextStep(s, t, n, frag, threshold, splitAbove, probe);
    if n != 0 && frag < threshold {
      var ask := Least(probe, n);
      var k := FirstUsable(t, ask, splitAbove);
      if k < |t| {
        PassCounts(s', t', n - ask, frag + 1, threshold, splitAbove, ask);
        BlksMore(Full(t[k].nr, ask), Reused(s', t', n - ask, frag + 1, threshold, splitAbove, ask).exts);
      } else if 0 < HintBelow(t, ask) {
        PassCounts(s, t, n, frag + 1, threshold, splitAbove, HintBelow(t, ask));
      }
    }
  }

  /**
   * A pass ends with blocks missing only if its extents and failures have used up the threshold, or if every free chunk
   * is larger than what it asked for last, but not by enough to be split: with split threshold 0 none is free then.
   */
  lemma {:induction false} PassStops(s: seq<Chunk>, t: seq<Chunk>, n: nat, frag: nat, threshold: nat, splitAbove: nat,
      probe: nat)
    requires Coherent(s, t) && 0 < probe
    ensures var p := Reused(s, t, n, frag, threshold, splitAbove, probe);
            || p.left == 0 || threshold <= p.frag
            || (p.probe <= p.left && forall c :: c in p.byCnt ==> p.probe < c.cnt <= p.probe + splitAbove)
    decreases n, Least(probe, n)
  {
    hide Reused, TakenByNr, TakenByCnt, Total, Coherent, Ascending, WellSized, SortedByCnt, FirstUsable, HintBelow,
        Usable, IsHint;
    var s', t' := NextStep(s, t, n, frag, threshold, splitAbove, probe);
    if n != 0 && frag < threshold {
      var ask := Least(probe, n);
      var k := FirstUsable(t, ask, splitAbove);
      if k < |t| {
        PassStops(s', t', n - ask, frag + 1, threshold, splitAbove, ask);
      } else if 0 < HintBelow(t, ask) {
        PassStops(s, t, n, frag + 1, threshold, splitAbove, HintBelow(t, ask));
      } else {
        NoneBelow(s, t, ask, splitAbove);
      }
    }
  }

  lemma {:induction false} NoneBelow(s: seq<Chunk>, t: seq<Chunk>, n: nat, splitAbove: nat)
    requires Coherent(s, t) && 0 < n && FirstUsable(t, n, splitAbove) == |t| && HintBelow(t, n) == 0
    ensures forall c :: c in t ==> n < c.cnt <= n + splitAbove
  {
    CountsBounded(s, t);
    forall c | c in t
      ensures n < c.cnt <= n + splitAbove
    {
      var j :| 0 <= j < |t| && t[j] == c;
      assert !Usable(t[j], n, splitAbove);
    }
  }

  /** Of two counted in a row at least one is an extent: after a failure there is a chunk of the size hinted at. */
  lemma {:induction false} PassPays(s: seq<Chunk>, t: seq<Chunk>, n: nat, frag: nat, threshold: nat, splitAbove: nat,
      probe: nat)
    requires Coherent(s, t) && 0 < probe
    ensures var p := Reused(s, t, n, frag, threshold, splitAbove, probe);
            && p.frag <= frag + 2 * |p.exts| + 1
            && (probe <= Least(n, n) && (exists c :: c in t && c.cnt == probe) ==> p.frag <= frag + 2 * |p.exts|)
    decreases n, Least(probe, n)
  {
    hide Reused, TakenByNr, TakenByCnt, Total, Coherent, Ascending, WellSized, SortedByCnt, FirstUsable, HintBelow,
        Usable;
    var s', t' := NextStep(s, t, n, frag, threshold, splitAbove, probe);
    if n != 0 && frag < threshold {
      var ask := Least(probe, n);
      var k := FirstUsable(t, ask, splitAbove);
      if k < |t| {
        PassPays(s', t', n - ask, frag + 1, threshold, splitAbove, ask);
      } else {
        ExactServes(t, ask, splitAbove);
        if 0 < HintBelow(t, ask) {
          PassPays(s, t, n, frag + 1, threshold, splitAbove, HintBelow(t, ask));
        }
      }
    }
  }

  lemma {:induction false} ExactServes(t: seq<Chunk>, n: nat, splitAbove: nat)
    ensures (exists c :: c in t && c.cnt == n) ==> FirstUsable(t, n, splitAbove) < |t|
  {
    if c :| c in t && c.cnt == n {
      var j :| 0 <= j < |t| && t[j] == c;
      assert Usable(t[j], n, splitAbove);
    }
  }

  /** The blocks of the k largest chunks. */
  function Largest(t: seq<Chunk>, k: nat): nat
    requires k <= |t|
  {
    Total(t[|t| - k..])
  }

  /** Taking a largest chunk leaves one less of them. */
  lemma {:induction false} OneOfLargest(t: seq<Chunk>, i: nat, k: nat)
    requires SortedByCnt(t) && i < |t| && 0 < k <= |t| && forall j :: 0 <= j < |t| ==> t[j].cnt <= t[i].cnt
    ensures Largest(t, k) == t[i].cnt + Largest(RemoveAt(t, i), k - 1)
  {
    var lo := |t| - k;
    if i < lo {
      assert t[lo..] == [t[lo]] + t[lo + 1..];
      assert RemoveAt(t, i)[lo..] == t[lo + 1..];
    } else {
      assert t[lo..] == t[lo..i] + ([t[i]] + t[i + 1..]);
      assert RemoveAt(t, i)[lo..] == t[lo..i] + t[i + 1..];
      TotalAppend(t[lo..i], [t[i]] + t[i + 1..]);
      TotalAppend(t[lo..i], t[i + 1..]);
    }
  }

  /**
   * Where any chunk may be split, a pass takes as many of the largest chunks as half its threshold allows: it leaves
   * no more than these cannot hold.
   */
  lemma {:induction false} TakesLargest(s: seq<Chunk>, t: seq<Chunk>, n: nat, frag: nat, threshold: nat, probe: nat,
      k: nat)
    requires Coherent(s, t) && 0 < probe && k <= |t| && forall c :: c in t ==> c.cnt <= probe
    requires
      || frag + 2 * k <= threshold
      || (frag + 2 * k <= threshold + 1 && probe <= Least(n, n) && exists c :: c in t && c.cnt == probe)
    ensures var p := Reused(s, t, n, frag, threshold, 0, probe);
            p.left == 0 || p.left + Largest(t, k) <= n
    decreases n, Least(probe, n)
  {
    hide Reused, TakenByNr, TakenByCnt, Total, Coherent, Ascending, WellSized, SortedByCnt, FirstUsable, HintBelow,
        Usable, Largest;
    ReusedStep(s, t, n, frag, threshold, 0, probe);
    LargestNone(t);
    if n != 0 && 0 < k {
      var ask := Least(probe, n);
      var i := FirstUsable(t, ask, 0);
      ExactServes(t, ask, 0);
      if i < |t| {
        if ask < n {
          LargestLess(s, t, i, k, ask, probe);
          TakesLargest(TakenByNr(s, t[i].nr, ask), TakenByCnt(t, i, ask), n - ask, frag + 1, threshold, ask, k - 1);
        }
      } else {
        LargestIsHint(s, t, ask);
        TakesLargest(s, t, n, frag + 1, threshold, HintBelow(t, ask), k);
      }
    }
  }

  lemma {:induction false} LargestNone(t: seq<Chunk>)
    ensures Largest(t, 0) == 0
  {
  }

  lemma {:induction false} LargestLess(s: seq<Chunk>, t: seq<Chunk>, i: nat, k: nat, n: nat, probe: nat)
    requires Coherent(s, t) && i < |t| && 0 < k <= |t| && (forall c :: c in t ==> c.cnt <= probe)
    requires 0 < n <= t[i].cnt && (n == probe || n == MAX_BLK_CNT)
    ensures var u := TakenByCnt(t, i, n);
            |u| == |t| - 1 && Largest(t, k) == n + Largest(u, k - 1) && forall c :: c in u ==> c.cnt <= n
  {
    hide Largest, Ascending, SortedByCnt;
    CountsBounded(s, t);
    forall j | 0 <= j < |t|
      ensures t[j].cnt <= n
    {
      assert t[j] in t;
    }
    OneOfLargest(t, i, k);
    assert forall c :: c in RemoveAt(t, i) ==> c in t;
  }

  lemma {:induction false} LargestIsHint(s: seq<Chunk>, t: seq<Chunk>, n: nat)
    requires Coherent(s, t) && t != [] && 0 < n && FirstUsable(t, n, 0) == |t|
    ensures var h := HintBelow(t, n);
            0 < h < n && h <= MAX_BLK_CNT && (forall c :: c in t ==> c.cnt <= h) && exists c :: c in t && c.cnt == h
  {
    CountsBounded(s, t);
    forall c | c in t
      ensures c.cnt <= HintBelow(t, n)
    {
      var j :| 0 <= j < |t| && t[j] == c;
      assert !Usable(t[j], n, 0);
    }
    assert t[0] in t;
  }

  lemma {:induction false} SameTotal(s: seq<Chunk>, t: seq<Chunk>)
    requires multiset(s) == multiset(t)
    ensures Total(s) == Total(t) && |s| == |t|
  {
    hide Total, RemoveAt;
    assert |s| == |multiset(s)| && |t| == |multiset(t)|;
    if s != [] {
      assert s == [s[0]] + s[1..];
      assert s[0] in multiset(t);
      var i :| 0 <= i < |t| && t[i] == s[0];
      SameTotal(s[1..], RemoveAt(t, i));
      TotalAppend([s[0]], s[1..]);
      TotalWithout(t, i);
    } else {
      assert t == s;
    }
  }

  lemma {:induction false} TotalWithout(t: seq<Chunk>, i: nat)
    requires i < |t|
    ensures Total(t) == Total([t[i]]) + Total(RemoveAt(t, i))
  {
    assert t == t[..i] + ([t[i]] + t[i + 1..]);
    TotalAppend([t[i]], t[i + 1..]);
    TotalAppend(t[..i], [t[i]] + t[i + 1..]);
    TotalAppend(t[..i], t[i + 1..]);
  }

  /**
   * So if any chunk may be split and the threshold allows two for each chunk, all free blocks are used before the array
   * grows: nothing is missing if they are enough, and nothing is free if they are not.
   */
  lemma {:induction false} AllReused(s: seq<Chunk>, t: seq<Chunk>, n: nat, threshold: nat)
    requires Coherent(s, t) && 2 * |s| <= threshold
    ensures var p := Reused(s, t, n, 0, threshold, 0, MAX_BLK_CNT);
            p.left == if n <= Total(s) then 0 else n - Total(s)
  {
    CountsBounded(s, t);
    SameTotal(s, t);
    assert t[0..] == t;
    TakesLargest(s, t, n, 0, threshold, MAX_BLK_CNT, |t|);
    PassCounts(s, t, n, 0, threshold, 0, MAX_BLK_CNT);
  }

  // -- blocks that were freed serve a request for fewer --

  /** One free chunk has all the blocks of the extent. */
  ghost predicate Roomy(s: seq<Chunk>, e: Extent) {
    e.Full? && exists i :: 0 <= i < |s| && s[i].nr <= e.nr && e.PastEnd() <= s[i].PastEnd()
  }

  ghost predicate StillRoomy(s: seq<Chunk>, t: seq<Chunk>) {
    forall e: Extent :: Roomy(s, e) ==> Roomy(t, e)
  }

  ghost predicate AllRoomy(s: seq<Chunk>, exts: seq<Extent>) {
    forall e :: e in exts && e.Full? ==> Roomy(s, e)
  }

  lemma {:induction false} RoomyThen(s: seq<Chunk>, t: seq<Chunk>, u: seq<Chunk>, exts: seq<Extent>)
    ensures StillRoomy(s, s) && (StillRoomy(s, t) && StillRoomy(t, u) ==> StillRoomy(s, u))
    ensures AllRoomy(s, []) && (AllRoomy(s, exts) && StillRoomy(s, t) ==> AllRoomy(t, exts))
  {
  }

  lemma {:induction false} RoomyMore(s: seq<Chunk>, exts: seq<Extent>, e: Extent)
    requires AllRoomy(s, exts) && (e.Full? ==> Roomy(s, e))
    ensures AllRoomy(s, exts + [e])
  {
  }

  /** The merged chunk has all that it was merged from. */
  lemma {:induction false} FreedSpan(s: seq<Chunk>, c: Chunk, coalescing: bool)
    requires WellSized(s) && Ascending(s) && 0 < c.cnt && Clear(s, c)
    ensures var lo, hi, m := FreedLo(s, c, coalescing), FreedHi(s, c, coalescing), FreedChunk(s, c, coalescing);
            && lo <= hi <= |s| && m.nr <= c.nr && c.PastEnd() <= m.PastEnd()
            && forall i :: lo <= i < hi ==> m.nr <= s[i].nr && s[i].PastEnd() <= m.PastEnd()
  {
    ClearNeighbours(s, c);
  }

  lemma {:induction false} SpliceRoomy(s: seq<Chunk>, lo: nat, hi: nat, m: Chunk, e: Extent)
    requires lo <= hi <= |s| && forall i :: lo <= i < hi ==> m.nr <= s[i].nr && s[i].PastEnd() <= m.PastEnd()
    ensures Roomy(s, e) ==> Roomy(Splice(s, lo, hi, m), e)
  {
    if Roomy(s, e) {
      var i :| 0 <= i < |s| && s[i].nr <= e.nr && e.PastEnd() <= s[i].PastEnd();
      var j, t := if i < lo then i else if i < hi then lo else i - (hi - lo - 1), Splice(s, lo, hi, m);
      SpliceAt(s, lo, hi, m, j);
      assert t[j].nr <= s[i].nr && s[i].PastEnd() <= t[j].PastEnd();
    }
  }

  /** What is freed is in one chunk, and whatever was in one chunk still is. */
  lemma {:induction false} FreedRoomy(s: seq<Chunk>, c: Chunk, coalescing: bool)
    requires WellSized(s) && Ascending(s) && 0 < c.cnt && Clear(s, c)
    ensures Roomy(Freed(s, c, coalescing), Full(c.nr, c.cnt)) && StillRoomy(s, Freed(s, c, coalescing))
  {
    hide FreedLo, FreedHi, FreedChunk, Ascending, WellSized, Clear, Splice;
    var lo, hi, m := FreedLo(s, c, coalescing), FreedHi(s, c, coalescing), FreedChunk(s, c, coalescing);
    FreedSpan(s, c, coalescing);
    forall e: Extent
      ensures Roomy(s, e) ==> Roomy(Splice(s, lo, hi, m), e)
    {
      SpliceRoomy(s, lo, hi, m, e);
    }
    SplicedIn(s, lo, hi, m);
  }

  lemma {:induction false} SplicedIn(s: seq<Chunk>, lo: nat, hi: nat, m: Chunk)
    requires lo <= hi <= |s|
    ensures forall e: Extent :: e.Full? && m.nr <= e.nr && e.PastEnd() <= m.PastEnd() ==>
              Roomy(Splice(s, lo, hi, m), e)
  {
    assert Splice(s, lo, hi, m)[lo] == m;
  }

  /** A pass finds its blocks at once in a chunk that has as many, and leaves the rest of it. */
  lemma {:induction false} RoomyPass(s: seq<Chunk>, t: seq<Chunk>, e: Extent, n: nat, threshold: nat)
    requires Coherent(s, t) && Roomy(s, e) && n <= e.cnt && 0 < threshold
    ensures e.cnt <= MAX_BLK_CNT
    ensures var p := Reused(s, t, n, 0, threshold, 0, MAX_BLK_CNT);
            p.left == 0 && (n < e.cnt ==> 0 < Total(p.byNr))
    ensures 0 < n ==> !NoneUsable(s, n, 0)
  {
    hide Reused, Total, Ascending, TakenByNr, TakenByCnt;
    var i :| 0 <= i < |s| && s[i].nr <= e.nr && e.PastEnd() <= s[i].PastEnd();
    ReusedStep(s, t, n, 0, threshold, 0, MAX_BLK_CNT);
    PassCounts(s, t, n, 0, threshold, 0, MAX_BLK_CNT);
    TotalOf(s, i);
    assert s[i] in multiset(t) && s[i] in s;
    if n != 0 {
      var k :| 0 <= k < |t| && t[k] == s[i];
      assert Usable(t[k], n, 0);
      var first := FirstUsable(t, n, 0);
      ReusedStep(TakenByNr(s, t[first].nr, n), TakenByCnt(t, first, n), 0, 1, threshold, 0, n);
    }
  }

  lemma {:induction false} TotalOf(s: seq<Chunk>, i: nat)
    requires i < |s|
    ensures s[i].cnt <= Total(s)
  {
    TotalWithout(s, i);
    assert Total([s[i]]) == s[i].cnt + Total([]);
  }
}
