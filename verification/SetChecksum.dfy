/** The running checksum of a set of descriptors (xoz/dsc/descriptor_set.cpp). */
module SetChecksum {
  import opened Outcomes
  import opened InetChecksum
  import SubBlockFreeMaps

  /** The checksum that each owned descriptor had when it was last written or read; 0 before. */
  type Checksums = map<nat, Word>

  ghost function SumOf(m: Checksums): nat {
    if m == map[] then 0 else
      var id :| id in m;
      Nat(m[id]) + SumOf(m - {id})
  }

  lemma {:induction false} SumOfNone()
    ensures SumOf(map[]) == 0
  {
  }

  /** Any descriptor can be counted first. */
  lemma {:induction false} SumSplit(m: Checksums, id: nat)
    requires id in m
    ensures SumOf(m) == m[id] + SumOf(m - {id})
    decreases |m|
  {
    var first :| first in m && SumOf(m) == m[first] + SumOf(m - {first});
    if first != id {
      SumSplit(m - {first}, id);
      SumSplit(m - {id}, first);
      assert m - {first} - {id} == m - {id} - {first};
    }
  }

  lemma {:induction false} SumWith(m: Checksums, id: nat, w: Word)
    requires id !in m
    ensures SumOf(m[id := w]) == SumOf(m) + w
  {
    SumSplit(m[id := w], id);
    assert m[id := w] - {id} == m;
  }

  lemma {:induction false} SumChanged(m: Checksums, id: nat, w: Word)
    requires id in m
    ensures SumOf(m[id := w]) + m[id] == SumOf(m) + w
  {
    SumSplit(m, id);
    SumSplit(m[id := w], id);
    assert m[id := w] - {id} == m - {id};
  }

  const MAX_FLUSH := 0x8000

  /** Congruent modulo 0xffff, as ones' complement sums are. */
  ghost predicate Congruent(a: nat, b: nat) {
    a % 0xffff == b % 0xffff
  }

  lemma {:induction false} AddBoth(a: nat, b: nat, w: nat)
    requires Congruent(a, b)
    ensures Congruent(a + w, b + w)
  {
    SameResidue(a, b, w);
  }

  /** The checksum stands for the header word and the checksums of all descriptors. */
  ghost predicate Agrees(checksum: nat, creserved: Word, owned: Checksums) {
    Congruent(checksum, creserved + SumOf(owned))
  }

  /** The test that a set has to pass when it is loaded. */
  ghost predicate PassesTest(stored: Word, creserved: Word, owned: Checksums) {
    IsGood(Folded(Removed(creserved + SumOf(owned), stored)))
  }

  /** Taking a word out adds its complement. */
  lemma {:induction false} TakeOut(a: nat, b: nat, w: Word)
    requires Congruent(a, b + w)
    ensures Congruent(Removed(a, w), b)
  {
    AddBoth(a, b + w, 0xffff - w);
    assert b + w + (0xffff - w) == b + 0xffff;
  }

  lemma {:induction false} FoldedCongruent(a: nat, b: nat)
    requires Congruent(a, b)
    ensures Congruent(Folded(a), b)
  {
  }

  /** A word that is not 0 is taken out of a running checksum. */
  method WithoutOne(current: nat, checksum: Word, ghost rest: nat) returns (c: nat)
    requires current <= 0xffff && Congruent(current, rest + checksum)
    ensures c <= 0xffff && Congruent(c, rest)
  {
    hide Congruent;
    c := current;
    if checksum != 0 {
      TakeOut(current, rest, checksum);
      FoldedCongruent(Removed(current, checksum), rest);
      c := FoldInetChecksum(Removed(current, checksum));
    }
  }

  /** All descriptors are taken out, one by one. */
  method WithoutAny(current: nat, owned: Checksums, creserved: Word) returns (c: nat)
    requires current <= 0xffff && Congruent(current, creserved + SumOf(owned))
    ensures c <= 0xffff && Congruent(c, creserved)
  {
    hide Congruent, Folded, Removed, SumOf;
    var left := owned;
    c := current;
    SumOfNone();
    while left != map[]
      invariant c <= 0xffff && Congruent(c, creserved + SumOf(left))
      decreases |left|
    {
      NotEmpty(left);
      var id := SubBlockFreeMaps.First(left.Keys);
      SumSplit(left, id);
      c := WithoutOne(c, left[id], creserved + SumOf(left - {id}));
      left := left - {id};
    }
  }

  /**
   * What a flush adds up to: each descriptor that it writes adds its new checksum and the complement of its old one.
   */
  ghost function Total(before: Checksums, now: Checksums, n: nat, current: nat): int {
    current + n * 0xffff + SumOf(now) - SumOf(before)
  }

  /** How often the sum of a flush is too large for 32 bits. */
  ghost function Wraps(owned: Checksums, written: Checksums, current: nat): int {
    Total(owned, owned + written, |written|, current) / 0x1_0000_0000
  }

  /** The sum of a flush, in 32 bits. */
  ghost predicate IsFlushSum(owned: Checksums, written: Checksums, current: nat, sum: nat) {
    var total := Total(owned, owned + written, |written|, current);
    0 <= total && sum == Wrap32(total)
  }

  /** What is stored is that sum modulo 0xffff. */
  ghost predicate IsStored(owned: Checksums, written: Checksums, current: nat, stored: nat) {
    exists sum: nat :: IsFlushSum(owned, written, current, sum) && stored == sum % 0xffff
  }

  /** How far a flush has come: what is still to be written, and the sum, which is not folded yet. */
  ghost predicate Flushing(before: Checksums, now: Checksums, written: Checksums, todo: set<nat>, current: nat,
      sum: nat) {
    && todo <= written.Keys <= before.Keys && |todo| <= |written| && now == before + (written - todo)
    && Total(before, now, |written| - |todo|, current) >= 0
    && sum == Wrap32(Total(before, now, |written| - |todo|, current))
  }

  method WriteEach(owned: Checksums, written: Checksums, current: nat, creserved: Word) returns (c: nat)
    requires written.Keys <= owned.Keys && current <= 0xffff && Agrees(current, creserved, owned)
    ensures Agrees(c, creserved, owned + written) <==> Wraps(owned, written, current) % 0xffff == 0
    ensures IsFlushSum(owned, written, current, c)
  {
    hide Agrees, Removed, Flushing, Wrap32, Total;
    var todo := written.Keys;
    var now := owned;
    c := current;
    StartFlush(owned, written, current);
    while todo != {}
      invariant Flushing(owned, now, written, todo, current, c)
      decreases |todo|
    {
      var id := SubBlockFreeMaps.First(todo);
      FlushOne(owned, now, written, todo, current, c, id);
      c := Wrap32(Removed(c, now[id]));
      c := Wrap32(c + written[id]);
      now := now[id := written[id]];
      todo := todo - {id};
    }
    EndFlush(owned, now, written, current, c);
    WrapsTell(owned, now, |written|, current, creserved);
  }

  /** The sum is folded, and the negative zero is stored as 0. */
  method ToStore(sum: nat, creserved: Word, ghost owned: Checksums) returns (c: nat)
    ensures c == sum % 0xffff && (Agrees(c, creserved, owned) <==> Agrees(sum, creserved, owned))
  {
    hide Congruent, SumOf;
    FoldedResidue(sum);
    c := FoldInetChecksum(sum);
    NegativeZero(sum, c, creserved + SumOf(owned));
    if c == 0xffff {
      c := 0;
    }
  }

  lemma {:induction false} FoldedResidue(sum: nat)
    ensures Folded(sum) <= 0xffff && Folded(sum) % 0xffff == sum % 0xffff
  {
  }

  class DescriptorSet {
    const creserved: Word

    var owned: Checksums
    var toAdd: set<nat>
    var toUpdate: set<nat>
    var currentChecksum: nat

    /** The running checksum stands for the header word and the checksums of all owned descriptors. */
    ghost predicate Valid()
      reads this
    {
      && toAdd <= owned.Keys && toUpdate <= owned.Keys
      && currentChecksum <= 0xffff && Agrees(currentChecksum, creserved, owned)
    }

    constructor (creserved: Word)
      ensures Valid() && owned == map[] && this.creserved == creserved
    {
      this.creserved := creserved;
      owned, toAdd, toUpdate, currentChecksum := map[], {}, {}, creserved;
    }

    /** A descriptor that is loaded has the checksum it was stored with. */
    method Load(id: nat, checksum: Word)
      requires Valid() && id !in owned
      modifies this
      ensures Valid() && owned == old(owned)[id := checksum] && toAdd == old(toAdd) && toUpdate == old(toUpdate)
    {
      SumWith(owned, id, checksum);
      AddBoth(currentChecksum, creserved + SumOf(owned), checksum);
      FoldedCongruent(currentChecksum + checksum, creserved + SumOf(owned) + checksum);
      owned := owned[id := checksum];
      currentChecksum := FoldInetChecksum(currentChecksum + checksum);
    }

    /** add_s, also for a descriptor that was moved in from another set. */
    method Add(id: nat, checksum: Word) returns (r: Outcome<()>)
      requires Valid()
      modifies this
      ensures Valid()
      ensures r.Throws? <==> id in old(owned)
      ensures r.Throws? ==> unchanged(this)
      ensures r.Ok? ==>
                owned == old(owned)[id := checksum] && toAdd == old(toAdd) + {id} && toUpdate == old(toUpdate)
    {
      if id in owned { return Throws(DuplicatedId); }
      Load(id, checksum);
      toAdd := toAdd + {id};
      r := Ok(());
    }

    /** impl_remove: for erase and for move_out. */
    method Remove(id: nat) returns (r: Outcome<Word>)
      requires Valid()
      modifies this
      ensures Valid()
      ensures r.Throws? <==> id !in old(owned)
      ensures r.Throws? ==> unchanged(this)
      ensures r.Ok? ==> r.value == old(owned)[id] && owned == old(owned) - {id}
      ensures r.Ok? ==> toAdd == old(toAdd) - {id} && toUpdate == old(toUpdate) - {id}
    {
      if id !in owned { return Throws(NoSuchDescriptor); }
      var checksum := owned[id];
      toAdd := toAdd - {id};
      toUpdate := toUpdate - {id};
      SumSplit(owned, id);
      owned := owned - {id};
      currentChecksum := WithoutOne(currentChecksum, checksum, creserved + SumOf(owned));
      r := Ok(checksum);
    }

    /** move_out: the descriptor changes sets with the checksum it has. */
    method MoveOut(id: nat, home: DescriptorSet) returns (r: Outcome<()>)
      requires Valid() && home.Valid() && home != this
      modifies this, home
      ensures Valid() && home.Valid()
      ensures r.Ok? <==> id in old(owned) && id !in old(home.owned)
      ensures r.Throws? ==> unchanged(this) && unchanged(home)
      ensures r.Ok? ==> owned == old(owned) - {id} && home.owned == old(home.owned)[id := old(owned)[id]]
      ensures r.Ok? ==> toAdd == old(toAdd) - {id} && toUpdate == old(toUpdate) - {id}
      ensures r.Ok? ==> home.toAdd == old(home.toAdd) + {id} && home.toUpdate == old(home.toUpdate)
    {
      if id !in owned { return Throws(NoSuchDescriptor); }
      if id in home.owned { return Throws(DuplicatedId); }
      var checksum := Remove(id);
      r := home.Add(id, checksum.value);
    }

    method MarkAsModified(id: nat) returns (r: Outcome<()>)
      requires Valid()
      modifies this`toUpdate
      ensures Valid()
      ensures r.Throws? <==> id !in owned
      ensures toUpdate == if id in owned && id !in toAdd then old(toUpdate) + {id} else old(toUpdate)
    {
      if id !in owned { return Throws(NoSuchDescriptor); }
      if id !in toAdd {
        toUpdate := toUpdate + {id};
      }
      r := Ok(());
    }

    /** clear_set: takes out the checksums one by one. */
    method Clear()
      requires Valid()
      modifies this
      ensures Valid() && owned == map[] && toAdd == {} && toUpdate == {}
    {
      currentChecksum := WithoutAny(currentChecksum, owned, creserved);
      owned, toAdd, toUpdate := map[], {}, {};
    }

    /**
     * Writes the descriptors that are new or modified, each of which gets a new checksum, and the header. The sum is
     * folded only at the end: what it wraps around in 32 bits before is lost, and then the stored checksum fails the
     * test, unless it wrapped a multiple of 0xffff times. See SmallFlush and OneTooMany.
     */
    method Flush(written: Checksums)
      requires Valid() && toAdd + toUpdate == written.Keys
      modifies this
      ensures toAdd == {} && toUpdate == {} && owned == old(owned) + written && currentChecksum < 0xffff
      ensures Valid() <==> old(Wraps(owned, written, currentChecksum)) % 0xffff == 0
      ensures PassesTest(currentChecksum, creserved, owned) <==> Valid()
      ensures IsStored(old(owned), written, old(currentChecksum), currentChecksum)
    {
      hide Agrees, PassesTest, Wraps, IsFlushSum;
      var sum := WriteEach(owned, written, currentChecksum, creserved);
      sum := ToStore(sum, creserved, owned + written);
      PassesIffAgrees(sum, creserved, owned + written);
      owned, currentChecksum, toAdd, toUpdate := owned + written, sum, {}, {};
    }
  }

  lemma {:induction false} NotEmpty(m: Checksums)
    requires m != map[]
    ensures m.Keys != {}
  {
    var id :| id in m;
    assert id in m.Keys;
  }

  lemma {:induction false} StartFlush(owned: Checksums, written: Checksums, current: nat)
    requires written.Keys <= owned.Keys && current <= 0xffff
    ensures Flushing(owned, owned, written, written.Keys, current, current)
  {
    hide SumOf;
    assert |written.Keys| == |written|;
    assert written - written.Keys == map[];
    assert owned + map[] == owned;
  }

  /** One descriptor written: its old checksum is taken out and its new one added. */
  lemma {:induction false} FlushOne(before: Checksums, now: Checksums, written: Checksums, todo: set<nat>, current: nat,
                                    sum: nat, id: nat)
    requires Flushing(before, now, written, todo, current, sum) && id in todo
    ensures id in now && id in written
    ensures var out := Wrap32(Removed(sum, now[id]));
            Flushing(before, now[id := written[id]], written, todo - {id}, current, Wrap32(out + written[id]))
  {
    hide SumOf, Wrap32;
    var total := Total(before, now, |written| - |todo|, current);
    SumSplit(now, id);
    SumChanged(now, id, written[id]);
    NextWritten(before, written, todo, id);
    assert |todo - {id}| == |todo| - 1;
    WrapLater(total, 0xffff - now[id]);
    WrapLater(total + (0xffff - now[id]), written[id]);
  }

  lemma {:induction false} WrapLater(a: nat, b: nat)
    ensures Wrap32(Wrap32(a) + b) == Wrap32(a + b)
  {
    assert a == (a / 0x1_0000_0000) * 0x1_0000_0000 + Wrap32(a);
  }

  lemma {:induction false} EndFlush(owned: Checksums, now: Checksums, written: Checksums, current: nat, sum: nat)
    requires Flushing(owned, now, written, {}, current, sum)
    ensures now == owned + written
    ensures var total := Total(owned, now, |written|, current); total >= 0 && sum == Wrap32(total)
  {
    hide Total, Wrap32;
    assert written - {} == written;
  }

  lemma {:induction false} WrapsTell(owned: Checksums, now: Checksums, n: nat, current: nat, creserved: Word)
    requires Total(owned, now, n, current) >= 0 && Agrees(current, creserved, owned)
    ensures var total: nat := Total(owned, now, n, current);
            Agrees(Wrap32(total), creserved, now) <==> (total / 0x1_0000_0000) % 0xffff == 0
  {
    hide SumOf, Congruent, Wrap32;
    SumAgrees(current, creserved, n, SumOf(now), SumOf(owned), Total(owned, now, n, current));
  }

  lemma {:induction false} SumAgrees(current: nat, creserved: nat, n: nat, sumNow: nat, sumBefore: nat, total: nat)
    requires Congruent(current, creserved + sumBefore) && total == current + n * 0xffff + sumNow - sumBefore
    ensures Congruent(Wrap32(total), creserved + sumNow) <==> (total / 0x1_0000_0000) % 0xffff == 0
  {
    hide Congruent;
    TotalAgrees(current, creserved + sumBefore, n, sumNow, sumBefore, creserved, total);
    EachWrapLosesOne(total, total / 0x1_0000_0000, Wrap32(total), creserved + sumNow);
  }

  /** The total stands for the checksums as they are now. */
  lemma {:induction false} TotalAgrees(current: nat, was: nat, n: nat, sumNow: nat, sumBefore: nat, creserved: nat,
      total: nat)
    requires Congruent(current, was) && was == creserved + sumBefore
        && total == current + n * 0xffff + sumNow - sumBefore
    ensures Congruent(total, creserved + sumNow)
  {
    var k := current / 0xffff - was / 0xffff;
    assert total == creserved + sumNow + (n + k) * 0xffff;
  }

  /** Modulo 0xffff the carry that 32 bits lose is a 1. */
  lemma {:induction false} EachWrapLosesOne(total: nat, q: nat, sum: nat, want: nat)
    requires total == q * 0x1_0000_0000 + sum && Congruent(total, want)
    ensures Congruent(sum, want) <==> q % 0xffff == 0
  {
    assert total == q * 0x1_0001 * 0xffff + q + sum;
    assert (q + sum) % 0xffff == total % 0xffff;
    Offset(q, sum);
  }

  lemma {:induction false} Offset(q: nat, sum: nat)
    ensures (q + sum) % 0xffff == sum % 0xffff <==> q % 0xffff == 0
  {
    var a, b := q / 0xffff, sum / 0xffff;
    assert q + sum == (a + b) * 0xffff + q % 0xffff + sum % 0xffff;
  }

  /** A flush of no more than 0x8000 descriptors does not wrap. */
  lemma {:induction false} SmallFlush(owned: Checksums, written: Checksums, current: nat)
    requires current <= 0xffff && written.Keys <= owned.Keys && |written| <= MAX_FLUSH
    ensures Wraps(owned, written, current) == 0
  {
    hide SumOf;
    SumWritten(owned, written);
  }

  lemma {:induction false} SumWritten(owned: Checksums, written: Checksums)
    requires written.Keys <= owned.Keys
    ensures SumOf(owned) <= SumOf(owned + written) + |written| * 0xffff
    ensures SumOf(owned + written) <= SumOf(owned) + |written| * 0xffff
    decreases |written|
  {
    hide SumOf;
    if written == map[] {
      assert owned + written == owned;
    } else {
      var id :| id in written;
      var rest := written - {id};
      assert rest.Keys == written.Keys - {id};
      assert |rest.Keys| == |written.Keys| - 1;
      SumWritten(owned, rest);
      assert owned + written == (owned + rest)[id := written[id]];
      SumSplit(owned + rest, id);
      SumChanged(owned + rest, id, written[id]);
    }
  }

  lemma {:induction false} NextWritten(owned: Checksums, written: Checksums, todo: set<nat>, id: nat)
    requires id in todo && todo <= written.Keys && written.Keys <= owned.Keys
    ensures owned + (written - (todo - {id})) == (owned + (written - todo))[id := written[id]]
  {
  }

  lemma {:induction false} NegativeZero(sum: nat, c: nat, want: nat)
    requires c == Folded(sum)
    ensures Congruent(c, want) <==> Congruent(sum, want)
    ensures c == 0xffff ==> (Congruent(0, want) <==> Congruent(sum, want))
  {
  }

  lemma {:induction false} PassesIffAgrees(stored: Word, creserved: Word, owned: Checksums)
    ensures PassesTest(stored, creserved, owned) <==> Agrees(stored, creserved, owned)
  {
    hide SumOf;
    GoodIffCongruent(creserved + SumOf(owned), stored);
  }

  /** The descriptors 0 to n - 1, all with the same checksum. */
  function Same(n: nat, w: Word): (m: Checksums)
    ensures |m| == n && (forall id: nat :: id in m <==> id < n) && (forall id: nat :: id in m ==> m[id] == w)
  {
    if n == 0 then map[] else Same(n - 1, w)[n - 1 := w]
  }

  lemma {:induction false} SumSame(n: nat, w: Word)
    ensures SumOf(Same(n, w)) == n * w
  {
    hide SumOf, Same;
    SumSameStep(n, w);
    if n != 0 {
      SumSame(n - 1, w);
      assert n * w == (n - 1) * w + w;
    }
  }

  lemma {:induction false} SumSameStep(n: nat, w: Word)
    ensures SumOf(Same(n, w)) == if n == 0 then 0 else SumOf(Same(n - 1, w)) + w
  {
    hide SumOf;
    if n == 0 {
      SumOfNone();
      assert Same(n, w) == map[];
    } else {
      SumWith(Same(n - 1, w), n - 1, w);
    }
  }

  /** One descriptor more, and 32 bits may not be enough: all checksums are 0 before the flush and 0xffff after it. */
  lemma {:induction false} OneTooMany()
    ensures var n := MAX_FLUSH + 1;
            && Agrees(0, 0, Same(n, 0)) && Same(n, 0).Keys == Same(n, 0xffff).Keys && |Same(n, 0xffff)| == n
            && Wraps(Same(n, 0), Same(n, 0xffff), 0) == 1
  {
    hide SumOf, Same;
    var n := MAX_FLUSH + 1;
    SumSame(n, 0);
    SumSame(n, 0xffff);
    assert Same(n, 0) + Same(n, 0xffff) == Same(n, 0xffff);
  }
}
