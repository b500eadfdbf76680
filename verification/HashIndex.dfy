/** match.c: the chained hash index over the weak sums of the block table. */
module HashIndex {
  import opened Basics
  import opened Checksum
  import opened DeltaJob
  import opened Tokens

  /** Traditional index size; a larger one is used only for a larger block count. */
  const TRADITIONAL_TABLESIZE: nat := 0x1_0000

  function HashOf(tablesize: nat, sum: nat): nat
    requires tablesize > 0
  {
    if tablesize == TRADITIONAL_TABLESIZE
    then (sum % TWO_TO_THE_16 + sum / TWO_TO_THE_16) % TWO_TO_THE_16
    else sum % tablesize
  }

  lemma HashInRange(tablesize: nat, sum: nat)
    requires tablesize > 0
    ensures HashOf(tablesize, sum) < tablesize
  {
  }

  /** Hashing the two running 32-bit sums is hashing the weak sum they make up. */
  lemma HashOfRunningSums(s1: nat, s2: nat)
    ensures (s1 + s2) % TWO_TO_THE_16
         == HashOf(TRADITIONAL_TABLESIZE, s1 % TWO_TO_THE_16 + TWO_TO_THE_16 * (s2 % TWO_TO_THE_16))
  {
    var a, b := s1 % TWO_TO_THE_16, s2 % TWO_TO_THE_16;
    var q := s1 / TWO_TO_THE_16 + s2 / TWO_TO_THE_16;
    assert s1 + s2 == q * TWO_TO_THE_16 + (a + b);
    var sum := a + TWO_TO_THE_16 * b;
    assert sum / TWO_TO_THE_16 == b && sum % TWO_TO_THE_16 == a;
  }

  /** The link stored in front of position `from` of slot t's chain: it names the next lower block of
      that slot, or -1, and passes over dead blocks only. */
  ghost predicate Link(to: int, from: nat, t: nat, slots: seq<nat>, dead: set<nat>)
    requires from <= |slots|
  {
    && -1 <= to < from
    && (to >= 0 ==> slots[to] == t)
    && (forall j :: to < j < from && slots[j] == t ==> j in dead)
  }

  /** The first n blocks are threaded: every slot and every block carries a good link. */
  ghost predicate Threaded(table: seq<int>, chain: seq<int>, slots: seq<nat>, n: nat, dead: set<nat>) {
    && |chain| == |slots| && n <= |slots|
    && (forall i :: 0 <= i < n ==> slots[i] < |table|)
    && (forall t :: 0 <= t < |table| ==> Link(table[t], n, t, slots, dead))
    && (forall i :: 0 <= i < n ==> Link(chain[i], i, slots[i], slots, dead))
  }

  /** Pushing block n onto the front of its slot's chain. */
  lemma ThreadOne(table: seq<int>, chain: seq<int>, slots: seq<nat>, n: nat)
    requires Threaded(table, chain, slots, n, {}) && n < |slots| && slots[n] < |table|
    ensures Threaded(table[slots[n] := n], chain[n := table[slots[n]]], slots, n + 1, {})
  {
    var table', chain' := table[slots[n] := n], chain[n := table[slots[n]]];
    forall t | 0 <= t < |table'|
      ensures Link(table'[t], n + 1, t, slots, {})
    {
      assert Link(table[t], n, t, slots, {});
    }
    forall i | 0 <= i < n + 1
      ensures Link(chain'[i], i, slots[i], slots, {})
    {
      if i == n {
        assert Link(table[slots[n]], n, slots[n], slots, {});
      } else {
        assert Link(chain[i], i, slots[i], slots, {});
      }
    }
  }

  /** Bypassing a dead block keeps its predecessor's link good. */
  lemma LinkPast(to: nat, next: int, from: nat, t: nat, slots: seq<nat>, dead: set<nat>)
    requires from <= |slots| && Link(to, from, t, slots, dead)
    requires Link(next, to, t, slots, dead) && to in dead
    ensures Link(next, from, t, slots, dead)
  {
  }

  /** An index stays good when more blocks die. */
  lemma ThreadedLater(table: seq<int>, chain: seq<int>, slots: seq<nat>, was: set<nat>, now: set<nat>)
    requires Threaded(table, chain, slots, |slots|, was) && was <= now
    ensures Threaded(table, chain, slots, |slots|, now)
  {
    forall t | 0 <= t < |table|
      ensures Link(table[t], |slots|, t, slots, now)
    {
      assert Link(table[t], |slots|, t, slots, was);
    }
    forall i | 0 <= i < |slots|
      ensures Link(chain[i], i, slots[i], slots, now)
    {
      assert Link(chain[i], i, slots[i], slots, was);
    }
  }

  /** The index: a slot per hash value, each the head of a chain that runs through the blocks. */
  class Index {
    const job: Job
    var table: array<int>
    const chain: array<int>
    const sameOffset: array<bool>

    ghost predicate Shape()
      reads this
    {
      && table.Length > 0
      && chain.Length == |job.sums| == sameOffset.Length
      && table != chain
    }

    ghost function Slots(): (slots: seq<nat>)
      requires table.Length > 0
      reads this`table
      ensures |slots| == |job.sums|
      ensures forall i {:trigger HashOf(table.Length, job.sums[i].sum1)} :: 0 <= i < |job.sums| ==>
        slots[i] == HashOf(table.Length, job.sums[i].sum1)
    {
      var tablesize := table.Length;
      seq(|job.sums|, i requires 0 <= i < |job.sums| => HashOf(tablesize, job.sums[i].sum1))
    }

    /** The blocks an in-place update can no longer use: their place in the file has been passed. */
    ghost function Dead(inplace: bool, offset: nat): (dead: set<nat>)
      requires |job.sums| == sameOffset.Length
      reads sameOffset
    {
      set i: nat | i < |job.sums| && inplace && job.sums[i].offset < offset && !sameOffset[i]
    }

    /** Every slot heads the chain of exactly its own blocks, highest first, bar dead ones. */
    ghost predicate Valid(inplace: bool, offset: nat)
      reads this, table, chain, sameOffset
    {
      Shape() && Threaded(table[..], chain[..], Slots(), |job.sums|, Dead(inplace, offset))
    }

    constructor (job: Job)
      ensures this.job == job
      ensures Shape() && fresh(table) && fresh(chain) && fresh(sameOffset)
      ensures forall i :: 0 <= i < |job.sums| ==> !sameOffset[i]
    {
      this.job := job;
      table := new int[1];
      chain := new int[|job.sums|];
      sameOffset := new bool[|job.sums|](_ => false);
    }

    /** Threads block i onto the front of its slot's chain. */
    method ThreadBlock(i: nat)
      requires Shape() && i < |job.sums| && Threaded(table[..], chain[..], Slots(), i, {})
      modifies table, chain
      ensures Threaded(table[..], chain[..], Slots(), i + 1, {})
    {
      var t := HashOf(table.Length, job.sums[i].sum1);
      HashInRange(table.Length, job.sums[i].sum1);
      ThreadOne(table[..], chain[..], Slots(), i);
      hide Threaded, HashOf;
      ghost var table', chain' := table[..][t := i], chain[..][i := table[t]];
      chain[i] := table[t];
      table[t] := i;
      assert table[..] == table' && chain[..] == chain';
    }

    /** Sizes the table for the block count and threads every block onto its slot's chain. */
    method BuildHashTable()
      requires Shape()
      modifies this`table, chain
      ensures fresh(table) && Valid(false, 0) && Valid(true, 0)
    {
      var tablesize := |job.sums| / 8 * 10 + 11;
      if tablesize < TRADITIONAL_TABLESIZE {
        tablesize := TRADITIONAL_TABLESIZE;
      }
      table := new int[tablesize](_ => -1);
      assert Threaded(table[..], chain[..], Slots(), 0, {});
      hide Threaded, HashOf;
      var i := 0;
      while i < |job.sums|
        invariant 0 <= i <= |job.sums|
        invariant Shape() && fresh(table)
        invariant Threaded(table[..], chain[..], Slots(), i, {})
      {
        ThreadBlock(i);
        i := i + 1;
      }
      assert Dead(false, 0) == {} && Dead(true, 0) == {};
    }

    /** Takes dead block i out of its slot's chain; `prev` is the block before it, or -1. */
    method Unlink(entry: nat, prev: int, i: nat, ghost inplace: bool, ghost offset: nat)
      requires Valid(inplace, offset)
      requires entry < table.Length && i < |job.sums| && i in Dead(inplace, offset)
      requires Slots()[i] == entry && -1 <= prev < |job.sums|
      requires if prev < 0 then table[entry] == i else Slots()[prev] == entry && chain[prev] == i
      modifies table, chain
      ensures Valid(inplace, offset) && chain[i] == old(chain[i])
      ensures if prev < 0 then table[entry] == chain[i] else chain[prev] == chain[i]
    {
      ghost var slots, dead := Slots(), Dead(inplace, offset);
      ghost var table0, chain0 := table[..], chain[..];
      assert Link(chain0[i], i, slots[i], slots, dead);
      if prev < 0 {
        assert Link(table0[entry], |job.sums|, entry, slots, dead);
        LinkPast(i, chain0[i], |job.sums|, entry, slots, dead);
        table[entry] := chain[i];
        assert table[..] == table0[entry := chain0[i]] && chain[..] == chain0;
      } else {
        assert Link(chain0[prev], prev, slots[prev], slots, dead);
        LinkPast(i, chain0[i], prev, entry, slots, dead);
        chain[prev] := chain[i];
        assert chain[..] == chain0[prev := chain0[i]] && table[..] == table0;
      }
    }

    /** The weak sum and the slot of the window `w`, from its 32-bit running job.sums. */
    method HashEntry(s1: nat, s2: nat, w: bytes) returns (sum: nat, entry: nat)
      requires table.Length > 0
      requires RunningSums(s1, s2, w)
      ensures sum == Weak(w) && entry == HashOf(table.Length, sum) < table.Length
    {
      CombineSums(s1, s2, w);
      ShiftLeft16(s2);
      HashOfRunningSums(s1, s2);
      sum := s1 % TWO_TO_THE_16 + s2 * TWO_TO_THE_16 % TWO_TO_THE_32;
      entry := if table.Length == TRADITIONAL_TABLESIZE then (s1 + s2) % TWO_TO_THE_16
               else sum % table.Length;
      HashInRange(table.Length, sum);
    }

    /** Every block above position i that fits at `offset` is dead. */
    ghost predicate NoneAbove(i: int, offset: nat, dead: set<nat>)
      requires offset <= |job.src|
    {
      forall j :: 0 <= j && i < j < |job.sums| && job.FitsAt(j, offset) ==> j in dead
    }

    /** A block that does not fit, or is dead, can be passed. */
    lemma NotFitNext(i: nat, offset: nat, dead: set<nat>)
      requires offset <= |job.src|
      requires i < |job.sums| && NoneAbove(i, offset, dead)
      requires job.FitsAt(i, offset) ==> i in dead
      ensures NoneAbove(i - 1, offset, dead)
    {
    }

    lemma NoneAboveLink(to: int, from: nat, offset: nat, slots: seq<nat>, dead: set<nat>, tablesize: nat)
      requires offset <= |job.src|
      requires tablesize > 0 && |slots| == |job.sums| && from <= |job.sums|
      requires forall i {:trigger HashOf(tablesize, job.sums[i].sum1)} :: 0 <= i < |job.sums| ==>
        slots[i] == HashOf(tablesize, job.sums[i].sum1)
      requires Link(to, from, HashOf(tablesize, Weak(job.Window(offset))), slots, dead)
      requires NoneAbove(from - 1, offset, dead)
      ensures NoneAbove(to, offset, dead)
    {
      forall j | 0 <= j && to < j < |job.sums| && job.FitsAt(j, offset)
        ensures j in dead
      {
        assert slots[j] == HashOf(tablesize, job.sums[j].sum1);
      }
    }

    /** The head of a slot's chain: nothing that fits lies above it, bar dead blocks. */
    lemma ChainHead(entry: nat, inplace: bool, offset: nat)
      requires Valid(inplace, offset) && offset <= |job.src|
      requires entry == HashOf(table.Length, Weak(job.Window(offset))) < table.Length
      ensures -1 <= table[entry] < |job.sums|
      ensures table[entry] >= 0 ==> Slots()[table[entry]] == entry
      ensures NoneAbove(table[entry], offset, Dead(inplace, offset))
    {
      assert Link(table[..][entry], |job.sums|, entry, Slots(), Dead(inplace, offset));
      NoneAboveLink(table[entry], |job.sums|, offset, Slots(), Dead(inplace, offset), table.Length);
    }

    /** One link further down a chain: nothing that fits is skipped, bar dead blocks. */
    lemma ChainStep(i: nat, inplace: bool, offset: nat)
      requires Valid(inplace, offset) && i < |job.sums| && offset <= |job.src|
      requires Slots()[i] == HashOf(table.Length, Weak(job.Window(offset)))
      requires NoneAbove(i - 1, offset, Dead(inplace, offset))
      ensures -1 <= chain[i] < i
      ensures chain[i] >= 0 ==> Slots()[chain[i]] == Slots()[i]
      ensures NoneAbove(chain[i], offset, Dead(inplace, offset))
    {
      assert Link(chain[..][i], i, Slots()[i], Slots(), Dead(inplace, offset));
      NoneAboveLink(chain[i], i, offset, Slots(), Dead(inplace, offset), table.Length);
    }

    /** Looks one hash slot up for a usable block that fits at `offset`, given the 32-bit running sums of
        the window there; bypassed blocks are unlinked on the way. The answer is the highest usable
        block of the whole table that fits, or -1 if there is none. */
    method Lookup(s1: nat, s2: nat, offset: nat) returns (i: int)
      requires Valid(job.inplace, offset) && offset <= |job.src|
      requires RunningSums(s1, s2, job.Window(offset))
      modifies table, chain
      ensures Valid(job.inplace, offset)
      ensures -1 <= i < |job.sums|
      ensures i >= 0 ==> job.FitsAt(i, offset) && i !in Dead(job.inplace, offset)
      ensures NoneAbove(i, offset, Dead(job.inplace, offset))
    {
      var sum, entry := HashEntry(s1, s2, job.Window(offset));
      ChainHead(entry, job.inplace, offset);
      i := table[entry];
      if i >= 0 {
        i := WalkChain(sum, entry, i, offset);
      }
    }

    /** Whether block i fits at `offset`; the strong sum of the window is taken only when needed. */
    method Compare(i: nat, sum: nat, offset: nat, doneSum2: bool, sum2: bytes)
      returns (fits: bool, done': bool, sum2': bytes)
      requires i < |job.sums| && offset <= |job.src| && sum == Weak(job.Window(offset))
      requires doneSum2 ==> sum2 == job.strong(job.Window(offset))
      ensures fits == job.FitsAt(i, offset)
      ensures done' ==> sum2' == job.strong(job.Window(offset))
    {
      fits, done', sum2' := false, doneSum2, sum2;
      if sum == job.sums[i].sum1 && Min(job.blength, |job.src| - offset) == job.sums[i].len {
        if !done' {
          sum2', done' := job.strong(job.Window(offset)), true;
        }
        fits := Truncate(sum2', job.s2length) == job.sums[i].sum2;
      }
    }

    method WalkChain(sum: nat, entry: nat, head: nat, offset: nat) returns (i: int)
      requires Valid(job.inplace, offset) && offset <= |job.src|
      requires sum == Weak(job.Window(offset)) && entry == HashOf(table.Length, sum) < table.Length
      requires head < |job.sums| && table[entry] == head && Slots()[head] == entry
      requires NoneAbove(head, offset, Dead(job.inplace, offset))
      modifies table, chain
      ensures Valid(job.inplace, offset)
      ensures -1 <= i < |job.sums|
      ensures i >= 0 ==> job.FitsAt(i, offset) && i !in Dead(job.inplace, offset)
      ensures NoneAbove(i, offset, Dead(job.inplace, offset))
    {
      hide Threaded, NoneAbove, Weak, HashOf;
      ghost var dead := Dead(job.inplace, offset);
      var prev := -1;
      var doneSum2, sum2 := false, [];
      i := head;
      while true
        invariant Valid(job.inplace, offset)
        invariant 0 <= i < |job.sums| && Slots()[i] == entry
        invariant -1 <= prev < |job.sums|
        invariant if prev < 0 then table[entry] == i else Slots()[prev] == entry && chain[prev] == i
        invariant NoneAbove(i, offset, dead)
        invariant doneSum2 ==> sum2 == job.strong(job.Window(offset))
        decreases i
      {
        if job.inplace && job.sums[i].offset < offset && !sameOffset[i] {
          // Remove a bypassed entry that can never be used again.
          Unlink(entry, prev, i, job.inplace, offset);
        } else {
          prev := i;
          var fits;
          fits, doneSum2, sum2 := Compare(i, sum, offset, doneSum2, sum2);
          if fits {
            return;
          }
        }
        NotFitNext(i, offset, dead);
        ChainStep(i, job.inplace, offset);
        i := chain[i];
        if i < 0 {
          return;
        }
      }
    }
  }
}
