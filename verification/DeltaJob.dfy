/** match.c: what one file's scan works on, and the choices it makes, as plain values. */
module DeltaJob {
  import opened Basics
  import opened Checksum
  import opened Tokens

  /** `memcmp` of the first s2length bytes: a digest as the block table stores it. */
  function Truncate(digest: bytes, s2length: nat): (sum2: bytes)
    ensures sum2 <= digest && |sum2| == Min(|digest|, s2length)
  {
    if |digest| <= s2length then digest else digest[..s2length]
  }

  /** A block the scan settles on, where it is emitted, the block wanted next to it, and whether it is
      now known to lie at its own offset in the source too. */
  datatype Pick = Pick(i: nat, offset: nat, flagged: bool)

  /** The source file, the block table of the basis, and the options of the scan. */
  datatype Job = Job(src: bytes, sums: seq<SumBuf>, blength: nat, s2length: nat,
                     strong: bytes -> bytes, inplace: bool)
  {
    /** The source window that is compared with blocks at position o. */
    function Window(o: nat): bytes
      requires o <= |src|
    {
      src[o..Min(o + blength, |src|)]
    }

    function Digest(o: nat): bytes
      requires o <= |src|
    {
      Truncate(strong(Window(o)), s2length)
    }

    // ----- what is assumed of the checksums

    ghost predicate StrongAgrees(i: nat, o: nat)
      requires i < |sums| && o <= |src|
    {
      Digest(o) == sums[i].sum2
    }

    ghost predicate SumsAgree(i: nat, o: nat)
      requires i < |sums| && o <= |src|
    {
      Weak(Window(o)) == sums[i].sum1 && StrongAgrees(i, o)
    }

    /** Every row of the table has the sums of its block. */
    ghost predicate Honest(blocks: seq<bytes>) {
      && |blocks| == |sums|
      && forall i :: 0 <= i < |sums| ==>
           sums[i].sum1 == Weak(blocks[i]) && sums[i].sum2 == Truncate(strong(blocks[i]), s2length)
    }

    /** Agreement of both sums of a source window with a block's means that the bytes agree. */
    ghost predicate CollisionFree(blocks: seq<bytes>) {
      && |blocks| == |sums|
      && forall o, i :: 0 <= o < |src| && 0 <= i < |sums| && SumsAgree(i, o) ==> blocks[i] == Window(o)
    }

    ghost predicate ZeroWindow(o: nat)
      requires o <= |src|
    {
      |Window(o)| == blength && Weak(Window(o)) == 0
    }

    /** All full source windows whose weak sum is zero hold the same bytes. */
    ghost predicate ZeroWindowsAgree() {
      forall a, b :: 0 <= a < |src| && 0 <= b < |src| && ZeroWindow(a) && ZeroWindow(b) ==>
        Window(a) == Window(b)
    }

    /** Their strong sum is that of no block with another weak sum. */
    ghost predicate ZeroSumsApart() {
      forall o, i :: 0 <= o < |src| && 0 <= i < |sums| && ZeroWindow(o) && StrongAgrees(i, o) ==>
        sums[i].sum1 == 0
    }

    /** When the output is certain to be the source itself. */
    ghost predicate Faithful(blocks: seq<bytes>) {
      CollisionFree(blocks) && (inplace ==> ZeroWindowsAgree() && ZeroSumsApart())
    }

    /** Where a block fits, no longer block has the sums of the window. That can only be at a short window at
        the end of the source, which a full block would reach beyond. */
    ghost predicate TailApart() {
      forall o, i, j :: 0 <= o < |src| && 0 <= i < |sums| && 0 <= j < |sums| && FitsAt(j, o) && SumsAgree(i, o) ==>
        sums[i].len <= |Window(o)|
    }

    /** The table that `hash_search` is called with. Nothing is assumed of the checksums. */
    ghost predicate Setting(blocks: seq<bytes>) {
      && Tiled(sums, blength)
      && 0 < blength <= OLD_MAX_BLOCK_SIZE
      && |blocks| == |sums|
      && (forall i :: 0 <= i < |blocks| ==> |blocks[i]| == sums[i].len)
    }

    /** Without collisions, no longer block can have a window's sums. */
    lemma TailIsApart(blocks: seq<bytes>)
      requires Setting(blocks) && CollisionFree(blocks)
      ensures TailApart()
    {
    }

    // ----- the greedy scan, by trying every block at every position

    predicate FitsAt(i: nat, o: nat)
      requires i < |sums| && o <= |src|
    {
      sums[i].len == |Window(o)| && sums[i].sum1 == Weak(Window(o)) && sums[i].sum2 == Digest(o)
    }

    /** In an in-place update, a block can be copied to `offset` only if its own bytes have not been
        overwritten by then. */
    predicate Usable(i: nat, offset: nat, same: seq<bool>)
      requires i < |sums| == |same|
    {
      inplace ==> sums[i].offset >= offset || same[i]
    }

    /** A block that the source holds at o fits there, if it is as long as a block can be there; and without collisions
        no other one does. */
    lemma FitsIs(i: nat, o: nat, blocks: seq<bytes>)
      requires Setting(blocks) && Honest(blocks) && i < |sums| && o < |src|
      ensures blocks[i] == src[o..Min(o + blength, |src|)] ==> FitsAt(i, o)
      ensures CollisionFree(blocks) && FitsAt(i, o) ==> blocks[i] == src[o..Min(o + blength, |src|)]
    {
      assert FitsAt(i, o) ==> SumsAgree(i, o);
    }

    /** The highest of the first n blocks that can be used and fits at o, or -1. */
    function LastFit(n: nat, o: nat, same: seq<bool>): (i: int)
      requires n <= |sums| == |same| && o <= |src|
      ensures -1 <= i < n
      ensures i >= 0 ==> FitsAt(i, o) && Usable(i, o, same)
      ensures forall j :: i < j < n && FitsAt(j, o) ==> !Usable(j, o, same)
    {
      if n == 0 then -1
      else if FitsAt(n - 1, o) && Usable(n - 1, o, same) then n - 1
      else LastFit(n - 1, o, same)
    }

    function NoFlags(): (same: seq<bool>)
      ensures |same| == |sums| && forall i :: 0 <= i < |same| ==> !same[i]
    {
      seq(|sums|, _ => false)
    }

    /** The matches of the greedy scan from position o on: at each position the wanted block if it
        fits, else the highest block that does; the block after the one taken is wanted next. */
    ghost function Greedy(o: nat, want: nat): seq<Placed>
      requires o <= |src|
      requires forall i :: 0 <= i < |sums| ==> sums[i].len > 0
      decreases |src| - o
    {
      if o == |src| then []
      else
        var found := LastFit(|sums|, o, NoFlags());
        if found < 0 then Greedy(o + 1, want)
        else
          var i := if want < |sums| && FitsAt(want, o) then want else found;
          [Placed(o, i)] + Greedy(o + sums[i].len, i + 1)
    }

    /** The first block of the basis, by index, that starts at or behind o. */
    function AlignedIndex(o: nat): (a: nat)
      requires blength > 0
      ensures o <= a * blength < o + blength
    {
      (o + blength - 1) / blength
    }

    /** The matches of the scan from position o on, in place or not, by trying every block at every position:
        what becomes of the highest usable block that fits is up to `PickBlock`. It ends with a match that
        reaches beyond the source. */
    ghost function Run(o: nat, want: nat, same: seq<bool>): seq<Placed>
      requires o <= |src| && |same| == |sums| && blength > 0
      requires forall i :: 0 <= i < |sums| ==> sums[i].len > 0
      decreases |src| - o
    {
      if o == |src| then []
      else
        var found := LastFit(|sums|, o, same);
        if found < 0 then Run(o + 1, want, same)
        else
          var p := PickBlock(found, o, AlignedIndex(o) * blength, AlignedIndex(o), want, same);
          var next := p.offset + sums[p.i].len;
          [Placed(p.offset, p.i)] + if next <= |src| then Run(next, p.i + 1, Flag(same, p)) else []
    }

    /** The position from which on no block can match. */
    function EndOfScan(): int
      requires sums != []
    {
      |src| + 1 - sums[|sums| - 1].len
    }

    /** No position at or past the end of the scan can match any block. */
    lemma NoFitPastEnd(o: nat, i: nat)
      requires Tiled(sums, blength) && i < |sums|
      requires EndOfScan() <= o <= |src|
      ensures !FitsAt(i, o)
    {
      assert sums[i].len >= sums[|sums| - 1].len > |Window(o)|;
    }

    lemma {:induction false} NoMatchesPastEnd(o: nat, want: nat, same: seq<bool>)
      requires Tiled(sums, blength) && sums != [] && blength > 0 && |same| == |sums|
      requires EndOfScan() <= o <= |src|
      ensures Run(o, want, same) == []
      decreases |src| - o
    {
      if o < |src| {
        forall i | 0 <= i < |sums|
          ensures !FitsAt(i, o)
        {
          NoFitPastEnd(o, i);
        }
        NoMatchesPastEnd(o + 1, want, same);
      }
    }

    /** Without blocks there is nothing to match. */
    lemma {:induction false} NoBlocks(o: nat, want: nat, same: seq<bool>)
      requires sums == [] && same == [] && blength > 0 && o <= |src|
      ensures Run(o, want, same) == []
      decreases |src| - o
    {
      if o < |src| {
        NoBlocks(o + 1, want, same);
      }
    }

    // ----- settling on a block

    /** Prefers the wanted block if its sums are the given ones. */
    function CheckWant(i: nat, offset: nat, sum: nat, sum2: bytes, want: nat, same: seq<bool>): (i': nat)
      requires i < |sums| == |same|
      ensures i' == i || i' == want < |sums|
    {
      if i != want && want < |sums| && Usable(want, offset, same)
         && sum == sums[want].sum1 && sum2 == sums[want].sum2
      then want else i
    }

    /** Whether the block at index ai, which starts at ao >= offset in the basis, may stand in for a
        block found at `offset`: it starts right there, or the window is all of weak sum zero. */
    predicate MayAlign(offset: nat, ao: nat, ai: nat)
      requires offset <= |src|
    {
      && (offset == ao
          || (Weak(Window(offset)) == 0 && |Window(offset)| == blength && ao + blength <= |src|))
      && ai < |sums|
    }

    /** From block i found at `offset` to the block that is emitted. In place, the block that starts at
        or just after this offset in the basis is preferred; the sums of the window there are then
        compared, and it is those sums that a wanted block is compared with if that fails. */
    function PickBlock(i: nat, offset: nat, ao: nat, ai: nat, want: nat, same: seq<bool>): (p: Pick)
      requires i < |sums| == |same| && offset <= |src|
      ensures p.i < |sums| && (p.offset == offset || p.offset == ao)
    {
      var sum, sum2 := Weak(Window(offset)), Digest(offset);
      if inplace && MayAlign(offset, ao, ai) then
        if i != ai && !FitsAt(ai, offset) then
          Pick(CheckWant(i, offset, sum, sum2, want, same), offset, false)
        else if offset == ao then Pick(ai, offset, true)
        else
          var sum' := Weak(Window(ao));
          if sum' != sums[ai].sum1 then
            Pick(CheckWant(ai, offset, sum', sum2, want, same), offset, false)
          else if Digest(ao) != sums[ai].sum2 then
            Pick(CheckWant(ai, offset, sum', Digest(ao), want, same), offset, false)
          else Pick(ai, ao, true)
      else Pick(CheckWant(i, offset, sum, sum2, want, same), offset, false)
    }

    /** The flags after a pick. */
    function Flag(same: seq<bool>, p: Pick): (same': seq<bool>)
      requires p.i < |same|
      ensures |same'| == |same|
    {
      if p.flagged then same[p.i := true] else same
    }

    /** The ways to be misled: re-alignment fails, and the wanted block is then compared with sums of the window
        at the aligned position instead of the current one: with both if it failed on the strong sum, and with
        the weak one, next to the strong sum of the current window, if it failed on that. */
    predicate Misled(i: nat, offset: nat, ao: nat, ai: nat, want: nat, same: seq<bool>)
      requires i < |sums| == |same| && offset <= |src|
    {
      && inplace && MayAlign(offset, ao, ai) && offset != ao
      && (i == ai || FitsAt(ai, offset))
      && want != ai && want < |sums| && Usable(want, offset, same)
      && Weak(Window(ao)) == sums[want].sum1
      && if Weak(Window(ao)) == sums[ai].sum1
         then Digest(ao) != sums[ai].sum2 && Digest(ao) == sums[want].sum2
         else Digest(offset) == sums[want].sum2
    }

    /** With every weak-zero window alike, and its strong sum that of no block of another weak sum, re-alignment
        cannot mislead the scan. */
    lemma NeverMisled(i: nat, offset: nat, ao: nat, ai: nat, want: nat, same: seq<bool>)
      requires ZeroWindowsAgree() && ZeroSumsApart() && offset < |src| && blength > 0
      requires i < |sums| == |same| && FitsAt(i, offset)
      requires offset <= ao
      ensures !Misled(i, offset, ao, ai, want, same)
    {
      if inplace && MayAlign(offset, ao, ai) && offset != ao {
        assert ZeroWindow(offset);
        assert ZeroWindow(ao) ==> Window(ao) == Window(offset);
        assert want < |sums| && StrongAgrees(want, offset) ==> sums[want].sum1 == 0;
      }
    }

    /** The block emitted for a block that fits holds the very source bytes it stands for, unless the
        scan is misled; then it does not if it is as long as the window. */
    lemma PickIsFaithful(i: nat, offset: nat, ao: nat, ai: nat, want: nat, same: seq<bool>,
                         p: Pick, blocks: seq<bytes>)
      requires Setting(blocks) && CollisionFree(blocks) && offset < |src|
      requires i < |sums| == |same| && FitsAt(i, offset)
      requires offset <= ao < offset + blength
      requires p == PickBlock(i, offset, ao, ai, want, same)
      requires p.offset + sums[p.i].len <= |src|
      ensures !Misled(i, offset, ao, ai, want, same) ==>
        src[p.offset..p.offset + sums[p.i].len] == blocks[p.i]
      ensures Honest(blocks) && Misled(i, offset, ao, ai, want, same) && sums[p.i].len == blength ==>
        src[p.offset..p.offset + sums[p.i].len] != blocks[p.i]
    {
      assert SumsAgree(i, offset);
      if Misled(i, offset, ao, ai, want, same) {
        assert p == Pick(want, offset, false);
        assert |Window(offset)| == blength;
        if Weak(Window(ao)) == sums[ai].sum1 {
          assert SumsAgree(want, ao) && SumsAgree(ai, offset);
        }
      } else if p.offset == offset {
        assert SumsAgree(p.i, offset);
      } else {
        assert SumsAgree(ai, ao);
      }
    }

    /** A wanted block may be longer than what is left of the source, since lengths are not compared then. */
    predicate Overruns(i: nat, offset: nat, ao: nat, ai: nat, want: nat, same: seq<bool>)
      requires i < |sums| == |same| && offset <= |src|
    {
      && want < |sums| && sums[want].len > |Window(offset)|
      && sums[want].sum1 == Weak(Window(offset)) && sums[want].sum2 == Digest(offset)
      && Usable(want, offset, same)
      && !(inplace && offset == ao && ai < |sums| && (i == ai || FitsAt(ai, offset)))
    }

    /** The block emitted stays within the source exactly if this is not so, whatever collides. */
    lemma PickStaysInside(i: nat, offset: nat, ao: nat, ai: nat, want: nat, same: seq<bool>, p: Pick)
      requires Tiled(sums, blength) && offset < |src| && i < |sums| == |same| && FitsAt(i, offset)
      requires inplace ==> offset <= ao
      requires p == PickBlock(i, offset, ao, ai, want, same)
      ensures p.offset + sums[p.i].len <= |src| <==> !Overruns(i, offset, ao, ai, want, same)
    {
      assert sums[p.i].len <= blength;
      assert |Window(offset)| == Min(blength, |src| - offset);
      if inplace && MayAlign(offset, ao, ai) {
        assert sums[ai].len <= blength;
      }
    }

    lemma NeverOverruns(i: nat, offset: nat, ao: nat, ai: nat, want: nat, same: seq<bool>)
      requires TailApart() && offset < |src| && i < |sums| == |same| && FitsAt(i, offset)
      ensures !Overruns(i, offset, ao, ai, want, same)
    {
      assert want < |sums| && SumsAgree(want, offset) ==> sums[want].len <= |Window(offset)|;
    }

    /** The emitted block can be copied to where it is emitted, and a flagged one lies right there. */
    lemma PickIsUsable(i: nat, offset: nat, ao: nat, ai: nat, want: nat, same: seq<bool>, p: Pick)
      requires Tiled(sums, blength) && i < |sums| == |same| && offset <= |src|
      requires Usable(i, offset, same) && ao == ai * blength
      requires inplace ==> offset <= ao
      requires p == PickBlock(i, offset, ao, ai, want, same)
      ensures p.i < |sums| && offset <= p.offset && Usable(p.i, p.offset, same)
      ensures p.flagged ==> sums[p.i].offset == p.offset
      ensures p.offset != offset ==> p.offset == ao
    {
      if ai < |sums| {
        assert sums[ai].offset == ao;
      }
    }

    /** In an in-place update, which block is emitted where. A block that starts right at the position, and fits
        there, always goes first, and is flagged. Among windows of weak sum zero the position moves on to where the
        next block starts, if that one fits here and there. In all other cases the position stays and nothing is
        flagged: the block is the wanted one if its sums are those at hand, and else the one that was found; after a
        re-alignment that failed, it is the one that was to be aligned with, and sums of its window are at hand. */
    lemma PickInPlace(i: nat, offset: nat, ao: nat, ai: nat, want: nat, same: seq<bool>, p: Pick)
      requires inplace && offset < |src| && i < |sums| == |same| && FitsAt(i, offset)
      requires p == PickBlock(i, offset, ao, ai, want, same)
      ensures var fits := ai < |sums| && FitsAt(ai, offset);
        var zeros := fits && offset != ao && Weak(Window(offset)) == 0
                     && |Window(offset)| == blength && ao + blength <= |src|;
        var (other, sum1, sum2) := if !zeros then (i, Weak(Window(offset)), Digest(offset))
                                   else if Weak(Window(ao)) != 0 then (ai, Weak(Window(ao)), Digest(offset))
                                   else (ai, 0, Digest(ao));
        var better := want < |sums| && (sums[want].offset >= offset || same[want])
                      && sums[want].sum1 == sum1 && sums[want].sum2 == sum2;
        p == if fits && offset == ao then Pick(ai, offset, true)
             else if zeros && FitsAt(ai, ao) then Pick(ai, ao, true)
             else Pick(if better then want else other, offset, false)
    {
    }

    /** A block that is emitted at its own offset, as long as there is of the source, is flagged. Without collisions
        it always is that long. */
    lemma PickIsFlagged(i: nat, offset: nat, ao: nat, ai: nat, want: nat, same: seq<bool>, p: Pick,
                        blocks: seq<bytes>)
      requires inplace && Setting(blocks) && offset < |src| && i < |sums| == |same| && FitsAt(i, offset)
      requires ao == ai * blength && offset <= ao < offset + blength
      requires p == PickBlock(i, offset, ao, ai, want, same) && p.offset + sums[p.i].len <= |src|
      ensures sums[p.i].offset == p.offset && sums[p.i].len == Min(blength, |src| - p.offset) ==> p.flagged
      ensures sums[p.i].offset == p.offset && CollisionFree(blocks) ==> p.flagged
    {
      if sums[p.i].offset == p.offset == offset {
        OneMultiple(blength, p.i, ai);
        assert ao == offset && ai == p.i;
        assert CollisionFree(blocks) && SumsAgree(p.i, offset) ==> |blocks[p.i]| == |Window(offset)|;
      }
    }

    /** Without in-place updating and without collisions, what is emitted is what the greedy scan takes. */
    lemma PickIsGreedy(i: nat, offset: nat, want: nat, same: seq<bool>, p: Pick, blocks: seq<bytes>)
      requires Setting(blocks) && CollisionFree(blocks) && !inplace && offset < |src| && |same| == |sums|
      requires i == LastFit(|sums|, offset, same)
      requires p == PickBlock(i, offset, AlignedIndex(offset) * blength, AlignedIndex(offset), want, same)
      ensures i == LastFit(|sums|, offset, NoFlags())
      ensures p == Pick(if want < |sums| && FitsAt(want, offset) then want else i, offset, false)
      ensures offset + sums[p.i].len <= |src|
    {
      var found := LastFit(|sums|, offset, NoFlags());
      assert FitsAt(found, offset) && FitsAt(i, offset);
      if want < |sums| && Weak(Window(offset)) == sums[want].sum1 && Digest(offset) == sums[want].sum2 {
        assert SumsAgree(want, offset);
      }
    }

    /** So the whole run is the greedy scan's. */
    lemma {:induction false} RunIsGreedy(o: nat, want: nat, same: seq<bool>, blocks: seq<bytes>)
      requires Setting(blocks) && CollisionFree(blocks) && !inplace && o <= |src| && |same| == |sums|
      ensures Run(o, want, same) == Greedy(o, want)
      decreases |src| - o
    {
      hide CollisionFree, PickBlock, FitsAt, LastFit;
      if o < |src| {
        var found, first := LastFit(|sums|, o, same), LastFit(|sums|, o, NoFlags());
        if found < 0 {
          RunIsGreedy(o + 1, want, same, blocks);
        } else {
          var p := PickBlock(found, o, AlignedIndex(o) * blength, AlignedIndex(o), want, same);
          PickIsGreedy(found, o, want, same, p, blocks);
          RunIsGreedy(o + sums[p.i].len, p.i + 1, same, blocks);
        }
      }
    }

    // ----- what holds whenever the scan is about to look at a position

    /** A block is flagged only once it has been emitted at its own offset. */
    ghost predicate FlagsPlaced(placed: seq<Placed>, same: seq<bool>)
      requires |same| == |sums|
    {
      forall i :: 0 <= i < |sums| && same[i] ==> Placed(sums[i].offset, i) in placed
    }

    /** Every block that has been emitted at its own offset is flagged. */
    ghost predicate PlacedFlagged(placed: seq<Placed>, same: seq<bool>)
      requires |same| == |sums|
    {
      forall i :: 0 <= i < |sums| && Placed(sums[i].offset, i) in placed ==> same[i]
    }

    /** The output covers the source so far; all copies are safe; the placements are the beginning of the run
        whose rest starts at `offset`; and the output replays to the source so far if that is certain. */
    ghost predicate AtScan(out: Output, same: seq<bool>, offset: nat, want: nat, blocks: seq<bytes>)
      requires Setting(blocks) && |same| == |sums| && offset <= |src|
    {
      && Covers(out, src, 0, blocks)
      && (Faithful(blocks) ==> Exact(out, src, 0, blocks))
      && (inplace ==> SafeCopies(Placements(out.tokens, blocks), sums))
      && FlagsPlaced(Placements(out.tokens, blocks), same)
      && (inplace && CollisionFree(blocks) ==> PlacedFlagged(Placements(out.tokens, blocks), same))
      && Placements(out.tokens, blocks) + Run(offset, want, same) == Run(0, 0, NoFlags())
    }

    lemma LiteralStep(out: Output, same: seq<bool>, offset: nat, want: nat, to: nat, blocks: seq<bytes>)
      requires Setting(blocks) && |same| == |sums| && offset <= |src|
      requires AtScan(out, same, offset, want, blocks) && out.lastMatch <= to <= |src|
      ensures AtScan(EmitLiteral(out, src, to), same, offset, want, blocks)
    {
      CoverLiteral(out, src, 0, to, blocks);
    }

    /** All that matters of the picked block. */
    lemma PickFacts(same: seq<bool>, offset: nat, want: nat, blocks: seq<bytes>,
                    i: nat, ao: nat, ai: nat, p: Pick)
      requires Setting(blocks) && TailApart() && |same| == |sums| && offset < |src|
      requires i < |sums| && FitsAt(i, offset) && Usable(i, offset, same)
      requires forall j :: i < j < |sums| && FitsAt(j, offset) ==> !Usable(j, offset, same)
      requires ao == ai * blength && (inplace ==> offset <= ao < offset + blength)
      requires p == PickBlock(i, offset, ao, ai, want, same)
      ensures p.i < |sums| && offset <= p.offset && p.offset + sums[p.i].len <= |src|
      ensures p.offset != offset ==> p.offset == ao
      ensures p.flagged ==> sums[p.i].offset == p.offset
      ensures inplace && CollisionFree(blocks) && sums[p.i].offset == p.offset ==> p.flagged
      ensures Usable(p.i, p.offset, same)
      ensures Faithful(blocks) ==> src[p.offset..p.offset + sums[p.i].len] == blocks[p.i]
      ensures Run(offset, want, same)
        == [Placed(p.offset, p.i)] + Run(p.offset + sums[p.i].len, p.i + 1, Flag(same, p))
    {
      PickIsUsable(i, offset, ao, ai, want, same, p);
      PickStaysInside(i, offset, ao, ai, want, same, p);
      NeverOverruns(i, offset, ao, ai, want, same);
      PickIsNext(same, offset, want, i, ao, ai, p);
      hide PickBlock, FitsAt, CollisionFree, Usable, TailApart, Run, LastFit;
      if inplace {
        PickIsFlagged(i, offset, ao, ai, want, same, p, blocks);
      }
      if Faithful(blocks) {
        PickIsRight(same, offset, want, blocks, i, ao, ai, p);
      }
    }

    lemma PickIsRight(same: seq<bool>, offset: nat, want: nat, blocks: seq<bytes>,
                      i: nat, ao: nat, ai: nat, p: Pick)
      requires Setting(blocks) && Faithful(blocks) && |same| == |sums| && offset < |src|
      requires i < |sums| && FitsAt(i, offset)
      requires inplace ==> offset <= ao < offset + blength
      requires p == PickBlock(i, offset, ao, ai, want, same) && p.offset + sums[p.i].len <= |src|
      ensures src[p.offset..p.offset + sums[p.i].len] == blocks[p.i]
    {
      hide FitsAt, CollisionFree, Usable;
      if inplace {
        hide PickBlock;
        NeverMisled(i, offset, ao, ai, want, same);
        PickIsFaithful(i, offset, ao, ai, want, same, p, blocks);
      } else {
        assert p == PickBlock(i, offset, offset, ai, want, same);
        PickIsFaithful(i, offset, offset, ai, want, same, p, blocks);
      }
    }

    /** The picked block is the next match of the run. */
    lemma PickIsNext(same: seq<bool>, offset: nat, want: nat, i: nat, ao: nat, ai: nat, p: Pick)
      requires Tiled(sums, blength) && |same| == |sums| && offset < |src| && blength > 0
      requires i < |sums| && FitsAt(i, offset) && Usable(i, offset, same)
      requires forall j :: i < j < |sums| && FitsAt(j, offset) ==> !Usable(j, offset, same)
      requires ao == ai * blength && (inplace ==> offset <= ao < offset + blength)
      requires p == PickBlock(i, offset, ao, ai, want, same) && p.offset + sums[p.i].len <= |src|
      ensures Run(offset, want, same)
        == [Placed(p.offset, p.i)] + Run(p.offset + sums[p.i].len, p.i + 1, Flag(same, p))
    {
      hide FitsAt, Usable;
      var found := LastFit(|sums|, offset, same);
      assert found == i;
      if inplace {
        OneMultiple(blength, ai, AlignedIndex(offset));
      }
      assert p == PickBlock(i, offset, AlignedIndex(offset) * blength, AlignedIndex(offset), want, same);
    }

    /** Emitting such a block at p.offset, after the literal data before it, keeps all of it. */
    lemma MatchStep(out: Output, same: seq<bool>, offset: nat, want: nat, blocks: seq<bytes>,
                    p: Pick, len: nat, mid: Output, out': Output)
      requires Setting(blocks) && |same| == |sums| && offset <= |src|
      requires AtScan(out, same, offset, want, blocks) && out.lastMatch <= p.offset
      requires p.i < |sums| && len == sums[p.i].len && p.offset + len <= |src|
      requires p.flagged ==> sums[p.i].offset == p.offset
      requires inplace && CollisionFree(blocks) && sums[p.i].offset == p.offset ==> p.flagged
      requires Usable(p.i, p.offset, same)
      requires Faithful(blocks) ==> src[p.offset..p.offset + len] == blocks[p.i]
      requires Run(offset, want, same)
        == [Placed(p.offset, p.i)] + Run(p.offset + len, p.i + 1, Flag(same, p))
      requires mid == EmitLiteral(out, src, p.offset) && out' == EmitBlock(mid, src, p.i, len)
      ensures AtScan(out', Flag(same, p), p.offset + len, p.i + 1, blocks)
    {
      hide Run, Faithful, CollisionFree;
      assert |blocks| == |sums| && |blocks[p.i]| == len;
      assert mid.lastMatch == p.offset;
      CoverLiteral(out, src, 0, p.offset, blocks);
      CoverBlock(mid, src, 0, p.i, blocks);
      var placed := Placements(out.tokens, blocks);
      PlacedStep(placed, same, p);
      AppendAssoc(placed, [Placed(p.offset, p.i)], Run(p.offset + len, p.i + 1, Flag(same, p)));
    }

    lemma PlacedStep(placed: seq<Placed>, same: seq<bool>, p: Pick)
      requires p.i < |sums| == |same|
      requires inplace ==> SafeCopies(placed, sums)
      requires FlagsPlaced(placed, same) && Usable(p.i, p.offset, same)
      requires p.flagged ==> sums[p.i].offset == p.offset
      ensures inplace ==> SafeCopies(placed + [Placed(p.offset, p.i)], sums)
      ensures FlagsPlaced(placed + [Placed(p.offset, p.i)], Flag(same, p))
      ensures PlacedFlagged(placed, same) && (sums[p.i].offset == p.offset ==> p.flagged) ==>
        PlacedFlagged(placed + [Placed(p.offset, p.i)], Flag(same, p))
    {
      if inplace {
        SafeCopiesAppend(placed, Placed(p.offset, p.i), sums);
      }
    }

    /** A position at which nothing usable fits is passed. */
    lemma PassStep(out: Output, same: seq<bool>, offset: nat, want: nat, blocks: seq<bytes>)
      requires Setting(blocks) && |same| == |sums| && offset < |src|
      requires AtScan(out, same, offset, want, blocks)
      requires forall j :: 0 <= j < |sums| && FitsAt(j, offset) ==> !Usable(j, offset, same)
      ensures AtScan(out, same, offset + 1, want, blocks)
    {
      hide FitsAt, Usable, Faithful, CollisionFree;
      var found := LastFit(|sums|, offset, same);
      assert found < 0;
    }
  }

  /** Less than one block length apart, two multiples of it are one. */
  lemma OneMultiple(blength: nat, a: nat, b: nat)
    requires a * blength < b * blength + blength && b * blength < a * blength + blength
    ensures a == b
  {
    if a > b {
      StrictlyMore(blength, b, a);
    } else if a < b {
      StrictlyMore(blength, a, b);
    }
  }

  lemma StrictlyMore(blength: nat, a: nat, b: nat)
    requires a < b
    ensures a * blength + blength <= b * blength
  {
    assert b * blength == a * blength + (b - a) * blength;
    assert (b - a) * blength == blength + (b - a - 1) * blength;
  }

  // ----- being misled

  const STRAY: bytes := [0, 1, 254, 1]
  const ZEROS: bytes := [0, 0, 0, 0]
  const SEVENS: bytes := [7, 7, 7, 7]

  /** Two windows of weak sum zero that differ, and a basis that holds both. */
  function StrayJob(): Job {
    Job([0, 0, 0, 0, 9, 0, 0, 0, 0, 1, 254, 1],
        [SumBuf(0, 4, Weak(SEVENS), SEVENS), SumBuf(4, 4, 0, ZEROS), SumBuf(8, 4, 0, ZEROS), SumBuf(12, 4, 0, STRAY)],
        4, 4, w => w, true)
  }

  function StrayBlocks(): seq<bytes> {
    [SEVENS, ZEROS, ZEROS, STRAY]
  }

  lemma WeakOfFour(a: byte, b: byte, c: byte, d: byte)
    ensures ByteSum([a, b, c, d]) == Signed(a) + Signed(b) + Signed(c) + Signed(d)
    ensures WeightedSum([a, b, c, d]) == 4 * Signed(a) + 3 * Signed(b) + 2 * Signed(c) + Signed(d)
  {
    assert ByteSum([]) == 0 && WeightedSum([]) == 0;
    SumsAppend([], a);
    SumsAppend([a], b);
    SumsAppend([a, b], c);
    SumsAppend([a, b, c], d);
    assert [] + [a] == [a] && [a] + [b] == [a, b] && [a, b] + [c] == [a, b, c] && [a, b, c] + [d] == [a, b, c, d];
  }

  lemma StraySums()
    ensures Weak(ZEROS) == 0 && Weak(STRAY) == 0
    ensures Weak(SEVENS) != 0 && Weak([9, 0, 0, 0]) != 0
  {
    WeakOfFour(0, 0, 0, 0);
    WeakOfFour(0, 1, 254, 1);
    WeakOfFour(7, 7, 7, 7);
    WeakOfFour(9, 0, 0, 0);
  }

  lemma StraySetting()
    ensures var job := StrayJob();
      job.Setting(StrayBlocks()) && job.Honest(StrayBlocks()) && job.CollisionFree(StrayBlocks())
  {
    hide Weak;
    StraySums();
    var job := StrayJob();
    forall o, i | 0 <= o < |job.src| && 0 <= i < 4 && job.SumsAgree(i, o)
      ensures StrayBlocks()[i] == job.Window(o)
    {
      assert |job.Window(o)| <= 4;
    }
  }

  const NONE: seq<bool> := [false, false, false, false]

  lemma StrayWindows()
    ensures var job := StrayJob();
      |job.src| == 12 && job.Window(0) == ZEROS && job.Window(4) == [9, 0, 0, 0] && job.Window(5) == ZEROS
      && job.Window(8) == STRAY
  {
    hide Weak;
    var src := StrayJob().src;
    assert src[0..4] == ZEROS && src[4..8] == [9, 0, 0, 0] && src[5..9] == ZEROS && src[8..12] == STRAY;
  }

  /** Zeros at the start of the file: the last of the zero blocks is taken, and the block behind it wanted. */
  lemma StrayFirst()
    ensures StrayJob().Run(0, 0, NONE) == [Placed(0, 2)] + StrayJob().Run(4, 3, NONE)
  {
    hide Weak, Job.Run, Job.Window;
    StraySums();
    StrayWindows();
    var job := StrayJob();
    assert job.PickBlock(2, 0, 0, 0, 0, NONE) == Pick(2, 0, false);
    job.PickIsNext(NONE, 0, 0, 2, 0, 0, Pick(2, 0, false));
  }

  /** Nothing fits behind them. */
  lemma StrayPass()
    ensures StrayJob().Run(4, 3, NONE) == StrayJob().Run(5, 3, NONE)
  {
    hide Weak, Job.Window, Job.PickBlock;
    StraySums();
    StrayWindows();
    var job := StrayJob();
    assert forall j :: 0 <= j < 4 ==> !job.FitsAt(j, 4);
    assert job.LastFit(4, 4, NONE) == -1;
  }

  /** At the second zeros the wanted block is taken, though they are not its bytes; nothing is left then. */
  lemma StrayLast()
    ensures StrayJob().Run(5, 3, NONE) == [Placed(5, 3)]
  {
    hide Weak, Job.Run, Job.Window;
    StraySums();
    StrayWindows();
    var job := StrayJob();
    assert ZEROS[1] != STRAY[1];
    assert job.PickBlock(2, 5, 8, 2, 3, NONE) == Pick(3, 5, false);
    job.PickIsNext(NONE, 5, 3, 2, 8, 2, Pick(3, 5, false));
    job.NoMatchesPastEnd(9, 4, NONE);
  }

  /** With a strong sum that never collides, the scan can still settle on a block whose bytes are not those of
      the source. This one wants the last block when it finds zeros five bytes into the file; the basis has
      zeros again at 8, where the file has other bytes of weak sum zero, and those are the wanted block's. */
  lemma ScanIsMisled(tokens: seq<Token>)
    requires Placements(tokens, StrayBlocks()) == StrayJob().Run(0, 0, StrayJob().NoFlags())
    ensures var job, blocks := StrayJob(), StrayBlocks();
      && job.Setting(blocks) && job.Honest(blocks) && job.CollisionFree(blocks) && job.TailApart()
      && Placements(tokens, blocks) == [Placed(0, 2), Placed(5, 3)]
      && job.src[5..9] != blocks[3] && Replay(tokens, blocks) != job.src
  {
    hide Weak, Job.Run, Job.PickBlock, Placements, Replay, Job.CollisionFree, Job.TailApart, Job.Honest;
    var job, blocks := StrayJob(), StrayBlocks();
    StraySetting();
    job.TailIsApart(blocks);
    StrayFirst();
    StrayPass();
    StrayLast();
    assert job.NoFlags() == NONE;
    PlacedBytes(tokens, blocks, 1);
    assert job.src[5..9] == ZEROS;
    assert ZEROS[1] != STRAY[1];
  }

  // ----- reaching beyond the source

  /** A strong sum of two bytes that does not see leading zeros. */
  function LastByte(w: bytes): bytes {
    [0, if w == [] then 0 else w[|w| - 1]]
  }

  /** A basis whose last block is the end of the one before it, behind a zero. */
  function ShortTail(): Job {
    Job([7, 7, 5],
        [SumBuf(0, 2, Weak([7, 7]), [0, 7]), SumBuf(2, 2, Weak([0, 5]), [0, 5]), SumBuf(4, 1, Weak([5]), [0, 5])],
        2, 2, LastByte, false)
  }

  lemma ShortSums()
    ensures Weak([0, 5]) == Weak([5]) != Weak([7, 7])
  {
    assert ByteSum([]) == 0 && WeightedSum([]) == 0;
    SumsAppend([], 5);
    SumsAppend([], 0);
    SumsAppend([0], 5);
    SumsAppend([], 7);
    SumsAppend([7], 7);
    assert [] + [5] == [5] && [] + [0] == [0] && [0] + [5] == [0, 5] && [] + [7] == [7] && [7] + [7] == [7, 7];
  }

  const UNSET: seq<bool> := [false, false, false]

  lemma ShortFirst()
    ensures ShortTail().Run(0, 0, UNSET) == [Placed(0, 0)] + ShortTail().Run(2, 1, UNSET)
  {
    hide Weak, Job.Run;
    ShortSums();
    var job := ShortTail();
    assert job.Window(0) == [7, 7];
    assert job.PickBlock(0, 0, 0, 0, 0, UNSET) == Pick(0, 0, false);
    job.PickIsNext(UNSET, 0, 0, 0, 0, 0, Pick(0, 0, false));
  }

  lemma ShortLast()
    ensures ShortTail().Run(2, 1, UNSET) == [Placed(2, 1)] && !ShortTail().TailApart()
  {
    hide Weak;
    ShortSums();
    var job := ShortTail();
    assert job.Window(2) == [5];
    assert job.FitsAt(2, 2) && job.SumsAgree(1, 2);
    assert job.LastFit(3, 2, UNSET) == 2;
    assert job.AlignedIndex(2) == 1;
    assert job.PickBlock(2, 2, 2, 1, 1, UNSET) == Pick(1, 2, false);
  }

  /** Leading zeros do not show in the weak sum. If they do not show in the strong one either, the scan takes a
      full block for the last, shorter one, and so has two bytes copied where the source has one left. */
  lemma TailOverruns()
    ensures var job, blocks := ShortTail(), [[7, 7], [0, 5], [5]];
      && job.Setting(blocks) && job.Honest(blocks) && !job.TailApart()
      && job.Run(0, 0, job.NoFlags()) == [Placed(0, 0), Placed(2, 1)] && 2 + |blocks[1]| > |job.src|
  {
    hide Weak, Job.Run, Job.TailApart;
    ShortFirst();
    ShortLast();
    assert ShortTail().NoFlags() == UNSET;
  }
}
