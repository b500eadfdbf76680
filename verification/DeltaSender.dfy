/** match.c: the sender's scan of the source file and the tokens it emits. */
module DeltaSender {
  import opened Basics
  import opened Checksum
  import opened Tokens
  import opened DeltaJob
  import opened HashIndex

  const INT32_MAX: int := 0x7fff_ffff

  /** The sender's state for one file: what has been emitted, and how much of it was literal. */
  class Sender {
    const job: Job
    const src: bytes := job.src
    const index: Index
    ghost const blocks: seq<bytes>

    var lastMatch: nat
    var tokens: seq<Token>
    var summed: bytes
    var dataTransfer: nat
    var matchedData: nat

    constructor (job: Job, index: Index, ghost blocks: seq<bytes>)
      ensures this.job == job && this.index == index && this.blocks == blocks
      ensures Out() == Output(0, [], [], 0, 0)
    {
      this.job, this.index, this.blocks := job, index, blocks;
      lastMatch, tokens, summed, dataTransfer, matchedData := 0, [], [], 0, 0;
    }

    /** The output so far, as a value. */
    ghost function Out(): Output
      reads this
    {
      Output(lastMatch, tokens, summed, dataTransfer, matchedData)
    }

    // ----- emitting tokens

    /** Feeds the source from the last match up to `end` to the whole-file sum, chunk by chunk. */
    method FeedSum(end: nat)
      requires lastMatch <= end <= |src|
      modifies this`summed
      ensures summed == old(summed) + src[lastMatch..end]
    {
      var j := lastMatch;
      while j < end
        invariant lastMatch <= j <= end
        invariant summed == old(summed) + src[lastMatch..j]
      {
        var next := j + Min(CHUNK_SIZE, end - j);
        AppendTwoSlices(old(summed), src, lastMatch, j, next);
        summed := summed + src[j..next];
        j := next;
      }
    }

    /** The literal tokens for `data`, at most CHUNK_SIZE bytes each. */
    method SendLiteral(data: bytes)
      modifies this`tokens
      ensures tokens == old(tokens) + Chunks(data)
    {
      var len := 0;
      assert data[0..] == data;
      while len < |data|
        invariant 0 <= len <= |data|
        invariant tokens + Chunks(data[len..]) == old(tokens) + Chunks(data)
      {
        var n1 := Min(CHUNK_SIZE, |data| - len);
        var token, rest := Literal(data[len..len + n1]), data[len + n1..];
        assert data[len..][..n1] == token.data && data[len..][n1..] == rest;
        AppendAssoc(tokens, [token], Chunks(rest));
        tokens := tokens + [token];
        len := len + n1;
      }
      assert tokens + Chunks(data[len..]) == tokens;
    }

    /** `matched` without a match token: sends the source up to `offset` as literal data. */
    method MatchedLiteral(offset: nat)
      requires lastMatch <= offset <= |src|
      requires offset - lastMatch <= INT32_MAX
      modifies this
      ensures Out() == EmitLiteral(old(Out()), src, offset)
    {
      SendLiteral(src[lastMatch..offset]);
      dataTransfer := dataTransfer + (offset - lastMatch);
      FeedSum(offset);
      lastMatch := offset;
    }

    /** `matched` with block i found at `offset`: the literal data before it, then the match token; the
        source bytes of both are fed to the whole-file sum in one go. */
    method MatchedBlock(offset: nat, i: nat)
      requires lastMatch <= offset && i < |job.sums|
      requires offset + job.sums[i].len <= |src|
      requires offset - lastMatch + job.sums[i].len <= INT32_MAX
      modifies this
      ensures Out() == EmitBlock(EmitLiteral(old(Out()), src, offset), src, i, job.sums[i].len)
    {
      var to := offset + job.sums[i].len;
      ghost var before := Out();
      hide Chunks;
      SendLiteral(src[lastMatch..offset]);
      tokens := tokens + [Match(i)];
      dataTransfer := dataTransfer + (offset - lastMatch);
      matchedData := matchedData + job.sums[i].len;
      FeedSum(to);
      AppendTwoSlices(before.summed, src, lastMatch, offset, to);
      lastMatch := to;
    }

    // ----- the scan

    /** The sender and its index belong to the same job, with blocks to look for in a non-empty file. */
    ghost predicate Linked()
      reads index
    {
      && index.job == job && src != [] && job.sums != []
      && index.sameOffset.Length == |job.sums|
      && job.Setting(blocks) && job.TailApart()
    }

    /** What holds whenever the scan is about to look at position `offset`. */
    ghost predicate AtScan(offset: nat, want: nat)
      reads this, index, index.table, index.chain, index.sameOffset
    {
      && Linked() && offset <= |src|
      && index.Valid(job.inplace, offset)
      && job.AtScan(Out(), index.sameOffset[..], offset, want, blocks)
    }

    /** The first block start of the basis at or after `offset`. */
    method Align(offset: nat, alignedOffset: nat, alignedI: nat) returns (ao: nat, ai: nat)
      requires job.blength > 0
      requires alignedOffset == alignedI * job.blength < offset + job.blength
      ensures ao == ai * job.blength && offset <= ao < offset + job.blength
    {
      ao, ai := alignedOffset, alignedI;
      while ao < offset
        invariant ao == ai * job.blength < offset + job.blength
        decreases offset - ao
      {
        assert (ai + 1) * job.blength == ai * job.blength + job.blength;
        ao, ai := ao + job.blength, ai + 1;
      }
    }

    /** The index stays good for a later position, if only blocks not yet passed were flagged. */
    lemma IndexLater(later: nat, dead: set<nat>)
      requires index.job == job && index.Shape()
      requires Threaded(index.table[..], index.chain[..], index.Slots(), |job.sums|, dead)
      requires dead <= index.Dead(job.inplace, later)
      ensures index.Valid(job.inplace, later)
    {
      ThreadedLater(index.table[..], index.chain[..], index.Slots(), dead, index.Dead(job.inplace, later));
    }

    /** Flags the picked block if it lies at its own offset, and emits it. */
    method EmitPick(p: Pick, ghost offset: nat, ghost want: nat)
      requires AtScan(offset, want) && offset <= p.offset && lastMatch <= p.offset
      requires p.i < |job.sums| && p.offset + job.sums[p.i].len <= |src|
      requires p.flagged ==> job.sums[p.i].offset == p.offset
      requires job.inplace && job.CollisionFree(blocks) && job.sums[p.i].offset == p.offset ==> p.flagged
      requires job.Usable(p.i, p.offset, index.sameOffset[..])
      requires job.Faithful(blocks) ==> src[p.offset..p.offset + job.sums[p.i].len] == blocks[p.i]
      requires job.Run(offset, want, index.sameOffset[..]) == [Placed(p.offset, p.i)]
        + job.Run(p.offset + job.sums[p.i].len, p.i + 1, job.Flag(index.sameOffset[..], p))
      requires p.offset - lastMatch + job.sums[p.i].len <= INT32_MAX
      modifies this, index.sameOffset
      ensures AtScan(lastMatch, p.i + 1) && lastMatch == p.offset + job.sums[p.i].len
    {
      hide Threaded, Job.Run, Job.TailApart, Job.AtScan, Job.Usable, Job.Faithful, Job.CollisionFree, Tiled;
      ghost var dead := index.Dead(job.inplace, offset);
      ghost var same' := job.Flag(index.sameOffset[..], p);
      ghost var len := job.sums[p.i].len;
      ghost var mid := EmitLiteral(Out(), src, p.offset);
      job.MatchStep(Out(), index.sameOffset[..], offset, want, blocks, p, len, mid,
                    EmitBlock(mid, src, p.i, len));
      if p.flagged {
        index.sameOffset[p.i] := true;
      }
      assert index.sameOffset[..] == same';
      MatchedBlock(p.offset, p.i);
      IndexLater(lastMatch, dead);
    }

    /** A block has been found at `offset`: settles on the block to emit and emits it. */
    method TakeMatch(i: nat, offset: nat, want: nat, alignedOffset: nat, alignedI: nat)
      returns (ao: nat, ai: nat, want': nat)
      requires AtScan(offset, want) && lastMatch <= offset < |src|
      requires i < |job.sums| && job.FitsAt(i, offset) && i !in index.Dead(job.inplace, offset)
      requires index.NoneAbove(i, offset, index.Dead(job.inplace, offset))
      requires alignedOffset == alignedI * job.blength < offset + job.blength
      requires offset - lastMatch + 2 * job.blength <= INT32_MAX
      modifies this, index.sameOffset
      ensures AtScan(lastMatch, want') && offset < lastMatch
      ensures ao == ai * job.blength < lastMatch + job.blength
    {
      hide Threaded, Job.Run, Job.TailApart, Job.Faithful, Job.CollisionFree, Job.PickBlock, Job.AtScan;
      ao, ai := alignedOffset, alignedI;
      if job.inplace {
        ao, ai := Align(offset, alignedOffset, alignedI);
      }
      var p := job.PickBlock(i, offset, ao, ai, want, index.sameOffset[..]);
      assert forall j :: 0 <= j < |job.sums| ==>
        (j in index.Dead(job.inplace, offset) <==> !job.Usable(j, offset, index.sameOffset[..]));
      job.PickFacts(index.sameOffset[..], offset, want, blocks, i, ao, ai, p);
      EmitPick(p, offset, want);
      want' := p.i + 1;
    }

    /** How far the output may lag behind the scan: bounded well within 32 bits. */
    ghost predicate SmallGap(offset: nat)
      requires job.sums != []
      reads this
    {
      var end := job.EndOfScan();
      || offset - lastMatch <= job.blength + CHUNK_SIZE
      || (0 <= end - offset <= CHUNK_SIZE
          && offset - lastMatch <= job.blength + 2 * CHUNK_SIZE + 1 - (end - offset))
    }

    /** Nothing usable fits at `offset`: moves the scan past it. */
    lemma PassPosition(offset: nat, want: nat)
      requires AtScan(offset, want) && offset < |src|
      requires index.NoneAbove(-1, offset, index.Dead(job.inplace, offset))
      ensures AtScan(offset + 1, want)
    {
      hide Threaded, Job.AtScan, Job.TailApart;
      assert forall j :: 0 <= j < |job.sums| ==>
        (j in index.Dead(job.inplace, offset) <==> !job.Usable(j, offset, index.sameOffset[..]));
      job.PassStep(Out(), index.sameOffset[..], offset, want, blocks);
      IndexLater(offset + 1, index.Dead(job.inplace, offset));
    }

    /** Sends literal data early, so that it need not be read three times. */
    method FlushEarly(to: nat, offset: nat, want: nat)
      requires AtScan(offset, want) && lastMatch <= to <= |src| && to - lastMatch <= INT32_MAX
      modifies this
      ensures AtScan(offset, want) && lastMatch == to
    {
      hide Threaded, Job.AtScan, Job.TailApart;
      job.LiteralStep(Out(), index.sameOffset[..], offset, want, to, blocks);
      MatchedLiteral(to);
    }

    /** The running sums of the window at the next position. */
    method NextSums(offset: nat, k: nat, s1: nat, s2: nat) returns (k': nat, t1: nat, t2: nat)
      requires offset < |src| && job.blength > 0
      requires k == |job.Window(offset)| && RunningSums(s1, s2, job.Window(offset))
      ensures k' == |job.Window(offset + 1)| && RunningSums(t1, t2, job.Window(offset + 1))
    {
      hide RunningSums;
      var more := offset + k < |src|;
      var w := job.Window(offset);
      if more {
        assert job.Window(offset + 1) == w[1..] + [src[offset + k]];
        t1, t2 := Roll(s1, s2, w, Some(src[offset + k]));
        k' := k;
      } else {
        assert job.Window(offset + 1) == w[1..];
        t1, t2 := Roll(s1, s2, w, None);
        k' := k - 1;
      }
    }

    /** Running sums of a window, from scratch. */
    method FreshSums(offset: nat) returns (k: nat, s1: nat, s2: nat)
      requires offset <= |src|
      ensures k == |job.Window(offset)| && RunningSums(s1, s2, job.Window(offset))
    {
      k := Min(job.blength, |src| - offset);
      var sum := GetChecksum1(job.Window(offset));
      s1, s2 := sum % TWO_TO_THE_16, sum / TWO_TO_THE_16;
      SplitWeak(job.Window(offset));
    }

    /** All that the scan keeps between positions. */
    ghost predicate Scanning(offset: nat, k: nat, s1: nat, s2: nat, want: nat, ao: nat, ai: nat)
      reads this, index, index.table, index.chain, index.sameOffset
    {
      && AtScan(offset, want) && lastMatch <= offset
      && k == |job.Window(offset)| && RunningSums(s1, s2, job.Window(offset))
      && ao == ai * job.blength < offset + job.blength
      && SmallGap(offset)
    }

    /** One round of the scan: looks the window at `offset` up, emits a match if there is one, rolls the
        sums on to the next position, and flushes literal data that has piled up. */
    method ScanOne(offset: nat, k: nat, s1: nat, s2: nat, want: nat, ao: nat, ai: nat)
      returns (offset': nat, k': nat, s1': nat, s2': nat, want': nat, ao': nat, ai': nat)
      requires Scanning(offset, k, s1, s2, want, ao, ai) && offset < |src|
      requires offset < job.EndOfScan() || offset == lastMatch
      modifies this, index.table, index.chain, index.sameOffset
      ensures Scanning(offset', k', s1', s2', want', ao', ai') && offset < offset'
    {
      hide Threaded, Job.AtScan, RunningSums, Job.FitsAt, Job.TailApart, Tiled;
      k', s1', s2', want', ao', ai' := k, s1, s2, want, ao, ai;
      var cur := offset;
      var i := index.Lookup(s1, s2, offset);
      if i >= 0 {
        ao', ai', want' := TakeMatch(i, offset, want, ao, ai);
        cur := lastMatch - 1;
        k', s1', s2' := FreshSums(cur);
      } else {
        PassPosition(offset, want);
      }
      var backup := Max(0, cur - lastMatch);
      k', s1', s2' := NextSums(cur, k', s1', s2');
      if backup >= job.blength + CHUNK_SIZE && job.EndOfScan() - cur > CHUNK_SIZE {
        FlushEarly(cur - job.blength, cur + 1, want');
      }
      offset' := cur + 1;
    }

    /** Scans the whole source for blocks of the basis, greedily, and emits the tokens that rebuild it. Whatever
        collides, every source byte is summed and counted once, the matches are exactly those of trying every
        block at every position, and in place every copy is safe. */
    method HashSearch()
      requires Linked() && index.Valid(job.inplace, 0)
      requires Out() == Output(0, [], [], 0, 0)
      requires forall i :: 0 <= i < |job.sums| ==> !index.sameOffset[i]
      modifies this, index.table, index.chain, index.sameOffset
      ensures summed == src
      ensures dataTransfer + matchedData == |src| == |Replay(tokens, blocks)|
      ensures Placements(tokens, blocks) == job.Run(0, 0, job.NoFlags())
      ensures job.inplace ==> SafeCopies(Placements(tokens, blocks), job.sums)
      ensures job.FlagsPlaced(Placements(tokens, blocks), index.sameOffset[..])
      ensures job.inplace && job.CollisionFree(blocks) ==>
        job.PlacedFlagged(Placements(tokens, blocks), index.sameOffset[..])
      ensures job.Faithful(blocks) ==> Replay(tokens, blocks) == src
      ensures tokens != [] && tokens[|tokens| - 1] == End && Open(tokens[..|tokens| - 1])
    {
      hide Threaded, RunningSums, Job.TailApart, Job.Faithful, Job.CollisionFree, Job.Run;
      assert index.sameOffset[..] == job.NoFlags();
      var k, s1, s2 := FreshSums(0);
      var offset, ao, ai, want := 0, 0, 0, 0;
      var end := job.EndOfScan();
      while true
        invariant Scanning(offset, k, s1, s2, want, ao, ai) && offset < |src|
        invariant offset < end || offset == lastMatch
        decreases |src| - offset
      {
        offset, k, s1, s2, want, ao, ai := ScanOne(offset, k, s1, s2, want, ao, ai);
        if offset >= end {
          break;
        }
      }
      job.NoMatchesPastEnd(offset, want, index.sameOffset[..]);
      Finish(offset, want);
    }

    /** The closing `matched` call: the rest of the source as literal data, then the end token. */
    method Finish(ghost offset: nat, ghost want: nat)
      requires AtScan(offset, want) && |src| - lastMatch <= INT32_MAX
      modifies this
      ensures summed == src
      ensures dataTransfer + matchedData == |src| == |Replay(tokens, blocks)|
      ensures Placements(tokens, blocks) + job.Run(offset, want, index.sameOffset[..])
        == job.Run(0, 0, job.NoFlags())
      ensures job.inplace ==> SafeCopies(Placements(tokens, blocks), job.sums)
      ensures job.FlagsPlaced(Placements(tokens, blocks), index.sameOffset[..])
      ensures job.inplace && job.CollisionFree(blocks) ==>
        job.PlacedFlagged(Placements(tokens, blocks), index.sameOffset[..])
      ensures job.Faithful(blocks) ==> Replay(tokens, blocks) == src
      ensures tokens != [] && tokens[|tokens| - 1] == End && Open(tokens[..|tokens| - 1])
    {
      hide Threaded, Job.TailApart, Job.Faithful, Job.CollisionFree, Job.Run;
      job.LiteralStep(Out(), index.sameOffset[..], offset, want, |src|, blocks);
      MatchedLiteral(|src|);
      ReplayAppend(tokens, End, blocks);
      assert src[0..|src|] == src;
      tokens := tokens + [End];
      assert tokens[..|tokens| - 1] == old(Out().tokens) + Chunks(src[old(lastMatch)..|src|]);
    }

    // ----- the whole file

    /** Without blocks to look for: the rest of the source in chunks, then the end token. */
    method LiteralPieces()
      requires lastMatch <= |src| && Open(tokens)
      modifies this
      ensures lastMatch == |src|
      ensures summed == old(summed) + src[old(lastMatch)..]
      ensures dataTransfer == old(dataTransfer) + (|src| - old(lastMatch)) && matchedData == old(matchedData)
      ensures Replay(tokens, blocks) == old(Replay(tokens, blocks)) + src[old(lastMatch)..]
      ensures Placements(tokens, blocks) == old(Placements(tokens, blocks))
      ensures tokens != [] && tokens[|tokens| - 1] == End && Open(tokens[..|tokens| - 1])
    {
      hide Replay, Placements, Chunks;
      ghost var from := lastMatch;
      var j := lastMatch + CHUNK_SIZE;
      assert src[from..lastMatch] == [];
      while j < |src|
        invariant from <= lastMatch <= |src| && j == lastMatch + CHUNK_SIZE
        invariant LiteralSoFar(old(Out()), from)
      {
        LiteralMore(old(Out()), from, j);
        MatchedLiteral(j);
        j := j + CHUNK_SIZE;
      }
      LiteralMore(old(Out()), from, |src|);
      MatchedLiteral(|src|);
      assert src[from..|src|] == src[from..];
      ReplayAppend(tokens, End, blocks);
      ghost var body := tokens;
      tokens := tokens + [End];
      assert tokens[..|tokens| - 1] == body;
    }

    /** Since `before`, just the source from `from` on has been sent, as literal data. */
    ghost predicate LiteralSoFar(before: Output, from: nat)
      reads this
    {
      && from <= lastMatch <= |src| && Open(tokens)
      && summed == before.summed + src[from..lastMatch]
      && dataTransfer == before.literal + (lastMatch - from) && matchedData == before.matched
      && Replay(tokens, blocks) == Replay(before.tokens, blocks) + src[from..lastMatch]
      && Placements(tokens, blocks) == Placements(before.tokens, blocks)
    }

    lemma LiteralMore(before: Output, from: nat, to: nat)
      requires LiteralSoFar(before, from) && lastMatch <= to <= |src|
      ensures var out := EmitLiteral(Out(), src, to);
        && Open(out.tokens)
        && out.summed == before.summed + src[from..to]
        && Replay(out.tokens, blocks) == Replay(before.tokens, blocks) + src[from..to]
        && Placements(out.tokens, blocks) == Placements(before.tokens, blocks)
    {
      var data := src[lastMatch..to];
      ReplayChunks(tokens, data, blocks);
      ChunksOpen(data);
      SplitSlice(src, from, lastMatch, to);
      AppendAssoc(before.summed, src[from..lastMatch], data);
      AppendAssoc(Replay(before.tokens, blocks), src[from..lastMatch], data);
    }

    /** In append mode 2, the part of the file that both sides have is fed to the sum as well. */
    method SumPrefix(flength: nat)
      requires flength <= |src| && lastMatch == 0 && summed == []
      modifies this`summed, this`lastMatch
      ensures summed == src[..flength]
    {
      var j := CHUNK_SIZE;
      while j < flength
        invariant lastMatch <= flength && j == lastMatch + CHUNK_SIZE
        invariant summed == src[0..lastMatch]
      {
        SplitSlice(src, 0, lastMatch, j);
        FeedSum(lastMatch + CHUNK_SIZE);
        lastMatch := j;
        j := j + CHUNK_SIZE;
      }
      if lastMatch < flength {
        SplitSlice(src, 0, lastMatch, flength);
        FeedSum(flength);
      }
    }

    /** Before anything is sent, and with nothing to send or to match. */
    lemma NothingSent()
      requires job.Setting(blocks)
      ensures Replay([], blocks) == [] && Placements([], blocks) == [] && SafeCopies([], job.sums)
      ensures src == [] || job.sums == [] ==> job.Run(0, 0, job.NoFlags()) == []
    {
      if job.sums == [] {
        job.NoBlocks(0, 0, job.NoFlags());
      }
    }

    /** Sends one file. In append mode the receiver already has the first `flength` bytes, and the tokens
        rebuild the rest; otherwise they rebuild the whole source from the blocks of the basis. */
    method MatchSums(appendMode: int, flength: nat)
      requires index.job == job && index.Shape() && job.Setting(blocks)
      requires appendMode <= 0 ==> job.TailApart()
      requires Out() == Output(0, [], [], 0, 0)
      requires forall i :: 0 <= i < |job.sums| ==> !index.sameOffset[i]
      requires appendMode > 0 ==> flength <= |src|
      modifies this, index, index.chain, index.sameOffset
      ensures var start := if appendMode > 0 then flength else 0;
        && (appendMode > 0 || job.Faithful(blocks) ==> Replay(tokens, blocks) == src[start..])
        && dataTransfer + matchedData == |src| - start == |Replay(tokens, blocks)|
        && summed == (if appendMode == 2 then src else src[start..])
      ensures appendMode > 0 ==> Placements(tokens, blocks) == [] && matchedData == 0
      ensures appendMode <= 0 ==> Placements(tokens, blocks) == job.Run(0, 0, job.NoFlags())
      ensures job.inplace ==> SafeCopies(Placements(tokens, blocks), job.sums)
      ensures tokens != [] && tokens[|tokens| - 1] == End && Open(tokens[..|tokens| - 1])
    {
      hide Job.TailApart, Job.Faithful, Tiled, Job.Run, Replay, Placements, SafeCopies;
      NothingSent();
      var count := |job.sums|;
      if appendMode > 0 {
        if appendMode == 2 {
          SumPrefix(flength);
        }
        lastMatch := flength;
        count := 0;
        assert src[..flength] + src[flength..] == src;
      }
      if |src| > 0 && count > 0 {
        index.BuildHashTable();
        HashSearch();
        assert src[0..] == src;
      } else {
        LiteralPieces();
      }
    }
  }
}
