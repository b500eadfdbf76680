/** token.c and receiver.c: the token stream of one file, and what the receiver makes of it. */
module Tokens {
  import opened Basics

  const CHUNK_SIZE: nat := 32 * 1024

  /** Largest block length any protocol allows. */
  const OLD_MAX_BLOCK_SIZE: nat := 0x2000_0000

  /** One block of the basis file: where it is, and its weak and truncated strong sums. */
  datatype SumBuf = SumBuf(offset: nat, len: nat, sum1: nat, sum2: bytes)

  /** The blocks lie end to end from offset 0; only the last may be shorter than the block length. */
  ghost predicate Tiled(sums: seq<SumBuf>, blength: nat) {
    forall i :: 0 <= i < |sums| ==>
      && sums[i].offset == i * blength
      && 0 < sums[i].len <= blength
      && (i < |sums| - 1 ==> sums[i].len == blength)
  }

  /** One item of the uncompressed token stream. */
  datatype Token = Literal(data: bytes) | Match(block: nat) | End

  /** The bytes of every block of the basis file. */
  ghost function Blocks(sums: seq<SumBuf>, basis: bytes): (blocks: seq<bytes>)
    requires forall i :: 0 <= i < |sums| ==> sums[i].offset + sums[i].len <= |basis|
    ensures |blocks| == |sums|
    ensures forall i :: 0 <= i < |sums| ==>
      blocks[i] == basis[sums[i].offset..sums[i].offset + sums[i].len]
  {
    seq(|sums|, i requires 0 <= i < |sums| => basis[sums[i].offset..sums[i].offset + sums[i].len])
  }

  /** What one token adds to the output. */
  ghost function Piece(token: Token, blocks: seq<bytes>): bytes {
    match token
    case Literal(data) => data
    case Match(i) => if i < |blocks| then blocks[i] else []
    case End => []
  }

  /** The output of a token list: literal bytes as they are, and a block of the basis for each match. */
  ghost function Replay(tokens: seq<Token>, blocks: seq<bytes>): bytes {
    if tokens == [] then []
    else Replay(tokens[..|tokens| - 1], blocks) + Piece(tokens[|tokens| - 1], blocks)
  }

  /** A block of the basis, and the output position it was copied to. */
  datatype Placed = Placed(at: nat, block: nat)

  /** Where the matches of a token list go in the output, in order. */
  ghost function Placements(tokens: seq<Token>, blocks: seq<bytes>): seq<Placed> {
    if tokens == [] then []
    else
      var init, last := tokens[..|tokens| - 1], tokens[|tokens| - 1];
      if last.Match?
      then Placements(init, blocks) + [Placed(|Replay(init, blocks)|, last.block)]
      else Placements(init, blocks)
  }

  lemma ReplayAppend(tokens: seq<Token>, token: Token, blocks: seq<bytes>)
    ensures Replay(tokens + [token], blocks) == Replay(tokens, blocks) + Piece(token, blocks)
    ensures Placements(tokens + [token], blocks) == Placements(tokens, blocks)
      + if token.Match? then [Placed(|Replay(tokens, blocks)|, token.block)] else []
  {
    assert (tokens + [token])[..|tokens|] == tokens;
  }

  /** A placed block's bytes are in the output, at its place. */
  lemma {:induction false} PlacedBytes(tokens: seq<Token>, blocks: seq<bytes>, k: nat)
    requires k < |Placements(tokens, blocks)|
    ensures var p := Placements(tokens, blocks)[k];
      p.block < |blocks| ==>
        && p.at + |blocks[p.block]| <= |Replay(tokens, blocks)|
        && Replay(tokens, blocks)[p.at..p.at + |blocks[p.block]|] == blocks[p.block]
  {
    var init, last := tokens[..|tokens| - 1], tokens[|tokens| - 1];
    var out, piece := Replay(init, blocks), Piece(last, blocks);
    assert Replay(tokens, blocks) == out + piece;
    var p := Placements(tokens, blocks)[k];
    if k < |Placements(init, blocks)| {
      assert p == Placements(init, blocks)[k];
      PlacedBytes(init, blocks, k);
      if p.block < |blocks| {
        SliceLeft(out, piece, p.at, p.at + |blocks[p.block]|);
      }
    } else {
      assert p == Placed(|out|, last.block);
      SliceRight(out, piece, |out|, |out| + |piece|);
    }
  }

  // ----- updating the basis file in place

  /** The copy at index k reads bytes of the basis that no earlier output has overwritten: either it
      reads at or beyond its own position, or its block has been put back where it came from. */
  ghost predicate SafeCopy(placed: seq<Placed>, k: nat, sums: seq<SumBuf>)
    requires k < |placed|
  {
    && placed[k].block < |sums|
    && var offset := sums[placed[k].block].offset;
       offset >= placed[k].at || exists j :: 0 <= j < k && placed[j] == Placed(offset, placed[k].block)
  }

  ghost predicate SafeCopies(placed: seq<Placed>, sums: seq<SumBuf>) {
    forall k :: 0 <= k < |placed| ==> SafeCopy(placed, k, sums)
  }

  /** `file` with `data` written at position `at`. */
  ghost function Overwrite(file: bytes, at: nat, data: bytes): bytes
    requires at <= |file|
  {
    file[..at] + data + if at + |data| <= |file| then file[at + |data|..] else []
  }

  /** Reads a block of a file as it is now; a match copies from the file that is being overwritten. */
  ghost function CurrentPiece(token: Token, file: bytes, sums: seq<SumBuf>): bytes {
    match token
    case Literal(data) => data
    case Match(i) =>
      if i < |sums| && sums[i].offset + sums[i].len <= |file|
      then file[sums[i].offset..sums[i].offset + sums[i].len] else []
    case End => []
  }

  /** The receiver updating the basis in place: the file so far and the write position. */
  datatype Update = Update(file: bytes, at: nat)

  ghost function ReplayInPlace(tokens: seq<Token>, sums: seq<SumBuf>, basis: bytes): (u: Update)
    ensures u.at <= |u.file|
  {
    if tokens == [] then Update(basis, 0)
    else
      var u := ReplayInPlace(tokens[..|tokens| - 1], sums, basis);
      var data := CurrentPiece(tokens[|tokens| - 1], u.file, sums);
      Update(Overwrite(u.file, u.at, data), u.at + |data|)
  }

  /** What is left of a sequence from position n on. */
  ghost function From<T>(s: seq<T>, n: nat): seq<T> {
    if n <= |s| then s[n..] else []
  }

  /** The file holds the output up to the write position, and is still the basis from there on. */
  ghost predicate PartlyUpdated(u: Update, output: bytes, basis: bytes) {
    u.at == |output| && u.file == output + From(basis, u.at)
  }

  lemma OverwriteStep(u: Update, output: bytes, basis: bytes, data: bytes)
    requires PartlyUpdated(u, output, basis)
    ensures PartlyUpdated(Update(Overwrite(u.file, u.at, data), u.at + |data|), output + data, basis)
  {
    var to := u.at + |data|;
    assert u.file[..u.at] == output;
    assert From(u.file, to) == From(basis, to);
  }

  /** A safe copy finds the basis bytes of its block in the partly overwritten file. */
  lemma CopyReadsBasis(tokens: seq<Token>, block: nat, u: Update, sums: seq<SumBuf>, basis: bytes)
    requires forall i :: 0 <= i < |sums| ==> sums[i].offset + sums[i].len <= |basis|
    requires PartlyUpdated(u, Replay(tokens, Blocks(sums, basis)), basis)
    requires block < |sums|
    requires sums[block].offset >= u.at
      || Placed(sums[block].offset, block) in Placements(tokens, Blocks(sums, basis))
    ensures CurrentPiece(Match(block), u.file, sums) == Blocks(sums, basis)[block]
  {
    hide Replay, Placements, Blocks;
    var blocks := Blocks(sums, basis);
    var output := Replay(tokens, blocks);
    var from, to := sums[block].offset, sums[block].offset + sums[block].len;
    if from < u.at {
      var k :| 0 <= k < |Placements(tokens, blocks)|
        && Placements(tokens, blocks)[k] == Placed(from, block);
      PlacedBytes(tokens, blocks, k);
      assert u.file[from..to] == output[from..to];
    } else {
      SliceRight(output, basis[u.at..], from, to);
      SliceSlice(basis, u.at, from, to);
    }
  }

  lemma SafeCopiesAppend(placed: seq<Placed>, last: Placed, sums: seq<SumBuf>)
    requires SafeCopies(placed, sums) && last.block < |sums|
    requires sums[last.block].offset >= last.at || Placed(sums[last.block].offset, last.block) in placed
    ensures SafeCopies(placed + [last], sums)
  {
    forall k | 0 <= k < |placed + [last]|
      ensures SafeCopy(placed + [last], k, sums)
    {
      if k < |placed| {
        assert SafeCopy(placed, k, sums);
        if sums[placed[k].block].offset < placed[k].at {
          var j :| 0 <= j < k && placed[j] == Placed(sums[placed[k].block].offset, placed[k].block);
          assert (placed + [last])[j] == placed[j];
        }
      } else if sums[last.block].offset < last.at {
        var j :| 0 <= j < |placed| && placed[j] == Placed(sums[last.block].offset, last.block);
        assert (placed + [last])[j] == placed[j];
      }
    }
  }

  lemma SafeCopiesPrefix(placed: seq<Placed>, last: Placed, sums: seq<SumBuf>)
    requires SafeCopies(placed + [last], sums)
    ensures SafeCopies(placed, sums)
    ensures last.block < |sums| && (sums[last.block].offset >= last.at
      || Placed(sums[last.block].offset, last.block) in placed)
  {
    forall k | 0 <= k < |placed|
      ensures SafeCopy(placed, k, sums)
    {
      assert SafeCopy(placed + [last], k, sums);
    }
    assert SafeCopy(placed + [last], |placed|, sums);
  }

  /** With safe copies only, a file overwritten in place becomes exactly what replaying against an
      untouched basis gives; beyond the write position it is still the basis. */
  lemma {:induction false} InPlaceEqualsUntouched(tokens: seq<Token>, sums: seq<SumBuf>, basis: bytes)
    requires forall i :: 0 <= i < |sums| ==> sums[i].offset + sums[i].len <= |basis|
    requires SafeCopies(Placements(tokens, Blocks(sums, basis)), sums)
    ensures PartlyUpdated(ReplayInPlace(tokens, sums, basis), Replay(tokens, Blocks(sums, basis)), basis)
  {
    if tokens != [] {
      var blocks := Blocks(sums, basis);
      var init, last := tokens[..|tokens| - 1], tokens[|tokens| - 1];
      if last.Match? {
        SafeCopiesPrefix(Placements(init, blocks), Placed(|Replay(init, blocks)|, last.block), sums);
      }
      InPlaceEqualsUntouched(init, sums, basis);
      var u := ReplayInPlace(init, sums, basis);
      if last.Match? {
        CopyReadsBasis(init, last.block, u, sums, basis);
      }
      OverwriteStep(u, Replay(init, blocks), basis, CurrentPiece(last, u.file, sums));
    }
  }

  // ----- literal data in chunks

  /** Literal data as `simple_send_token` cuts it up. */
  function Chunks(data: bytes): (tokens: seq<Token>)
    decreases |data|
  {
    if data == [] then []
    else
      var n := Min(CHUNK_SIZE, |data|);
      [Literal(data[..n])] + Chunks(data[n..])
  }

  /** Every piece but the last is of the full size, and none is empty. */
  lemma {:induction false} ChunksAre(data: bytes)
    ensures forall k :: 0 <= k < |Chunks(data)| ==>
      && Chunks(data)[k].Literal? && 0 < |Chunks(data)[k].data| <= CHUNK_SIZE
      && (k < |Chunks(data)| - 1 ==> |Chunks(data)[k].data| == CHUNK_SIZE)
    decreases |data|
  {
    if data != [] {
      var n := Min(CHUNK_SIZE, |data|);
      ChunksAre(data[n..]);
      var rest := Chunks(data[n..]);
      assert Chunks(data) == [Literal(data[..n])] + rest;
      forall k | 0 < k < |Chunks(data)| ensures Chunks(data)[k] == rest[k - 1] { }
    }
  }

  lemma {:induction false} ReplayChunks(tokens: seq<Token>, data: bytes, blocks: seq<bytes>)
    ensures Replay(tokens + Chunks(data), blocks) == Replay(tokens, blocks) + data
    ensures Placements(tokens + Chunks(data), blocks) == Placements(tokens, blocks)
    decreases |data|
  {
    if data == [] {
      assert tokens + Chunks(data) == tokens;
    } else {
      var n := Min(CHUNK_SIZE, |data|);
      var first, rest := Literal(data[..n]), Chunks(data[n..]);
      calc {
        Replay(tokens + Chunks(data), blocks);
        { AppendAssoc(tokens, [first], rest); }
        Replay(tokens + [first] + rest, blocks);
        { ReplayChunks(tokens + [first], data[n..], blocks); }
        Replay(tokens + [first], blocks) + data[n..];
        { ReplayAppend(tokens, first, blocks); }
        Replay(tokens, blocks) + data[..n] + data[n..];
        { AppendAssoc(Replay(tokens, blocks), data[..n], data[n..]); assert data[..n] + data[n..] == data; }
        Replay(tokens, blocks) + data;
      }
      calc {
        Placements(tokens + Chunks(data), blocks);
        { AppendAssoc(tokens, [first], rest); }
        Placements(tokens + [first] + rest, blocks);
        { ReplayChunks(tokens + [first], data[n..], blocks); }
        Placements(tokens + [first], blocks);
        { ReplayAppend(tokens, first, blocks); }
        Placements(tokens, blocks);
      }
    }
  }

  /** No end token yet. */
  ghost predicate Open(tokens: seq<Token>) {
    forall k :: 0 <= k < |tokens| ==> tokens[k] != End
  }

  lemma {:induction false} ChunksOpen(data: bytes)
    ensures Open(Chunks(data))
    decreases |data|
  {
    if data != [] {
      ChunksOpen(data[Min(CHUNK_SIZE, |data|)..]);
    }
  }

  // ----- what the sender has emitted so far

  /** The sender's output: the end of the last match, the tokens, the bytes fed to the whole-file sum,
      and the counts of literal and matched bytes. */
  datatype Output = Output(lastMatch: nat, tokens: seq<Token>, summed: bytes, literal: nat, matched: nat)

  /** Sends the source up to `to` as literal data. */
  function EmitLiteral(out: Output, src: bytes, to: nat): Output
    requires out.lastMatch <= to <= |src|
  {
    Output(to, out.tokens + Chunks(src[out.lastMatch..to]), out.summed + src[out.lastMatch..to],
           out.literal + (to - out.lastMatch), out.matched)
  }

  /** Sends a match token for block i, which stands for the `len` source bytes that come next. */
  function EmitBlock(out: Output, src: bytes, i: nat, len: nat): Output
    requires out.lastMatch + len <= |src|
  {
    var to := out.lastMatch + len;
    Output(to, out.tokens + [Match(i)], out.summed + src[out.lastMatch..to], out.literal, out.matched + len)
  }

  /** Tokens and whole-file sum cover the source from `start` to the last match, once each, and every
      byte is counted as either literal or matched. */
  ghost predicate Covers(out: Output, src: bytes, start: nat, blocks: seq<bytes>) {
    && start <= out.lastMatch <= |src|
    && Open(out.tokens)
    && |Replay(out.tokens, blocks)| == out.lastMatch - start == out.literal + out.matched
    && out.summed == src[start..out.lastMatch]
  }

  /** The tokens moreover replay to that very stretch of the source. */
  ghost predicate Exact(out: Output, src: bytes, start: nat, blocks: seq<bytes>) {
    start <= out.lastMatch <= |src| && Replay(out.tokens, blocks) == src[start..out.lastMatch]
  }

  lemma CoverLiteral(out: Output, src: bytes, start: nat, to: nat, blocks: seq<bytes>)
    requires Covers(out, src, start, blocks) && out.lastMatch <= to <= |src|
    ensures Covers(EmitLiteral(out, src, to), src, start, blocks)
    ensures Exact(out, src, start, blocks) ==> Exact(EmitLiteral(out, src, to), src, start, blocks)
    ensures Placements(EmitLiteral(out, src, to).tokens, blocks) == Placements(out.tokens, blocks)
  {
    ReplayChunks(out.tokens, src[out.lastMatch..to], blocks);
    ChunksOpen(src[out.lastMatch..to]);
    SplitSlice(src, start, out.lastMatch, to);
  }

  lemma CoverBlock(out: Output, src: bytes, start: nat, i: nat, blocks: seq<bytes>)
    requires Covers(out, src, start, blocks)
    requires i < |blocks| && out.lastMatch + |blocks[i]| <= |src|
    ensures Covers(EmitBlock(out, src, i, |blocks[i]|), src, start, blocks)
    ensures Exact(out, src, start, blocks) && src[out.lastMatch..out.lastMatch + |blocks[i]|] == blocks[i] ==>
      Exact(EmitBlock(out, src, i, |blocks[i]|), src, start, blocks)
    ensures Placements(EmitBlock(out, src, i, |blocks[i]|).tokens, blocks)
         == Placements(out.tokens, blocks) + [Placed(out.lastMatch - start, i)]
  {
    ReplayAppend(out.tokens, Match(i), blocks);
    SplitSlice(src, start, out.lastMatch, out.lastMatch + |blocks[i]|);
  }
}
