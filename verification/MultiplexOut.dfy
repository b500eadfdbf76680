/** io.c: the sending end of a multiplexed connection. Data and messages wait in two circular buffers and
    go out through one descriptor. */
module MultiplexOut {
  import opened Basics
  import opened Frames
  import opened Ring

  // ----- the output buffer: what is left of the frame being sent, room for the next header, raw data

  /** The state of the output buffer. `frame` is what is left to be sent of the frame in progress; behind
      it are four places for the next header, and then the raw data that wait for it. The buffer may be
      overfull by the header, but only while no data wait. */
  ghost predicate OutOk(buf: bytes, x: XBuf, ends: nat, hdr: nat, frame: bytes, pending: bytes) {
    && |buf| % 256 == 0 && 256 <= |buf| < MAX_PAYLOAD
    && |buf| - 4 < x.size <= |buf| && x.pos < x.size
    && x.len == |frame| + 4 + |pending|
    && |frame| <= x.size && (x.len <= x.size || pending == [])
    && hdr == At(x, |frame|) && hdr + 4 <= x.size
    && (x.size < |buf| ==> x.pos + |frame| == x.size)
    && ends == (if frame == [] then 0 else x.pos + |frame|)
    && Shows(buf, x, 0, frame) && Shows(buf, x, |frame| + 4, pending)
    && (frame == [] && pending == [] ==> x.pos == 0)
  }

  /** Room for the header of the next frame, behind the bytes of this one. If it does not fit at the end
      of the buffer, the buffer is cut short and the header goes to the start. */
  function Reserve(x: XBuf): (XBuf, int) {
    var end := x.pos + x.len;
    if end >= x.size then (x.(len := x.len + 4), end - x.size)
    else if end + 4 > x.size then (XBuf(x.pos, x.len + 4, end), 0)
    else (x.(len := x.len + 4), end)
  }

  /** With the header filled in, header and data follow each other. */
  lemma HeaderShows(buf: bytes, buf': bytes, x: XBuf, hdr: nat, pending: bytes, h: bytes)
    requires x.pos < x.size <= |buf| && hdr == x.pos && hdr + 4 <= x.size && 4 + |pending| <= x.size && |h| == 4
    requires Shows(buf, x, 4, pending)
    requires |buf'| == |buf| && buf'[hdr..hdr + 4] == h
    requires forall k :: 0 <= k < |buf| && !(hdr <= k < hdr + 4) ==> buf'[k] == buf[k]
    ensures Shows(buf', x, 0, h + pending)
  {
    assert SameOutside(buf, buf', x, 0, 4);
    StoredShows(buf, buf', x, 4, pending, 0, 4);
    assert Shows(buf', x, 0, h) by {
      forall i | 0 <= i < 4
        ensures At(x, i) == hdr + i && buf'[hdr + i] == h[i]
      {
        assert buf'[hdr + i] == buf'[hdr..hdr + 4][i];
      }
    }
    ShowsJoin(buf', x, 0, h, pending);
  }

  /** The waiting data become a frame once the header is filled in. */
  lemma StartFrameOk(buf: bytes, buf': bytes, x: XBuf, hdr: nat, pending: bytes, h: bytes)
    requires OutOk(buf, x, 0, hdr, [], pending) && pending != [] && |h| == 4
    requires |buf'| == |buf| && buf'[hdr..hdr + 4] == h
    requires forall k :: 0 <= k < |buf| && !(hdr <= k < hdr + 4) ==> buf'[k] == buf[k]
    ensures Reserve(x).1 >= 0
    ensures OutOk(buf', Reserve(x).0, x.pos + x.len, Reserve(x).1, h + pending, [])
  {
    hide Shows;
    HeaderShows(buf, buf', x, hdr, pending, h);
    var frame := h + pending;
    if x.pos + x.len < x.size && x.pos + x.len + 4 > x.size {
      ReducedShows(buf', x, x.pos + x.len, frame);
    }
    LenIsFree(buf', Reserve(x).0.(len := x.len), x.len + 4, 0, frame);
    ShowsNone(buf', Reserve(x).0, |frame| + 4);
  }

  lemma ShowsNone(buf: bytes, x: XBuf, off: nat)
    ensures Shows(buf, x, off, [])
  {
  }

  /** Where the buffer stands when n bytes of the frame have been sent. */
  function Flushed(x: XBuf, n: nat): XBuf
    requires n <= x.len
  {
    var y := Taken(x, n);
    if y.len == 4 then XBuf(0, 4, Restore(y.size)) else y
  }

  /** Where the frame ends as seen from there, 0 if it has been sent. */
  function EndsAfter(x: XBuf, ends: nat, n: nat): int {
    if x.pos + n == x.size then ends - x.size else if x.pos + n == ends then 0 else ends
  }

  /** How the output buffer goes on while no new frame is started: the data wait, a buffer that was cut short gets
      its size back when the frame is out, and starts at the front again. */
  ghost predicate Continues(x: XBuf, frame: bytes, pending: bytes, x': XBuf, frame': bytes, pending': bytes,
                            full: nat)
  {
    && pending' == pending && |frame'| <= |frame|
    && (frame == [] ==> x' == x)
    && (frame' != [] ==> x'.size == x.size)
    && (frame' == [] && x.size < full ==> x'.pos == 0)
  }

  lemma TakeOutOk(buf: bytes, x: XBuf, ends: nat, hdr: nat, frame: bytes, pending: bytes, n: nat)
    requires OutOk(buf, x, ends, hdr, frame, pending)
    requires 0 < n <= |frame| && x.pos + n <= x.size
    ensures EndsAfter(x, ends, n) >= 0
    ensures x.size == |buf| ==> Flushed(x, n).size == |buf|
    ensures |buf| - 4 < Flushed(x, n).size
    ensures Continues(x, frame, pending, Flushed(x, n), frame[n..], pending, |buf|)
    ensures OutOk(buf, Flushed(x, n), EndsAfter(x, ends, n), if Flushed(x, n).len == 4 then 0 else hdr,
                  frame[n..], pending)
  {
    RestoreIs(x.size, |buf|);
    RestoreIs(|buf|, |buf|);
    var y := Taken(x, n);
    ShowsPart(buf, x, 0, frame, n);
    TakenShows(buf, x, n, n, frame[n..]);
    if pending != [] {
      TakenShows(buf, x, n, |frame| + 4, pending);
    }
    assert y.len == 4 <==> frame[n..] == [] && pending == [];
  }

  /** Data are stored behind everything else. */
  lemma AppendOk(buf: bytes, buf': bytes, x: XBuf, ends: nat, hdr: nat, frame: bytes, pending: bytes,
                 data: bytes)
    requires OutOk(buf, x, ends, hdr, frame, pending) && x.len + |data| <= x.size
    requires SameOutside(buf, buf', x, x.len, |data|) && Shows(buf', x, x.len, data)
    ensures OutOk(buf', x.(len := x.len + |data|), ends, hdr, frame, pending + data)
  {
    var y := x.(len := x.len + |data|);
    StoredShows(buf, buf', x, 0, frame, x.len, |data|);
    StoredShows(buf, buf', x, |frame| + 4, pending, x.len, |data|);
    ShowsJoin(buf', x, |frame| + 4, pending, data);
    LenIsFree(buf', x, y.len, 0, frame);
    LenIsFree(buf', x, y.len, |frame| + 4, pending + data);
  }

  // ----- the message buffer

  ghost predicate MsgOk(buf: bytes, x: XBuf, queued: bytes) {
    && |buf| % 256 == 0 && 256 <= |buf| < MAX_PAYLOAD
    && |buf| - 4 < x.size <= |buf| && x.pos < x.size
    && x.len == |queued| <= x.size
    && Shows(buf, x, 0, queued)
    && (queued == [] ==> x.pos == 0 && x.size == |buf|)
    && (x.size < |buf| ==> x.pos + x.len >= x.size + 4)
  }

  function Drained(x: XBuf, n: nat): XBuf
    requires n <= x.len
  {
    var y := Taken(x, n);
    if y.len == 0 then XBuf(0, 0, Restore(y.size)) else y
  }

  lemma TakeMsgOk(buf: bytes, x: XBuf, queued: bytes, n: nat)
    requires MsgOk(buf, x, queued) && 0 < n <= |queued| && x.pos + n <= x.size
    ensures MsgOk(buf, Drained(x, n), queued[n..])
    ensures Drained(x, n).size == x.size || Drained(x, n).size == |buf|
  {
    RestoreIs(x.size, |buf|);
    RestoreIs(|buf|, |buf|);
    ShowsPart(buf, x, 0, queued, n);
    TakenShows(buf, x, n, n, queued[n..]);
  }

  /** Where a message goes: its header stays in one piece, if need be at the start of the buffer. */
  function MsgPlace(x: XBuf): (XBuf, int) {
    var pos := x.pos + x.len;
    if pos >= x.size then (x, pos - x.size)
    else if pos + 4 > x.size then (x.(size := pos), 0)
    else (x, pos)
  }

  lemma MsgPlaceOk(buf: bytes, x: XBuf, queued: bytes, n: nat)
    requires MsgOk(buf, x, queued) && x.len + n + 4 + 3 <= x.size
    ensures var (y, at) := MsgPlace(x);
      && at == At(y, x.len) && 0 <= at && at + 4 <= y.size && y.len == x.len && y.pos == x.pos < y.size
      && x.len + 4 + n <= y.size <= x.size && |buf| - 4 < y.size
      && (y.size < |buf| ==> y.pos + y.len >= y.size)
      && Shows(buf, y, 0, queued)
  {
    var pos := x.pos + x.len;
    if pos < x.size && pos + 4 > x.size {
      ReducedShows(buf, x, pos, queued);
    }
  }

  lemma MsgStoredOk(buf: bytes, buf': bytes, x: XBuf, y: XBuf, queued: bytes, m: bytes)
    requires MsgOk(buf, x, queued) && x.len + |m| + 3 <= x.size && 4 <= |m| && y == MsgPlace(x).0
    requires SameOutside(buf, buf', y, x.len, |m|) && Shows(buf', y, x.len, m)
    ensures MsgOk(buf', y.(len := x.len + |m|), queued + m)
  {
    MsgPlaceOk(buf, x, queued, |m| - 4);
    StoredShows(buf, buf', y, 0, queued, x.len, |m|);
    ShowsJoin(buf', y, 0, queued, m);
    LenIsFree(buf', y, x.len + |m|, 0, queued + m);
  }

  /** Header and payload of a message, stored one after the other, are the message. */
  lemma MsgBytes(b0: bytes, b1: bytes, b2: bytes, y: XBuf, off: nat, at: nat, h: bytes, payload: bytes)
    requires y.pos < y.size <= |b0| && at == At(y, off) && at + 4 <= y.size && |h| == 4
    requires off + 4 + |payload| <= y.size
    requires SameOutside(b0, b1, y, off + 4, |payload|) && Shows(b1, y, off + 4, payload)
    requires |b2| == |b1| && (forall k :: at <= k < at + 4 ==> b2[k] == h[k - at])
    requires forall k :: 0 <= k < |b1| && !(at <= k < at + 4) ==> b2[k] == b1[k]
    ensures SameOutside(b0, b2, y, off, |h + payload|) && Shows(b2, y, off, h + payload)
  {
    forall i | off <= i < off + 4
      ensures At(y, i) == at + (i - off)
    {
    }
    assert SameOutside(b1, b2, y, off, 4);
    StoredShows(b1, b2, y, off + 4, payload, off, 4);
    ShowsJoin(b2, y, off, h, payload);
  }

  // ----- the connection

  datatype Need = OutRoom | MsgRoom

  /** What has been sent and what is committed make up whole frames; the data handed over are those in
      frames and those that wait; the messages handed over are those in frames. */
  ghost predicate Committed(sent: bytes, frame: bytes, queued: bytes, frames: seq<Frame>, pending: bytes,
                            dataIn: bytes, msgsIn: seq<Frame>)
  {
    && sent + frame + queued == EncodeAll(frames)
    && DataOf(frames) + pending == dataIn
    && MessagesOf(frames) == msgsIn
    && AllSendable(frames)
  }

  lemma CommitFrame(sent: bytes, frames: seq<Frame>, pending: bytes, dataIn: bytes, msgsIn: seq<Frame>)
    requires Committed(sent, [], [], frames, pending, dataIn, msgsIn) && |pending| < MAX_PAYLOAD
    ensures Committed(sent, Header(MSG_DATA, |pending|) + pending, [], frames + [Frame(MSG_DATA, pending)], [],
                      dataIn, msgsIn)
  {
    hide EncodeAll, DataOf, MessagesOf;
    var f := Frame(MSG_DATA, pending);
    FramesAppend(frames, f);
    assert sent + [] + [] == sent;
    assert sent + Encode(f) + [] == sent + Encode(f);
    assert dataIn + [] == dataIn && msgsIn + [] == msgsIn;
  }

  lemma CommitMsg(sent: bytes, frame: bytes, queued: bytes, frames: seq<Frame>, pending: bytes, dataIn: bytes,
                  msgsIn: seq<Frame>, f: Frame)
    requires Committed(sent, frame, queued, frames, pending, dataIn, msgsIn)
    requires Sendable(f) && (f.code == MSG_DATA ==> f.payload == [])
    ensures Committed(sent, frame, queued + Encode(f), frames + [f], pending, dataIn,
                      if f.code == MSG_DATA then msgsIn else msgsIn + [f])
  {
    hide EncodeAll, DataOf, MessagesOf, Encode;
    FramesAppend(frames, f);
    AppendAssoc(sent + frame, queued, Encode(f));
    assert msgsIn + [] == msgsIn;
    assert DataOf(frames) + [] == DataOf(frames);
  }

  lemma CommitData(sent: bytes, frame: bytes, queued: bytes, frames: seq<Frame>, pending: bytes, dataIn: bytes,
                   msgsIn: seq<Frame>, data: bytes)
    requires Committed(sent, frame, queued, frames, pending, dataIn, msgsIn)
    ensures Committed(sent, frame, queued, frames, pending + data, dataIn + data, msgsIn)
  {
    hide EncodeAll, DataOf, MessagesOf;
    AppendAssoc(DataOf(frames), pending, data);
  }

  lemma CommitSent(sent: bytes, frame: bytes, queued: bytes, frames: seq<Frame>, pending: bytes, dataIn: bytes,
                   msgsIn: seq<Frame>, n: nat)
    requires Committed(sent, frame, queued, frames, pending, dataIn, msgsIn)
    ensures n <= |frame| ==> Committed(sent + frame[..n], frame[n..], queued, frames, pending, dataIn, msgsIn)
    ensures frame == [] && n <= |queued| ==>
      Committed(sent + queued[..n], [], queued[n..], frames, pending, dataIn, msgsIn)
  {
    hide EncodeAll, DataOf, MessagesOf;
    if n <= |frame| {
      assert frame == frame[..n] + frame[n..];
      assert sent + frame[..n] + frame[n..] == sent + frame;
    }
    if frame == [] && n <= |queued| {
      assert queued == queued[..n] + queued[n..];
      assert sent + queued[..n] + [] + queued[n..] == sent + [] + queued;
    }
  }

  /** What messages that come in call for always finds room once the message buffer is empty. */
  ghost predicate IncomingFit(incoming: seq<Option<Frame>>, size: nat) {
    forall i :: 0 <= i < |incoming| && incoming[i].Some? ==>
      && incoming[i].value.code <= MAX_CODE && incoming[i].value.code != MSG_DATA
      && |incoming[i].value.payload| + 7 <= size - 3
  }

  function Reply(message: Option<Frame>): seq<Frame> {
    if message.Some? then [message.value] else []
  }

  /** The messages handed over since then are `own`, and what those call for that have come in. */
  ghost predicate Handed(msgs: seq<Frame>, incoming: seq<Option<Frame>>, msgs': seq<Frame>,
                         incoming': seq<Option<Frame>>, own: seq<Frame>)
  {
    && msgs <= msgs' && |incoming'| <= |incoming|
    && multiset(msgs') + multiset(Concat(Reply, incoming'))
      == multiset(msgs) + multiset(Concat(Reply, incoming)) + multiset(own)
  }

  lemma HandedTrans(m0: seq<Frame>, a0: seq<Option<Frame>>, m1: seq<Frame>, a1: seq<Option<Frame>>,
                    m2: seq<Frame>, a2: seq<Option<Frame>>, own: seq<Frame>)
    requires Handed(m0, a0, m1, a1, []) && Handed(m1, a1, m2, a2, own)
    ensures Handed(m0, a0, m2, a2, own)
  {
    assert m0 <= m2;
  }

  lemma HandedFewer(msgs: seq<Frame>, incoming: seq<Option<Frame>>, msgs': seq<Frame>,
                    incoming': seq<Option<Frame>>, own: seq<Frame>)
    requires Handed(msgs, incoming, msgs', incoming', own)
    ensures |incoming'| <= |incoming|
  {
  }

  lemma FirstFits(incoming: seq<Option<Frame>>, size: nat)
    requires IncomingFit(incoming, size) && incoming != []
    ensures IncomingFit(incoming[1..], size)
    ensures incoming[0].Some? ==> var f := incoming[0].value;
      f.code <= MAX_CODE && f.code != MSG_DATA && |f.payload| + 7 <= size - 3
  {
  }

  lemma HandedOwn(msgs: seq<Frame>, incoming: seq<Option<Frame>>, f: Frame)
    ensures Handed(msgs, incoming, msgs + [f], incoming, [f])
  {
  }

  /** What a message calls for has been handed over when it has. */
  lemma HandedReply(msgs: seq<Frame>, incoming: seq<Option<Frame>>, msgs': seq<Frame>,
                    incoming': seq<Option<Frame>>)
    requires incoming != [] && Handed(msgs, incoming[1..], msgs', incoming', Reply(incoming[0]))
    ensures Handed(msgs, incoming, msgs', incoming', [])
  {
    assert multiset(Concat(Reply, incoming))
      == multiset(Reply(incoming[0])) + multiset(Concat(Reply, incoming[1..]));
  }

  lemma ContinuesTrans(x0: XBuf, f0: bytes, p0: bytes, x1: XBuf, f1: bytes, p1: bytes, x2: XBuf, f2: bytes,
                       p2: bytes, full: nat)
    requires Continues(x0, f0, p0, x1, f1, p1, full) && Continues(x1, f1, p1, x2, f2, p2, full)
    ensures Continues(x0, f0, p0, x2, f2, p2, full)
  {
  }

  lemma ContinuesHere(x: XBuf, f: bytes, p: bytes, full: nat)
    requires x.size < full ==> f != []
    ensures Continues(x, f, p, x, f, p, full)
  {
  }

  /** How it goes on while room is needed: data that leave too little of it are made a frame. A frame that leaves
      no room for a header behind it cuts the buffer short where it ends. */
  ghost predicate Course(x0: XBuf, f0: bytes, p0: bytes, needed: int, x: XBuf, f: bytes, p: bytes, full: nat) {
    || Continues(x0, f0, p0, x, f, p, full)
    || (p0 != [] && p == [] && 4 + |p0| + needed > full
        && (x0.size < full || (f0 == [] && x0.pos == 0) ==> |p0| + 8 > full && f != [] ==> x.size == 4 + |p0|))
  }

  lemma CourseTrans(x0: XBuf, f0: bytes, p0: bytes, needed: int, x1: XBuf, f1: bytes, p1: bytes, x2: XBuf,
                    f2: bytes, p2: bytes, full: nat)
    requires Course(x0, f0, p0, needed, x1, f1, p1, full) && Course(x1, f1, p1, needed, x2, f2, p2, full)
    ensures Course(x0, f0, p0, needed, x2, f2, p2, full)
  {
  }

  lemma CourseContinues(x: XBuf, f: bytes, p: bytes, needed: int, x': XBuf, f': bytes, p': bytes, full: nat)
    requires Continues(x, f, p, x', f', p', full)
    ensures Course(x, f, p, needed, x', f', p', full) && p' == p
  {
  }

  lemma CourseStarts(x: XBuf, p: bytes, needed: int, f': bytes, full: nat)
    requires p != [] && x.size == full && x.len == 4 + |p| <= x.size && x.len + needed > x.size
    ensures Course(x, [], p, needed, Reserve(x).0, f', [], full)
  {
  }

  class Writer {
    const outBuf: array<byte>
    const msgBuf: array<byte>
    var out: XBuf
    var msg: XBuf
    var rawDataHeaderPos: nat
    var rawFlushingEndsBefore: nat

    /** All bytes that have been written to the descriptor. */
    ghost var sent: bytes
    /** The frames that have been sent, are being sent, or stand in the message buffer. */
    ghost var frames: seq<Frame>
    /** What the two buffers hold. */
    ghost var frame: bytes
    ghost var pending: bytes
    ghost var queued: bytes
    /** All data and all messages that have been handed over. */
    ghost var dataIn: bytes
    ghost var msgsIn: seq<Frame>
    /** The messages that will yet come in while something is being written, and what each one calls for. */
    var incoming: seq<Option<Frame>>

    ghost predicate Valid()
      reads this, outBuf, msgBuf
    {
      && outBuf != msgBuf
      && OutOk(outBuf[..], out, rawFlushingEndsBefore, rawDataHeaderPos, frame, pending)
      && MsgOk(msgBuf[..], msg, queued)
      && Committed(sent, frame, queued, frames, pending, dataIn, msgsIn)
      && IncomingFit(incoming, msgBuf.Length)
    }

    /** Empty buffers, and multiplexing just started: room is reserved for the first header. */
    constructor (outSize: nat, msgSize: nat, incoming: seq<Option<Frame>>)
      requires outSize % 256 == 0 && 256 <= outSize < MAX_PAYLOAD
      requires msgSize % 256 == 0 && 256 <= msgSize < MAX_PAYLOAD && IncomingFit(incoming, msgSize)
      ensures Valid() && fresh(outBuf) && fresh(msgBuf)
      ensures outBuf.Length == outSize && msgBuf.Length == msgSize
      ensures sent == [] && dataIn == [] && msgsIn == [] && this.incoming == incoming
      ensures out == XBuf(0, 4, outSize) && msg == XBuf(0, 0, msgSize)
      ensures frame == [] && pending == [] && queued == []
    {
      outBuf := new byte[outSize];
      msgBuf := new byte[msgSize];
      out := XBuf(0, 4, outSize);
      msg := XBuf(0, 0, msgSize);
      rawDataHeaderPos, rawFlushingEndsBefore := 0, 0;
      sent, frames, frame, pending, queued, dataIn, msgsIn := [], [], [], [], [], [], [];
      this.incoming := incoming;
    }

    /** What is still to be sent, counting the headers that will be needed. */
    ghost function Work(): nat
      reads this
    {
      |frame| + |queued| + 5 * |pending|
    }

    /** Fills in the header: the waiting data are a frame now. Reserves room for the next header. */
    method StartFrame()
      requires Valid() && frame == [] && queued == [] && pending != []
      modifies this, outBuf
      ensures Valid() && frame != [] && queued == [] && pending == []
      ensures sent == old(sent) && dataIn == old(dataIn) && msgsIn == old(msgsIn) && msg == old(msg)
      ensures incoming == old(incoming)
      ensures out == old(Reserve(out).0) && |frame| == 4 + |old(pending)|
    {
      hide OutOk, MsgOk, Committed, Reserve, Shows, IncomingFit;
      ghost var b := outBuf[..];
      OutFacts(b, out, rawFlushingEndsBefore, rawDataHeaderPos, frame, pending);
      var end := out.pos + out.len;
      var h := Header(MSG_DATA, out.len - 4);
      CopyRun(outBuf, rawDataHeaderPos, h);
      StartFrameOk(b, outBuf[..], out, rawDataHeaderPos, pending, h);
      CommitFrame(sent, frames, pending, dataIn, msgsIn);
      ReserveIs(out);
      rawFlushingEndsBefore := end;
      if end >= out.size {
        rawDataHeaderPos := end - out.size;
      } else if end + 4 > out.size {
        out := out.(size := end);
        rawDataHeaderPos := 0;
      } else {
        rawDataHeaderPos := end;
      }
      out := out.(len := out.len + 4);
      frames := frames + [Frame(MSG_DATA, pending)];
      frame, pending := h + pending, [];
    }

    /** How much of the frame in progress can be written in one go: up to its end, or that of the buffer. */
    function Writable(): int
      reads this
    {
      if rawFlushingEndsBefore > out.size then out.size - out.pos else rawFlushingEndsBefore - out.pos
    }

    /** Writes n bytes of the frame in progress. */
    method WriteSome(n: nat)
      requires Valid() && frame != [] && 0 < n <= Writable()
      modifies this
      ensures Valid() && n <= |old(frame)| && frame == old(frame)[n..] && pending == old(pending)
      ensures old(sent) < sent && dataIn == old(dataIn) && msgsIn == old(msgsIn)
      ensures msg == old(msg) && queued == old(queued)
      ensures out == Flushed(old(out), n) && incoming == old(incoming)
      ensures Continues(old(out), old(frame), pending, out, frame, pending, outBuf.Length)
      ensures outBuf.Length - 4 < out.size
    {
      hide OutOk, MsgOk, Committed, Flushed, EndsAfter, Shows, Restore, IncomingFit, Continues;
      OutFacts(outBuf[..], out, rawFlushingEndsBefore, rawDataHeaderPos, frame, pending);
      ShowsRun(outBuf[..], out, frame, n);
      TakeOutOk(outBuf[..], out, rawFlushingEndsBefore, rawDataHeaderPos, frame, pending, n);
      CommitSent(sent, frame, queued, frames, pending, dataIn, msgsIn, n);
      sent := Send(sent, outBuf[out.pos..out.pos + n]);
      frame := frame[n..];
      out, rawFlushingEndsBefore, rawDataHeaderPos := Passed(out, rawFlushingEndsBefore, rawDataHeaderPos, n);
    }

    /** Writes as many bytes of the frame in progress as the descriptor takes. */
    method WriteOut()
      requires Valid() && frame != []
      modifies this
      ensures Valid() && Work() < old(Work()) && pending == old(pending) && |frame| < |old(frame)|
      ensures old(sent) < sent && dataIn == old(dataIn) && msgsIn == old(msgsIn)
      ensures msg == old(msg) && queued == old(queued) && incoming == old(incoming)
      ensures Continues(old(out), old(frame), pending, out, frame, pending, outBuf.Length)
    {
      hide OutOk, MsgOk, Committed, Flushed, IncomingFit, Continues;
      OutFacts(outBuf[..], out, rawFlushingEndsBefore, rawDataHeaderPos, frame, pending);
      var len := rawFlushingEndsBefore - out.pos;
      if out.pos + len > out.size {
        len := out.size - out.pos;
      }
      var n :| 0 < n <= len;
      WriteSome(n);
    }

    /** How much of the messages can be written in one go. */
    function WritableMsg(): int
      reads this
    {
      if msg.pos + msg.len > msg.size then msg.size - msg.pos else msg.len
    }

    /** Writes n bytes of the messages. */
    method WriteSomeMsg(n: nat)
      requires Valid() && frame == [] && queued != [] && 0 < n <= WritableMsg()
      modifies this
      ensures Valid() && pending == old(pending) && frame == [] && n <= |old(queued)| && queued == old(queued)[n..]
      ensures old(sent) < sent && dataIn == old(dataIn) && msgsIn == old(msgsIn)
      ensures out == old(out) && msg == Drained(old(msg), n) && incoming == old(incoming)
      ensures msg.size == old(msg.size) || msg.size == msgBuf.Length
    {
      hide OutOk, MsgOk, Committed, Drained, Shows, Restore, IncomingFit;
      MsgFacts(msgBuf[..], msg, queued);
      ShowsRun(msgBuf[..], msg, queued, n);
      TakeMsgOk(msgBuf[..], msg, queued, n);
      CommitSent(sent, frame, queued, frames, pending, dataIn, msgsIn, n);
      sent := Send(sent, msgBuf[msg.pos..msg.pos + n]);
      queued := queued[n..];
      msg := Drain(msg, n);
    }

    /** Writes as many bytes of the messages as the descriptor takes. */
    method WriteMsg()
      requires Valid() && frame == [] && queued != []
      modifies this
      ensures Valid() && Work() < old(Work()) && pending == old(pending) && frame == []
      ensures old(sent) < sent && dataIn == old(dataIn) && msgsIn == old(msgsIn)
      ensures out == old(out) && |queued| < |old(queued)| && incoming == old(incoming)
      ensures msg.size == old(msg.size) || msg.size == msgBuf.Length
    {
      hide OutOk, MsgOk, Committed, Drained, IncomingFit;
      MsgFacts(msgBuf[..], msg, queued);
      var len := msg.len;
      if msg.pos + len > msg.size {
        len := msg.size - msg.pos;
      }
      var n :| 0 < n <= len;
      WriteSomeMsg(n);
    }

    /** There is room for what is needed. */
    predicate Room(needed: nat, need: Need)
      reads this
    {
      match need
      case OutRoom => out.len + needed <= out.size
      case MsgRoom => msg.len + needed <= msg.size
    }

    /** What the loop of PerformIo needs to know of the buffers. */
    lemma Facts()
      requires Valid()
      ensures out.len == |frame| + 4 + |pending| && outBuf.Length - 4 < out.size <= outBuf.Length
      ensures msg.len == |queued| && msgBuf.Length - 4 < msg.size <= msgBuf.Length
      ensures rawFlushingEndsBefore == if frame == [] then 0 else out.pos + |frame|
      ensures frame == [] ==> out.size == outBuf.Length
      ensures queued == [] ==> msg.size == msgBuf.Length
      ensures 256 <= outBuf.Length < MAX_PAYLOAD && msgBuf.Length >= 256 && msgBuf.Length % 256 == 0
      ensures out.len <= out.size + 4 && (pending != [] ==> out.len <= out.size)
      ensures out.size < outBuf.Length ==> out.pos + |frame| == out.size
      ensures msg.len <= msg.size
      ensures msg.size < msgBuf.Length ==> msg.pos < msg.size && msg.pos + msg.len >= msg.size + 4
    {
    }

    /** Writes until there is room: first the rest of a frame in progress, then all messages, then the
        waiting data as a new frame. Messages that come in meanwhile are read, and may be answered. Refuses what
        can never fit. */
    method PerformIo(needed: nat, need: Need) returns (ok: bool)
      requires Valid()
      modifies this, outBuf, msgBuf
      decreases |incoming|, 1
      ensures Valid() && old(sent) <= sent && dataIn == old(dataIn)
      ensures Handed(old(msgsIn), old(incoming), msgsIn, incoming, [])
      ensures ok <==> needed <= old(if need.OutRoom? then out.size - 4 else msg.size)
      ensures ok ==> Room(needed, need)
      ensures !ok ==> out == old(out) && frame == old(frame) && pending == old(pending)
      ensures ok && !old(Room(needed, need)) ==> old(sent) < sent
      ensures old(Room(needed, need)) ==>
        && sent == old(sent) && out == old(out) && frame == old(frame) && pending == old(pending)
        && msg == old(msg) && queued == old(queued) && incoming == old(incoming)
      ensures |incoming| <= |old(incoming)|
      ensures old(incoming) == [] ==>
        && (need.MsgRoom? ==> Continues(old(out), old(frame), old(pending), out, frame, pending, outBuf.Length))
        && Course(old(out), old(frame), old(pending), needed, out, frame, pending, outBuf.Length)
        && (msg.size == old(msg.size) || msg.size == msgBuf.Length)
        && (need.OutRoom? && old(pending) != [] && pending == [] ==> queued == [])
    {
      hide Committed, OutOk, MsgOk, IncomingFit, Continues, Course, Handed, Reserve;
      Facts();
      NothingYet(needed);
      if (if need.OutRoom? then out.size - 4 else msg.size) < needed {
        return false;
      }
      while !Room(needed, need)
        invariant Valid() && old(sent) <= sent && dataIn == old(dataIn)
        invariant Handed(old(msgsIn), old(incoming), msgsIn, incoming, []) && |incoming| <= |old(incoming)|
        invariant needed <= if need.OutRoom? then outBuf.Length - 4 else msgBuf.Length
        invariant old(sent) < sent
          || (&& sent == old(sent) && out == old(out) && frame == old(frame) && pending == old(pending)
              && msg == old(msg) && queued == old(queued) && incoming == old(incoming))
        invariant old(sent) < sent ==> !old(Room(needed, need))
        invariant old(incoming) == [] ==>
          && (need.MsgRoom? ==>
                Continues(old(out), old(frame), old(pending), out, frame, pending, outBuf.Length))
          && Course(old(out), old(frame), old(pending), needed, out, frame, pending, outBuf.Length)
          && (msg.size == old(msg.size) || msg.size == msgBuf.Length)
          && (need.OutRoom? && pending != old(pending) ==> queued == [])
        decreases |incoming|, Work()
      {
        ghost var x, f, p := out, frame, pending;
        Turn(needed, need);
        if old(incoming) == [] {
          CourseTrans(old(out), old(frame), old(pending), needed, x, f, p, out, frame, pending, outBuf.Length);
          if need.MsgRoom? {
            ContinuesTrans(old(out), old(frame), old(pending), x, f, p, out, frame, pending, outBuf.Length);
          }
        }
        ghost var m, a := msgsIn, incoming;
        TakeIncoming();
        HandedTrans(old(msgsIn), old(incoming), m, a, msgsIn, incoming, []);
      }
      ok := true;
    }

    lemma NothingYet(needed: int)
      requires Valid()
      ensures Continues(out, frame, pending, out, frame, pending, outBuf.Length)
      ensures Course(out, frame, pending, needed, out, frame, pending, outBuf.Length)
      ensures Handed(msgsIn, incoming, msgsIn, incoming, [])
    {
    }

    /** One turn of that loop: what is written first. */
    method Turn(needed: nat, need: Need)
      requires Valid() && !Room(needed, need)
      requires needed <= if need.OutRoom? then outBuf.Length - 4 else msgBuf.Length
      modifies this, outBuf
      ensures Valid() && old(sent) < sent && dataIn == old(dataIn) && msgsIn == old(msgsIn)
      ensures incoming == old(incoming) && Work() < old(Work())
      ensures msg.size == old(msg.size) || msg.size == msgBuf.Length
      ensures need.MsgRoom? ==> Continues(old(out), old(frame), old(pending), out, frame, pending, outBuf.Length)
      ensures Course(old(out), old(frame), old(pending), needed, out, frame, pending, outBuf.Length)
      ensures pending != old(pending) || old(queued) == [] ==> queued == []
    {
      hide Committed, OutOk, MsgOk, IncomingFit, Continues, Course, Reserve;
      Facts();
      NothingYet(needed);
      if rawFlushingEndsBefore != 0 || (msg.len == 0 && out.len > 4 && need.OutRoom?) {
        ghost var x, p := out, pending;
        if rawFlushingEndsBefore == 0 {
          StartFrame();
          CourseStarts(x, p, needed, frame, outBuf.Length);
        }
        ghost var y, g, q := out, frame, pending;
        WriteOut();
        CourseContinues(y, g, q, needed, out, frame, pending, outBuf.Length);
        CourseTrans(old(out), old(frame), old(pending), needed, y, g, q, out, frame, pending, outBuf.Length);
      } else {
        WriteMsg();
      }
    }

    /** Then messages that have come in are read, any number of them: more may be written while the rest of one is
        awaited, and what it calls for is sent. */
    method TakeIncoming()
      requires Valid()
      modifies this, outBuf, msgBuf
      decreases |incoming|, 0
      ensures Valid() && old(sent) <= sent && dataIn == old(dataIn)
      ensures Handed(old(msgsIn), old(incoming), msgsIn, incoming, [])
      ensures |incoming| < |old(incoming)| || (|incoming| == |old(incoming)| && Work() == old(Work()))
      ensures old(incoming) == [] ==>
        && msg == old(msg) && queued == old(queued) && sent == old(sent)
        && out == old(out) && frame == old(frame) && pending == old(pending)
    {
      hide Committed, OutOk, MsgOk, IncomingFit, Continues, Handed;
      NothingYet(0);
      var more: bool := *;
      while more && incoming != []
        invariant Valid() && old(sent) <= sent && dataIn == old(dataIn)
        invariant Handed(old(msgsIn), old(incoming), msgsIn, incoming, []) && |incoming| <= |old(incoming)|
        invariant |incoming| == |old(incoming)| ==>
          && msg == old(msg) && queued == old(queued) && sent == old(sent)
          && out == old(out) && frame == old(frame) && pending == old(pending)
        decreases |incoming|
      {
        ghost var m, a := msgsIn, incoming;
        var message := incoming[0];
        FirstFits(incoming, msgBuf.Length);
        incoming := incoming[1..];
        var turns: nat := *;
        AwaitInput(turns);
        Facts();
        NothingYet(0);
        if message.Some? {
          var ok := SendMsg(message.value.code, message.value.payload);
        }
        HandedReply(m, a, msgsIn, incoming);
        HandedTrans(old(msgsIn), old(incoming), m, a, msgsIn, incoming, []);
        HandedFewer(m, a[1..], msgsIn, incoming, Reply(message));
        more := *;
      }
    }

    /** What is written while input is awaited, in any number of turns: the same, whenever the descriptor is
        ready. A frame is started even if it is not. */
    method AwaitInput(turns: nat)
      requires Valid()
      modifies this, outBuf
      ensures Valid() && old(sent) <= sent && dataIn == old(dataIn) && msgsIn == old(msgsIn)
      ensures incoming == old(incoming)
    {
      hide Committed, OutOk, MsgOk, Reserve, IncomingFit, Continues;
      var i := 0;
      while i < turns
        invariant Valid() && old(sent) <= sent && dataIn == old(dataIn) && msgsIn == old(msgsIn)
        invariant incoming == old(incoming)
      {
        Facts();
        var ready: bool := *;
        if rawFlushingEndsBefore != 0 || (msg.len == 0 && out.len > 4) {
          if rawFlushingEndsBefore == 0 {
            StartFrame();
          }
          if ready {
            WriteOut();
          }
        } else if msg.len != 0 && ready {
          WriteMsg();
        }
        i := i + 1;
      }
    }

    /** Hands over raw data; refused exactly if they are more than the buffer could ever take at the size it has
        now, which may be cut short. */
    method WriteBuf(data: bytes) returns (ok: bool)
      requires Valid()
      modifies this, outBuf, msgBuf
      ensures Valid() && old(sent) <= sent
      ensures Handed(old(msgsIn), old(incoming), msgsIn, incoming, [])
      ensures dataIn == if ok then old(dataIn) + data else old(dataIn)
      ensures ok <==> |data| + 4 <= old(out.size)
      ensures old(out.len + |data| <= out.size) ==>
        && out == old(out).(len := old(out.len) + |data|) && pending == old(pending) + data
        && sent == old(sent) && frame == old(frame) && msg == old(msg) && queued == old(queued)
        && rawFlushingEndsBefore == old(rawFlushingEndsBefore) && incoming == old(incoming)
    {
      hide Committed, OutOk, MsgOk, Shows, SameOutside, IncomingFit, Handed, Continues, Course;
      Facts();
      NothingYet(0);
      if out.len + |data| > out.size {
        ok := PerformIo(|data|, OutRoom);
        if !ok {
          return;
        }
        Facts();
      }
      StoreData(data);
      ok := true;
    }

    /** Stores data for which there is room. */
    method StoreData(data: bytes)
      requires Valid() && out.len + |data| <= out.size
      modifies this`out, this`pending, this`dataIn, outBuf
      ensures Valid() && dataIn == old(dataIn) + data
      ensures out == old(out).(len := old(out.len) + |data|) && pending == old(pending) + data
    {
      hide Committed, OutOk, MsgOk, Shows, SameOutside, IncomingFit;
      Facts();
      ghost var b := outBuf[..];
      OutFacts(b, out, rawFlushingEndsBefore, rawDataHeaderPos, frame, pending);
      CopyIn(outBuf, out, out.len, data);
      AppendOk(b, outBuf[..], out, rawFlushingEndsBefore, rawDataHeaderPos, frame, pending, data);
      CommitData(sent, frame, queued, frames, pending, dataIn, msgsIn, data);
      out := out.(len := out.len + |data|);
      pending, dataIn := pending + data, dataIn + data;
    }

    /** Hands over a message; refused exactly if it is more than the message buffer could ever take at the size it
        has now. Messages that come in while it waits for room may be answered before it. */
    method SendMsg(code: nat, payload: bytes) returns (ok: bool)
      requires Valid() && code <= MAX_CODE && (code == MSG_DATA ==> payload == [])
      modifies this, outBuf, msgBuf
      decreases |incoming|, 2
      ensures Valid() && old(sent) <= sent && dataIn == old(dataIn)
      ensures ok <==> |payload| + 7 <= old(msg.size)
      ensures Handed(old(msgsIn), old(incoming), msgsIn, incoming,
                     if ok && code != MSG_DATA then [Frame(code, payload)] else [])
      ensures ok && code != MSG_DATA ==> msgsIn != [] && msgsIn[|msgsIn| - 1] == Frame(code, payload)
      ensures old(msg.len + |payload| + 7 <= msg.size) ==>
        && msg == old(MsgPlace(msg).0.(len := msg.len + 4 + |payload|))
        && queued == old(queued) + Encode(Frame(code, payload))
        && sent == old(sent) && out == old(out) && frame == old(frame) && pending == old(pending)
        && incoming == old(incoming)
    {
      hide Committed, OutOk, MsgOk, Shows, SameOutside, MsgPlace, IncomingFit, Continues, Course, Handed, Encode;
      Facts();
      NothingYet(0);
      var needed := |payload| + 4 + 3;
      if msg.len + needed > msg.size {
        ok := PerformIo(needed, MsgRoom);
        if !ok {
          return;
        }
        Facts();
      }
      ghost var m, a := msgsIn, incoming;
      StoreMsg(code, payload);
      if code != MSG_DATA {
        HandedOwn(m, a, Frame(code, payload));
        HandedTrans(old(msgsIn), old(incoming), m, a, msgsIn, incoming, [Frame(code, payload)]);
      }
      ok := true;
    }

    /** Stores a message for which there is room. */
    method StoreMsg(code: nat, payload: bytes)
      requires Valid() && code <= MAX_CODE && (code == MSG_DATA ==> payload == [])
      requires msg.len + |payload| + 4 + 3 <= msg.size
      modifies this`msg, this`queued, this`frames, this`msgsIn, msgBuf
      ensures Valid()
      ensures msgsIn == if code != MSG_DATA then old(msgsIn) + [Frame(code, payload)] else old(msgsIn)
      ensures msg == old(MsgPlace(msg).0.(len := msg.len + 4 + |payload|))
      ensures queued == old(queued) + Encode(Frame(code, payload))
    {
      hide Committed, OutOk, MsgOk, Shows, SameOutside, MsgPlace, Encode, IncomingFit;
      ghost var b0, f := msgBuf[..], Frame(code, payload);
      MsgFacts(b0, msg, queued);
      MsgPlaceOk(b0, msg, queued, |payload|);
      var x, pos := PlaceMsg(msg);
      var hdr := Header(code, |payload|);
      CopyIn(msgBuf, x, x.len + 4, payload);
      ghost var b1 := msgBuf[..];
      CopyRun(msgBuf, pos, hdr);
      StoreOk(b0, b1, msgBuf[..], msg, queued, hdr, payload, x, pos);
      CommitMsg(sent, frame, queued, frames, pending, dataIn, msgsIn, f);
      EncodeIs(f);
      msg := x.(len := x.len + 4 + |payload|);
      queued, frames := queued + (hdr + payload), frames + [f];
      if code != MSG_DATA {
        msgsIn := msgsIn + [f];
      }
    }

    /** The first half of a flush. */
    method FlushData(all: bool) returns (ok: bool)
      requires Valid()
      modifies this, outBuf, msgBuf
      ensures Valid() && old(sent) <= sent && dataIn == old(dataIn)
      ensures Handed(old(msgsIn), old(incoming), msgsIn, incoming, []) && |incoming| <= |old(incoming)|
      ensures ok <==> all || old(out.len <= out.size + 1)
      ensures ok && !all && old(out.len > 4) ==> old(sent) < sent
      ensures all && old(incoming) == [] ==>
        && (old(out.size == outBuf.Length || pending == [] || |pending| + 8 > outBuf.Length) ==>
              frame == [] && pending == [])
        && (0 < |old(pending)| <= outBuf.Length - old(out.size) ==> frame == [] && pending == old(pending))
      ensures all && old(incoming) == [] ==> |frame| + |pending| <= outBuf.Length - old(out.size)
      ensures all && old(incoming) == [] && |old(pending)| > outBuf.Length - old(out.size) ==> queued == []
      ensures old(incoming) == [] ==> msg.size == old(msg.size) || msg.size == msgBuf.Length
    {
      hide OutOk, MsgOk, Committed, SizeT, IncomingFit, Continues, Course, Handed;
      Facts();
      NothingYet(0);
      ok := true;
      if out.len > 4 {
        ok := PerformIo(if all then out.size - 4 else SizeT(out.size - out.len + 1), OutRoom);
        if ok && all && old(incoming) == [] {
          Facts();
          FullFlush(old(out), old(frame), old(pending), out, frame, pending, outBuf.Length);
        }
      }
    }

    /** The second half. */
    method FlushMessages()
      requires Valid()
      modifies this, outBuf, msgBuf
      ensures Valid() && old(sent) <= sent && dataIn == old(dataIn)
      ensures Handed(old(msgsIn), old(incoming), msgsIn, incoming, [])
      ensures old(incoming) == [] ==>
        && |frame| <= |old(frame)| && pending == old(pending)
        && |queued| <= msgBuf.Length - old(msg.size) && (old(queued) == [] ==> queued == [])
    {
      hide OutOk, MsgOk, Committed, IncomingFit, Continues, Course, Handed;
      Facts();
      NothingYet(0);
      if msg.len != 0 {
        ghost var x, f, p := out, frame, pending;
        var ok := PerformIo(msg.size, MsgRoom);
        Facts();
        if old(incoming) == [] {
          StillOut(x, f, p, out, frame, pending, outBuf.Length);
        }
      }
    }

    /** As long as no messages come in: a full flush leaves no data behind if the output buffer has its full size,
        or no data wait for a frame, or so many that their frame cuts the buffer short. Data that are no more than
        it is cut by always wait on. It leaves no message behind if the message buffer has its full size, or more
        data wait than the output buffer is cut by. See `FlushMayKeep` and `FlushMayKeepMsg` for all other states.
        A normal flush writes something if there are data. What it asks for is computed without a sign, and it is
        refused exactly if the buffer is overfull by more than a byte. */
    method IoFlush(all: bool) returns (ok: bool)
      requires Valid()
      modifies this, outBuf, msgBuf
      ensures Valid() && old(sent) <= sent && dataIn == old(dataIn)
      ensures Handed(old(msgsIn), old(incoming), msgsIn, incoming, [])
      ensures ok <==> all || old(out.len <= out.size + 1)
      ensures ok && !all && old(out.len > 4) ==> old(sent) < sent
      ensures all && old(incoming) == [] ==>
        && (old(out.size == outBuf.Length || pending == [] || |pending| + 8 > outBuf.Length) ==>
              frame == [] && pending == [])
        && (0 < |old(pending)| <= outBuf.Length - old(out.size) ==> frame == [] && pending == old(pending))
      ensures all && old(incoming) == [] ==> |frame| + |pending| <= outBuf.Length - old(out.size)
      ensures ok && old(incoming) == [] && old(msg.size) == msgBuf.Length ==> queued == []
      ensures all && old(incoming) == [] && |old(pending)| > outBuf.Length - old(out.size) ==> queued == []
      ensures ok && old(incoming) == [] ==> |queued| <= msgBuf.Length - old(msg.size)
      ensures frame == [] && pending == [] && queued == [] ==>
        sent == EncodeAll(frames) && DataOf(frames) == dataIn && MessagesOf(frames) == msgsIn
    {
      hide OutOk, MsgOk, EncodeAll, DataOf, MessagesOf, Committed, IncomingFit, Handed;
      Facts();
      ok := FlushData(all);
      ghost var m, a := msgsIn, incoming;
      if ok {
        FlushMessages();
        HandedTrans(old(msgsIn), old(incoming), m, a, msgsIn, incoming, []);
      }
      Everything(sent, frame, queued, frames, pending, dataIn, msgsIn);
    }
  }

  /** What room for all but a header means for the output buffer. */
  lemma FullFlush(x0: XBuf, f0: bytes, p0: bytes, x: XBuf, f: bytes, p: bytes, full: nat)
    requires Course(x0, f0, p0, x0.size - 4, x, f, p, full)
    requires 256 <= full < x0.size + 4 && x0.size <= full && (f0 == [] ==> x0.size == full)
    requires x0.len == |f0| + 4 + |p0|
    requires p0 != [] ==> x0.len <= x0.size
    requires x.len == |f| + 4 + |p| && x.len + (x0.size - 4) <= x.size <= full
    ensures x0.size == full || p0 == [] || |p0| + 8 > full ==> f == [] && p == []
    ensures 0 < |p0| <= full - x0.size ==> f == [] && p == p0
    ensures |f| + |p| <= full - x0.size
    ensures |p0| > full - x0.size ==> p0 != [] && p == []
  {
  }

  lemma StillOut(x: XBuf, f: bytes, p: bytes, x': XBuf, f': bytes, p': bytes, full: nat)
    requires Continues(x, f, p, x', f', p', full)
    ensures |f'| <= |f| && p' == p
  {
  }

  /** A number as a 64-bit size_t. */
  function SizeT(n: int): (r: nat)
    ensures 0 <= n < 0x1_0000_0000 ==> r == n
    ensures -0x1_0000_0000 <= n < 0 ==> r == n + 0x1_0000_0000_0000_0000
  {
    n % 0x1_0000_0000_0000_0000
  }

  /** With nothing left behind, everything has been sent. */
  lemma Everything(sent: bytes, frame: bytes, queued: bytes, frames: seq<Frame>, pending: bytes, dataIn: bytes,
                   msgsIn: seq<Frame>)
    requires Committed(sent, frame, queued, frames, pending, dataIn, msgsIn)
    ensures frame == [] && queued == [] && pending == [] ==>
      sent == EncodeAll(frames) && DataOf(frames) == dataIn && MessagesOf(frames) == msgsIn
  {
    hide EncodeAll, DataOf, MessagesOf;
    assert sent + [] + [] == sent && DataOf(frames) + [] == DataOf(frames);
  }

  /** An output buffer that is cut short by `cut`. A normal flush of an almost full buffer starts a frame, whose end
      leaves no room for a header, and ends when one byte of the frame is left; then data are stored. */
  method CutShort(size: nat, cut: nat, data: bytes, waiting: bytes) returns (w: Writer)
    requires size % 256 == 0 && 256 <= size < MAX_PAYLOAD && 0 < cut < 4
    requires |data| == size - 4 - cut && |waiting| + 5 + cut <= size
    ensures fresh(w) && fresh(w.outBuf) && fresh(w.msgBuf) && w.Valid() && w.dataIn == data + waiting
    ensures w.outBuf.Length == size && w.out.size == size - cut && w.pending == waiting
    ensures w.incoming == [] && w.queued == []
  {
    hide OutOk, MsgOk, Committed, SizeT, IncomingFit, Continues, Handed;
    NothingComes(256);
    w := new Writer(size, 256, []);
    var ok := w.WriteBuf(data);
    assert [] + data == data;
    var asked := SizeT(w.out.size - w.out.len + 1);
    assert asked == cut + 1 && !w.Room(asked, OutRoom);
    w.StartFrame();
    w.Facts();
    w.WriteSome(size - cut - 1);
    assert w.Room(asked, OutRoom);
    ok := w.WriteBuf(waiting);
    assert [] + waiting == waiting;
  }

  lemma NothingComes(size: nat)
    ensures IncomingFit([], size)
  {
  }

  /** A run in which a full flush keeps up to three bytes of data: as many as the buffer is cut by. */
  method FullFlushKeeps(size: nat, cut: nat, data: bytes, waiting: bytes) returns (w: Writer)
    requires size % 256 == 0 && 256 <= size < MAX_PAYLOAD && 0 < |waiting| <= cut < 4
    requires |data| == size - 4 - cut
    ensures fresh(w) && w.Valid() && w.dataIn == data + waiting && w.pending == waiting
  {
    hide OutOk, MsgOk, Committed, IncomingFit, Continues, Handed;
    w := CutShort(size, cut, data, waiting);
    var ok := w.IoFlush(true);
  }

  /** From any state in which neither is certain, a full flush can keep any number of bytes up to those the buffer is
      cut by, if the descriptor takes all but these of the last frame. */
  method FlushMayKeep(w: Writer, keep: nat)
    requires w.Valid() && 0 < keep <= w.outBuf.Length - w.out.size < |w.pending| <= w.outBuf.Length - 8
    modifies w, w.outBuf
    ensures w.Valid() && w.dataIn == old(w.dataIn) && w.msgsIn == old(w.msgsIn)
    ensures |w.frame| == keep && w.pending == [] && w.queued == []
  {
    hide OutOk, MsgOk, Committed, IncomingFit, Continues, Reserve;
    w.Facts();
    var asked := w.out.size - 4;
    ghost var p := w.pending;
    assert !w.Room(asked, OutRoom);
    w.WriteSome(w.out.size - w.out.pos);
    w.Facts();
    AtFront(old(w.out), old(w.frame), p, w.out, w.frame, p, w.outBuf.Length);
    while w.msg.len != 0
      invariant w.Valid() && w.frame == [] && w.pending == p && w.out.pos == 0
      invariant w.dataIn == old(w.dataIn) && w.msgsIn == old(w.msgsIn)
      decreases w.msg.len
    {
      w.Facts();
      assert !w.Room(asked, OutRoom);
      w.WriteMsg();
      w.Facts();
    }
    w.Facts();
    assert !w.Room(asked, OutRoom);
    ghost var x := w.out;
    w.StartFrame();
    FrontFrame(x);
    w.Facts();
    w.WriteSome(w.out.len - 4 - keep);
    w.Facts();
    assert w.Room(asked, OutRoom) && w.msg.len == 0;
  }

  lemma AtFront(x: XBuf, f: bytes, p: bytes, x': XBuf, f': bytes, p': bytes, full: nat)
    requires Continues(x, f, p, x', f', p', full) && x.size < full
    ensures f' == [] ==> x'.pos == 0
  {
  }

  lemma FrontFrame(x: XBuf)
    requires x.pos == 0 && x.len + 4 <= x.size
    ensures Reserve(x).0 == XBuf(0, x.len + 4, x.size)
  {
  }

  /** From any state in which a full flush does not get to the messages while it waits for the data, it can keep
      any number of bytes of the messages up to those the message buffer is cut by. */
  method FlushMayKeepMsg(w: Writer, keep: nat)
    requires w.Valid() && 0 < keep <= w.msgBuf.Length - w.msg.size
    requires |w.pending| <= w.outBuf.Length - w.out.size
    modifies w, w.outBuf
    ensures w.Valid() && w.dataIn == old(w.dataIn) && w.msgsIn == old(w.msgsIn)
    ensures |w.queued| == keep && w.frame == [] && w.pending == old(w.pending)
  {
    hide OutOk, MsgOk, Committed, IncomingFit, Drained;
    FrameOut(w);
    w.Facts();
    var asked := w.msg.size;
    assert !w.Room(asked, MsgRoom);
    DrainedToEnd(w.msg, w.msg.size - w.msg.pos, w.msgBuf.Length);
    w.WriteSomeMsg(w.msg.size - w.msg.pos);
    w.Facts();
    assert !w.Room(asked, MsgRoom);
    DrainedPart(w.msg, w.msg.len - keep);
    w.WriteSomeMsg(w.msg.len - keep);
    w.Facts();
    assert w.Room(asked, MsgRoom);
  }

  /** Its first half: the frame in progress goes out, and that is enough. */
  method FrameOut(w: Writer)
    requires w.Valid() && |w.pending| <= w.outBuf.Length - w.out.size
    modifies w
    ensures w.Valid() && w.dataIn == old(w.dataIn) && w.msgsIn == old(w.msgsIn)
    ensures w.msg == old(w.msg) && w.queued == old(w.queued) && w.frame == [] && w.pending == old(w.pending)
  {
    hide OutOk, MsgOk, Committed, IncomingFit, Continues;
    w.Facts();
    var asked := w.out.size - 4;
    ghost var x, f, p := w.out, w.frame, w.pending;
    w.NothingYet(0);
    while w.rawFlushingEndsBefore != 0
      invariant w.rawFlushingEndsBefore == if w.frame == [] then 0 else w.out.pos + |w.frame|
      invariant w.Valid() && w.pending == p && w.msg == old(w.msg) && w.queued == old(w.queued)
      invariant w.dataIn == old(w.dataIn) && w.msgsIn == old(w.msgsIn)
      invariant Continues(x, f, p, w.out, w.frame, w.pending, w.outBuf.Length)
      decreases |w.frame|
    {
      w.Facts();
      StillCut(x, f, p, w.out, w.frame, w.pending, w.outBuf.Length);
      assert !w.Room(asked, OutRoom);
      ghost var y, g := w.out, w.frame;
      w.WriteOut();
      ContinuesTrans(x, f, p, y, g, p, w.out, w.frame, p, w.outBuf.Length);
      w.Facts();
    }
    w.Facts();
    assert w.out.len <= 4 || w.Room(asked, OutRoom);
  }

  lemma StillCut(x: XBuf, f: bytes, p: bytes, x': XBuf, f': bytes, p': bytes, full: nat)
    requires Continues(x, f, p, x', f', p', full) && f' != []
    ensures x'.size == x.size && p' == p
  {
  }

  lemma DrainedToEnd(x: XBuf, n: nat, full: nat)
    requires x.pos + n == x.size && n < x.len && full % 256 == 0 && full - 4 < x.size <= full
    ensures Drained(x, n) == XBuf(0, x.len - n, full)
  {
    RestoreIs(x.size, full);
  }

  lemma DrainedPart(x: XBuf, n: nat)
    requires x.pos + n < x.size && n < x.len
    ensures Drained(x, n) == XBuf(x.pos + n, x.len - n, x.size)
  {
  }

  /** A message buffer that is cut short by `cut`: two messages end so close to its end that the header of the third
      one, an empty one, does not fit there. Some of the first one has been written meanwhile. */
  method CutShortMsg(size: nat, cut: nat, code: nat, first: bytes, second: bytes) returns (w: Writer)
    requires size % 256 == 0 && 256 <= size < MAX_PAYLOAD && 0 < cut < 4 && 0 < code <= MAX_CODE
    requires |first| == 100 && |second| == size - cut - 108
    ensures fresh(w) && fresh(w.outBuf) && fresh(w.msgBuf) && w.Valid()
    ensures w.msgBuf.Length == size && w.msg.size == size - cut
    ensures w.incoming == [] && w.pending == [] && w.out.size == w.outBuf.Length
  {
    hide OutOk, MsgOk, Committed, IncomingFit, Continues, Handed, Drained, Encode;
    NothingComes(size);
    w := new Writer(256, size, []);
    var ok := w.SendMsg(code, first);
    w.Facts();
    DrainedPart(w.msg, 100);
    w.WriteSomeMsg(100);
    ok := w.SendMsg(code, second);
    w.Facts();
    ok := w.SendMsg(code, []);
  }

  /** A run in which a full flush keeps up to three bytes of messages: no more than the message buffer is cut by. */
  method FullFlushKeepsMsg(size: nat, cut: nat, code: nat, first: bytes, second: bytes, keep: nat)
    returns (w: Writer)
    requires size % 256 == 0 && 256 <= size < MAX_PAYLOAD && 0 < keep <= cut < 4 && 0 < code <= MAX_CODE
    requires |first| == 100 && |second| == size - cut - 108
    ensures fresh(w) && w.Valid() && |w.queued| == keep
  {
    hide OutOk, MsgOk, Committed, IncomingFit;
    w := CutShortMsg(size, cut, code, first, second);
    FlushMayKeepMsg(w, keep);
  }

  /** A run in which a normal flush is refused. Data fill the buffer to the last byte; while input is awaited a
      frame is started, but nothing can be written. Room for the next header is reserved all the same, so the
      buffer is overfull by four bytes, and the flush asks for some 2^64 bytes. */
  method NormalFlushRefused(size: nat, data: bytes) returns (w: Writer, ok: bool)
    requires size % 256 == 0 && 256 <= size < MAX_PAYLOAD && |data| == size - 4
    ensures fresh(w) && w.Valid() && w.dataIn == data && !ok
  {
    hide OutOk, MsgOk, Committed, SizeT, IncomingFit, Handed, Continues;
    NothingComes(256);
    w := new Writer(size, 256, []);
    ok := w.WriteBuf(data);
    assert [] + data == data;
    w.StartFrame();
    ok := w.IoFlush(false);
  }

  lemma EncodeIs(f: Frame)
    ensures Encode(f) == Header(f.code, |f.payload|) + f.payload
  {
  }

  /** Finds the place for a message, and cuts the buffer short if need be. */
  method PlaceMsg(x: XBuf) returns (y: XBuf, pos: nat)
    requires MsgPlace(x).1 >= 0
    ensures (y, pos) == MsgPlace(x)
  {
    y, pos := x, x.pos + x.len;
    if pos >= x.size {
      pos := pos - x.size;
    } else if pos + 4 > x.size {
      y := x.(size := pos);
      pos := 0;
    }
  }

  lemma StoreOk(b0: bytes, b1: bytes, b2: bytes, x: XBuf, queued: bytes, h: bytes, payload: bytes, y: XBuf,
                at: nat)
    requires MsgOk(b0, x, queued) && x.len + |payload| + 4 + 3 <= x.size && (y, at) == MsgPlace(x) && |h| == 4
    requires SameOutside(b0, b1, y, x.len + 4, |payload|) && Shows(b1, y, x.len + 4, payload)
    requires |b2| == |b1| && (forall k :: at <= k < at + 4 <= |b2| ==> b2[k] == h[k - at])
    requires forall k :: 0 <= k < |b1| && !(at <= k < at + 4) ==> b2[k] == b1[k]
    ensures MsgOk(b2, y.(len := x.len + 4 + |payload|), queued + (h + payload))
  {
    hide Shows, SameOutside, MsgPlace;
    MsgPlaceOk(b0, x, queued, |payload|);
    SameLength(b0, b1, y, x.len + 4, |payload|);
    MsgBytes(b0, b1, b2, y, x.len, at, h, payload);
    MsgStoredOk(b0, b2, x, y, queued, h + payload);
  }

  lemma SameLength(b0: bytes, b1: bytes, y: XBuf, off: nat, n: nat)
    requires SameOutside(b0, b1, y, off, n)
    ensures |b1| == |b0|
  {
  }

  /** More bytes on the descriptor. */
  ghost function Send(sent: bytes, more: bytes): (r: bytes)
    ensures more != [] ==> sent < r
    ensures r == sent + more
  {
    sent + more
  }

  lemma OutFacts(buf: bytes, x: XBuf, ends: nat, hdr: nat, frame: bytes, pending: bytes)
    requires OutOk(buf, x, ends, hdr, frame, pending)
    ensures x.len == |frame| + 4 + |pending| < MAX_PAYLOAD + 4 && x.pos < x.size <= |buf| && hdr + 4 <= x.size
    ensures |buf| - 4 < x.size && |pending| < MAX_PAYLOAD && 256 <= |buf|
    ensures ends == (if frame == [] then 0 else x.pos + |frame|)
    ensures Shows(buf, x, 0, frame)
    ensures frame == [] ==> x.size == |buf|
  {
  }

  lemma MsgFacts(buf: bytes, x: XBuf, queued: bytes)
    requires MsgOk(buf, x, queued)
    ensures x.len == |queued| && x.pos < x.size <= |buf| < MAX_PAYLOAD && |buf| - 4 < x.size && 256 <= |buf|
    ensures Shows(buf, x, 0, queued)
    ensures queued == [] ==> x.size == |buf|
  {
  }

  lemma ReserveIs(x: XBuf)
    ensures Reserve(x) ==
      if x.pos + x.len >= x.size then (x.(len := x.len + 4), x.pos + x.len - x.size)
      else if x.pos + x.len + 4 > x.size then (XBuf(x.pos, x.len + 4, x.pos + x.len), 0)
      else (x.(len := x.len + 4), x.pos + x.len)
  {
  }

  /** Where the output buffer stands when n bytes of a frame have been written. */
  method Passed(x: XBuf, ends: nat, hdr: nat, n: nat) returns (x': XBuf, ends': nat, hdr': nat)
    requires n <= x.len && EndsAfter(x, ends, n) >= 0
    ensures x' == Flushed(x, n) && ends' == EndsAfter(x, ends, n) && hdr' == if x'.len == 4 then 0 else hdr
  {
    hide Restore;
    var pos, size := x.pos + n, x.size;
    ends', hdr' := ends, hdr;
    if pos == size {
      ends' := ends - size;
      pos, size := 0, Restore(size);
    } else if pos == ends {
      ends' := 0;
    }
    var len := x.len - n;
    if len == 4 {
      pos, size := 0, Restore(size);
      hdr' := 0;
    }
    x' := XBuf(pos, len, size);
  }

  /** Where the message buffer stands when n bytes have been written. */
  method Drain(x: XBuf, n: nat) returns (x': XBuf)
    requires n <= x.len
    ensures x' == Drained(x, n)
  {
    hide Restore;
    var pos, size := x.pos + n, x.size;
    if pos == size {
      pos, size := 0, Restore(size);
    }
    var len := x.len - n;
    if len == 0 {
      pos, size := 0, Restore(size);
    }
    x' := XBuf(pos, len, size);
  }
}
