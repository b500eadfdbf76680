/** io.c: the receiving end of a multiplexed connection. Bytes come in through a circular buffer; data and
    messages are told apart by the frame headers. */
module MultiplexIn {
  import opened Basics
  import opened Wire
  import opened Frames
  import opened Ring
  import MultiplexOut

  const BIGPATHBUFLEN: nat := 5120

  /** The process that reads, and whether it is a server. */
  datatype Role = Role(amSender: bool, amGenerator: bool, amServer: bool)

  const MSG_ERROR_XFER: nat := 1
  const MSG_INFO: nat := 2
  const MSG_ERROR: nat := 3
  const MSG_WARNING: nat := 4
  const MSG_ERROR_SOCKET: nat := 5
  const MSG_LOG: nat := 6
  const MSG_CLIENT: nat := 7
  const MSG_ERROR_UTF8: nat := 8
  const MSG_REDO: nat := 9
  const MSG_STATS: nat := 10
  const MSG_IO_ERROR: nat := 22
  const MSG_IO_TIMEOUT: nat := 33
  const MSG_NOOP: nat := 42
  const MSG_SUCCESS: nat := 100
  const MSG_DELETED: nat := 101
  const MSG_NO_SEND: nat := 102

  /** Which messages read_a_msg takes. MSG_ERROR_EXIT (86) ends the process and counts as not taken. */
  predicate Accepts(role: Role, code: nat, len: nat) {
    if code == MSG_STATS then len == 8 && role.amGenerator
    else if code == MSG_REDO then len == 4 && role.amGenerator
    else if code == MSG_IO_TIMEOUT then len == 4 && !role.amServer && !role.amGenerator
    else if code in {MSG_IO_ERROR, MSG_SUCCESS, MSG_NO_SEND} then len == 4
    else if code == MSG_NOOP then len == 0
    else if code in {MSG_ERROR_SOCKET, MSG_ERROR_UTF8, MSG_CLIENT, MSG_LOG}
      then role.amGenerator && len < BIGPATHBUFLEN
    else code in {MSG_INFO, MSG_ERROR, MSG_ERROR_XFER, MSG_WARNING, MSG_DELETED} && len < BIGPATHBUFLEN
  }

  /** By length: the messages of no bytes, of four, of eight, and those of any length up to a limit; and which of them
      only a generator takes, or a client that is none. No others are taken. */
  lemma AcceptedByLength(role: Role, code: nat, len: nat)
    ensures len == 0 ==> (Accepts(role, code, len) <==>
      code in {42, 1, 2, 3, 4, 101} || (code in {5, 6, 7, 8} && role.amGenerator))
    ensures len == 4 ==> (Accepts(role, code, len) <==>
      || code in {22, 100, 102, 1, 2, 3, 4, 101}
      || (code in {9, 5, 6, 7, 8} && role.amGenerator)
      || (code == 33 && !role.amGenerator && !role.amServer))
    ensures len == 8 ==> (Accepts(role, code, len) <==>
      code in {1, 2, 3, 4, 101} || (code in {10, 5, 6, 7, 8} && role.amGenerator))
    ensures len !in {0, 4, 8} && len < 5120 ==> (Accepts(role, code, len) <==>
      code in {1, 2, 3, 4, 101} || (code in {5, 6, 7, 8} && role.amGenerator))
    ensures len >= 5120 ==> !Accepts(role, code, len)
  {
  }

  ghost predicate AllAccepted(role: Role, frames: seq<Frame>) {
    forall i :: 0 <= i < |frames| && frames[i].code != MSG_DATA ==>
      Accepts(role, frames[i].code, |frames[i].payload|)
  }

  // ----- the input buffer

  /** The buffer holds `avail`, and `left` bytes of the data frame in progress are still to be read; where
      that frame ends may lie beyond the physical end of the buffer. */
  ghost predicate InOk(buf: bytes, x: XBuf, ends: nat, avail: bytes, left: nat) {
    && 0 < x.size == |buf| && x.pos < x.size && x.len == |avail| <= x.size
    && Shows(buf, x, 0, avail)
    && ends == if left == 0 then 0 else x.pos + left
  }

  /** The buffer after `needed` bytes have been taken. */
  function Consumed(x: XBuf, needed: nat): XBuf
    requires needed <= x.len
  {
    XBuf(if x.pos + needed >= x.size then Max(x.pos + needed - x.size, 0) else x.pos + needed, x.len - needed, x.size)
  }

  function EndsLeft(x: XBuf, ends: nat, needed: nat): int {
    if x.pos + needed == ends then 0
    else if x.pos + needed >= x.size && ends != 0 then ends - x.size
    else ends
  }

  lemma ConsumeOk(buf: bytes, x: XBuf, ends: nat, avail: bytes, left: nat, needed: nat)
    requires InOk(buf, x, ends, avail, left) && needed <= |avail| && (left == 0 || needed <= left)
    ensures EndsLeft(x, ends, needed) >= 0
    ensures InOk(buf, Consumed(x, needed), EndsLeft(x, ends, needed), avail[needed..],
                 if left == 0 then 0 else left - needed)
  {
    var y := Consumed(x, needed);
    forall i | 0 <= i < |avail| - needed
      ensures At(y, i) == At(x, i + needed)
    {
    }
    if left == 0 && x.pos + needed == ends {
      assert ends == 0;
    }
  }

  /** An empty buffer may start over. */
  lemma ResetOk(buf: bytes, x: XBuf, ends: nat, left: nat)
    requires InOk(buf, x, ends, [], left)
    ensures ends != 0 ==> ends >= x.pos
    ensures InOk(buf, XBuf(0, 0, x.size), if ends != 0 then ends - x.pos else 0, [], left)
  {
  }

  /** Bytes are read in behind what is there. */
  lemma FillOk(buf: bytes, buf': bytes, x: XBuf, ends: nat, avail: bytes, left: nat, more: bytes)
    requires InOk(buf, x, ends, avail, left) && x.len + |more| <= x.size
    requires SameOutside(buf, buf', x, x.len, |more|) && Shows(buf', x, x.len, more)
    ensures InOk(buf', x.(len := x.len + |more|), ends, avail + more, left)
  {
    StoredShows(buf, buf', x, 0, avail, x.len, |more|);
    ShowsJoin(buf', x, 0, avail, more);
    LenIsFree(buf', x, x.len + |more|, 0, avail + more);
  }

  /** The part of what is shown that stands at the start of the buffer. */
  lemma WrappedRun(buf: bytes, x: XBuf, avail: bytes, n: nat, len: nat)
    requires Shows(buf, x, 0, avail) && x.pos + n == x.size == |buf| && n < len <= |avail| <= x.size
    ensures buf[..len - n] == avail[n..len] && avail[..n] + avail[n..len] == avail[..len]
  {
    forall i | n <= i < len
      ensures buf[i - n] == avail[i]
    {
      assert At(x, i) == i - n;
    }
  }

  /** How raw_read_buf copies out what has been taken: it compares the new position with the one before
      the call, which an empty buffer's starting over may have changed in between. */
  lemma CopyOutOk(buf: bytes, x: XBuf, ends: nat, avail: bytes, left: nat, before: nat, len: nat)
    requires InOk(buf, x, ends, avail, left) && len <= |avail|
    requires before == x.pos || x.pos == 0
    ensures var pos := Consumed(x, len).pos;
      if pos <= before && len != 0 then
        pos <= len && x.pos + (len - pos) <= |buf| && pos <= |buf|
        && buf[x.pos..x.pos + (len - pos)] + buf[..pos] == avail[..len]
      else x.pos + len <= |buf| && buf[x.pos..x.pos + len] == avail[..len]
  {
    hide Shows;
    if x.pos + len >= x.size {
      var n := x.size - x.pos;
      ShowsRun(buf, x, avail, n);
      assert Consumed(x, len).pos == len - n;
      if n < len {
        WrappedRun(buf, x, avail, n, len);
      } else {
        assert buf[x.pos..x.pos + n] + buf[..0] == buf[x.pos..x.pos + n];
      }
    } else {
      ShowsRun(buf, x, avail, len);
      assert Consumed(x, len).pos == x.pos + len;
      assert x.pos == 0 ==> buf[0..0] + buf[..len] == buf[0..len];
    }
  }

  // ----- what has been read so far

  /** The bytes from position `at` on are the rest of a data frame and the frames to come; what has been
      taken and what is to come make up all data and all messages. */
  ghost predicate Decoded(frames: seq<Frame>, at: nat, rest: bytes, todo: seq<Frame>, dataOut: bytes,
                          messages: seq<Frame>)
  {
    && at <= |EncodeAll(frames)| && EncodeAll(frames)[at..] == rest + EncodeAll(todo)
    && |todo| <= |frames| && todo == frames[|frames| - |todo|..]
    && dataOut + rest + DataOf(todo) == DataOf(frames)
    && messages + MessagesOf(todo) == MessagesOf(frames)
  }

  /** The next four bytes are the header of the next frame. */
  lemma NextHeader(frames: seq<Frame>, at: nat, todo: seq<Frame>, dataOut: bytes, messages: seq<Frame>)
    requires Decoded(frames, at, [], todo, dataOut, messages) && at + 4 <= |EncodeAll(frames)|
    ensures todo != [] && todo[0] in frames
    ensures EncodeAll(frames)[at..at + 4] == Header(todo[0].code, |todo[0].payload|)
    ensures EncodeAll(frames)[at + 4..] == todo[0].payload + EncodeAll(todo[1..])
  {
    hide DataOf, MessagesOf, Header;
    var total := EncodeAll(frames);
    assert total[at..] == EncodeAll(todo);
    assert todo != [];
    HeadSlices(total, at, Header(todo[0].code, |todo[0].payload|), todo[0].payload + EncodeAll(todo[1..]));
    AppendAssoc(Header(todo[0].code, |todo[0].payload|), todo[0].payload, EncodeAll(todo[1..]));
  }

  lemma HeadSlices(total: bytes, at: nat, h: bytes, e: bytes)
    requires at <= |total| && total[at..] == h + e
    ensures at + |h| <= |total| && total[at..at + |h|] == h && total[at + |h|..] == e
  {
    assert total[at..at + |h|] == total[at..][..|h|];
    assert total[at + |h|..] == total[at..][|h|..];
  }

  lemma DropFrame(frames: seq<Frame>, todo: seq<Frame>)
    requires 0 < |todo| <= |frames| && todo == frames[|frames| - |todo|..]
    ensures todo[1..] == frames[|frames| - |todo[1..]|..]
  {
  }

  /** The data and messages to come begin with those of the next frame. */
  lemma NextContent(todo: seq<Frame>, dataOut: bytes, messages: seq<Frame>)
    requires todo != []
    ensures dataOut + [] + DataOf(todo) ==
      dataOut + (if todo[0].code == MSG_DATA then todo[0].payload else []) + DataOf(todo[1..])
    ensures messages + MessagesOf(todo) ==
      messages + (if todo[0].code == MSG_DATA then [] else [todo[0]]) + MessagesOf(todo[1..])
  {
    var d := if todo[0].code == MSG_DATA then todo[0].payload else [];
    var m := if todo[0].code == MSG_DATA then [] else [todo[0]];
    assert DataOf(todo) == d + DataOf(todo[1..]) && MessagesOf(todo) == m + MessagesOf(todo[1..]);
    hide DataOf, MessagesOf;
    AppendAssoc(dataOut, d, DataOf(todo[1..]));
    AppendAssoc(messages, m, MessagesOf(todo[1..]));
    assert dataOut + [] == dataOut;
  }

  /** A data frame begins. */
  lemma BeginData(frames: seq<Frame>, at: nat, todo: seq<Frame>, dataOut: bytes, messages: seq<Frame>)
    requires Decoded(frames, at, [], todo, dataOut, messages) && at + 4 <= |EncodeAll(frames)|
    requires todo != [] && todo[0].code == MSG_DATA
    ensures Decoded(frames, at + 4, todo[0].payload, todo[1..], dataOut, messages)
  {
    hide EncodeAll, DataOf, MessagesOf;
    NextHeader(frames, at, todo, dataOut, messages);
    NextContent(todo, dataOut, messages);
    DropFrame(frames, todo);
    assert messages + [] == messages;
  }

  /** A message is taken whole. */
  lemma TakeMessage(frames: seq<Frame>, at: nat, todo: seq<Frame>, dataOut: bytes, messages: seq<Frame>)
    requires Decoded(frames, at, [], todo, dataOut, messages)
    requires todo != [] && todo[0].code != MSG_DATA && at + 4 + |todo[0].payload| <= |EncodeAll(frames)|
    ensures EncodeAll(frames)[at + 4..at + 4 + |todo[0].payload|] == todo[0].payload
    ensures Decoded(frames, at + 4 + |todo[0].payload|, [], todo[1..], dataOut, messages + [todo[0]])
  {
    hide EncodeAll, DataOf, MessagesOf;
    NextHeader(frames, at, todo, dataOut, messages);
    NextContent(todo, dataOut, messages);
    DropFrame(frames, todo);
    HeadSlices(EncodeAll(frames), at + 4, todo[0].payload, EncodeAll(todo[1..]));
    assert [] + EncodeAll(todo[1..]) == EncodeAll(todo[1..]);
  }

  /** Some of the rest of a data frame is taken. */
  lemma TakeData(frames: seq<Frame>, at: nat, rest: bytes, todo: seq<Frame>, dataOut: bytes,
                 messages: seq<Frame>, n: nat)
    requires Decoded(frames, at, rest, todo, dataOut, messages) && n <= |rest|
    ensures at + n <= |EncodeAll(frames)| && EncodeAll(frames)[at..at + n] == rest[..n]
    ensures Decoded(frames, at + n, rest[n..], todo, dataOut + rest[..n], messages)
  {
    hide EncodeAll, DataOf, MessagesOf;
    assert rest == rest[..n] + rest[n..];
    AppendAssoc(rest[..n], rest[n..], EncodeAll(todo));
    HeadSlices(EncodeAll(frames), at, rest[..n], rest[n..] + EncodeAll(todo));
    AppendAssoc(dataOut, rest[..n], rest[n..]);
  }

  // ----- the connection

  class Reader {
    const inBuf: array<byte>
    const role: Role
    var inp: XBuf
    var rawInputEndsBefore: nat
    /** The messages that have been taken. */
    var messages: seq<Frame>

    /** The descriptor: all bytes that will come in before the connection ends, and how many have. */
    const wire: bytes
    var got: nat
    /** The frames they come from, and how many bytes have been taken out of the buffer. */
    ghost const frames: seq<Frame>
    ghost var at: nat
    /** What is left of the data frame in progress, and the frames after it. */
    ghost var rest: bytes
    ghost var todo: seq<Frame>
    /** All data that have been handed out. */
    ghost var dataOut: bytes

    /** The buffer holds what has come in and has not been taken. */
    ghost predicate Buffered(left: nat)
      reads this, inBuf
    {
      && at <= got <= |wire|
      && InOk(inBuf[..], inp, rawInputEndsBefore, wire[at..got], left)
    }

    ghost predicate Valid()
      reads this, inBuf
    {
      && wire <= EncodeAll(frames) && AllSendable(frames) && inBuf.Length >= BIGPATHBUFLEN
      && Buffered(|rest|)
      && Decoded(frames, at, rest, todo, dataOut, messages)
    }

    /** The sender has sent everything, and nothing this reader would refuse. */
    ghost predicate Complete() {
      wire == EncodeAll(frames) && AllAccepted(role, frames)
    }

    constructor (size: nat, role: Role, wire: bytes, ghost frames: seq<Frame>)
      requires size >= BIGPATHBUFLEN && wire <= EncodeAll(frames) && AllSendable(frames)
      ensures Valid() && fresh(inBuf) && this.role == role && this.wire == wire && this.frames == frames
      ensures dataOut == [] && messages == []
    {
      inBuf := new byte[size];
      this.role, this.wire, this.frames := role, wire, frames;
      inp := XBuf(0, 0, size);
      rawInputEndsBefore := 0;
      messages, got, at, rest, todo, dataOut := [], 0, 0, [], frames, [];
      new;
      assert EncodeAll(frames)[0..] == [] + EncodeAll(frames);
      assert [] + [] + DataOf(frames) == DataOf(frames);
      assert [] + MessagesOf(frames) == MessagesOf(frames);
    }

    /** Reads until the buffer holds what is needed, some bytes at a time; fails at the end of the
        connection, or if the buffer is too small. */
    method PerformIo(needed: nat, ghost left: nat) returns (ok: bool)
      requires Buffered(left)
      modifies this`inp, this`rawInputEndsBefore, this`got, inBuf
      ensures Buffered(left) && (inp.pos == old(inp.pos) || inp.pos == 0)
      ensures ok ==> needed <= inp.len
      ensures !ok ==> needed > inBuf.Length || at + needed > |wire|
    {
      hide InOk, Shows, SameOutside;
      InFacts(inBuf[..], inp, rawInputEndsBefore, wire[at..got], left);
      if inp.len == 0 && inp.pos != 0 {
        ResetOk(inBuf[..], inp, rawInputEndsBefore, left);
        if rawInputEndsBefore != 0 {
          rawInputEndsBefore := rawInputEndsBefore - inp.pos;
        }
        inp := inp.(pos := 0);
      }
      if inp.size < needed {
        return false;
      }
      while inp.len < needed
        invariant Buffered(left) && (inp.pos == old(inp.pos) || inp.pos == 0)
        invariant needed <= inp.size
        decreases |wire| - got
      {
        InFacts(inBuf[..], inp, rawInputEndsBefore, wire[at..got], left);
        if got == |wire| {
          return false;
        }
        ghost var had := got;
        var more := ReadSome();
        ghost var b := inBuf[..];
        CopyIn(inBuf, inp, inp.len, more);
        FillOk(b, inBuf[..], inp, rawInputEndsBefore, wire[at..had], left, more);
        SplitSlice(wire, at, had, got);
        inp := inp.(len := inp.len + |more|);
      }
      ok := true;
    }

    /** One read(2): at least one byte, and no more than fit in one run of the buffer. */
    method ReadSome() returns (more: bytes)
      requires inp.pos < inp.size && inp.len < inp.size && got < |wire|
      modifies this`got
      ensures more != [] && inp.len + |more| <= inp.size
      ensures old(got) < got <= |wire| && more == wire[old(got)..got]
    {
      var pos, len := inp.pos + inp.len, 0;
      if pos >= inp.size {
        pos := pos - inp.size;
        len := inp.size - inp.len;
      } else {
        len := inp.size - pos;
      }
      var n :| 0 < n <= len && n <= |wire| - got;
      more := wire[got..got + n];
      got := got + n;
    }

    /** raw_read_buf: the next bytes of the stream, whatever frames they belong to. */
    method RawReadBuf(len: nat, ghost left: nat) returns (ok: bool, buf: bytes)
      requires Buffered(left) && (left == 0 || len <= left)
      modifies this`inp, this`rawInputEndsBefore, this`got, this`at, inBuf
      ensures ok ==> Buffered(if left == 0 then 0 else left - len)
      ensures ok ==> at == old(at) + len <= |wire| && buf == wire[old(at)..at]
      ensures !ok ==> len > inBuf.Length || old(at) + len > |wire|
    {
      hide InOk, Shows, SameOutside, Consumed, EndsLeft;
      var pos := inp.pos;
      ok := PerformIo(len, left);
      buf := [];
      if !ok {
        return;
      }
      ghost var avail := wire[at..got];
      InFacts(inBuf[..], inp, rawInputEndsBefore, avail, left);
      CopyOutOk(inBuf[..], inp, rawInputEndsBefore, avail, left, pos, len);
      ConsumeOk(inBuf[..], inp, rawInputEndsBefore, avail, left, len);
      var data := inp.pos;
      inp, rawInputEndsBefore := Consume(inp, rawInputEndsBefore, len);
      if inp.pos <= pos && len != 0 {
        var siz := len - inp.pos;
        buf := inBuf[data..data + siz] + inBuf[..inp.pos];
      } else {
        buf := inBuf[data..data + len];
      }
      at := at + len;
      SliceOfSlice(wire, at - len, len, got);
    }

    /** raw_read_int, with the header taken apart. */
    method ReadHeader() returns (ok: bool, tag: int, msgBytes: nat)
      requires Valid() && rest == []
      modifies this`inp, this`rawInputEndsBefore, this`got, this`at, inBuf
      ensures ok ==> Buffered(0) && at == old(at) + 4 <= |wire| && todo != []
      ensures ok ==> tag == todo[0].code && msgBytes == |todo[0].payload|
      ensures !ok ==> old(at) + 4 > |wire|
    {
      hide InOk, Decoded, EncodeAll, AllSendable;
      ghost var a := at;
      var b;
      tag, msgBytes := 0, 0;
      ok, b := RawReadBuf(4, 0);
      if ok {
        HeaderRead(frames, wire, a, todo, dataOut, messages);
        var v := Number(b);
        tag := v / MAX_PAYLOAD - MPLEX_BASE;
        msgBytes := v % MAX_PAYLOAD;
      }
    }

    /** Reads a header, and the whole frame unless it carries data. Fails on a message that this process
        does not take. */
    method ReadAMsg() returns (ok: bool)
      requires Valid() && rest == []
      modifies this, inBuf
      ensures ok ==> Valid() && |todo| < |old(todo)| && dataOut == old(dataOut)
      ensures Complete() && old(todo) != [] ==> ok
      ensures ok ==> old(todo) != [] && todo == old(todo)[1..] && var f := old(todo)[0];
        if f.code == MSG_DATA then messages == old(messages) && rest == f.payload
        else messages == old(messages) + [f] && rest == [] && Accepts(role, f.code, |f.payload|)
      ensures !ok ==>
        || old(at) + 4 > |wire|
        || (old(todo) != [] && var f := old(todo)[0];
              f.code != MSG_DATA && (!Accepts(role, f.code, |f.payload|) || old(at) + 4 + |f.payload| > |wire|))
    {
      hide InOk, Decoded, EncodeAll, AllSendable, DataOf, MessagesOf, Accepts;
      ghost var a, f0 := at, todo;
      var tag, msgBytes;
      ok, tag, msgBytes := ReadHeader();
      if !ok {
        CompleteHasMore(frames, a, todo, dataOut, messages);
        return;
      }
      if tag == MSG_DATA {
        BeginData(frames, a, todo, dataOut, messages);
        InFacts(inBuf[..], inp, rawInputEndsBefore, wire[at..got], 0);
        BeginOk(inBuf[..], inp, wire[at..got], msgBytes);
        if msgBytes != 0 {
          rawInputEndsBefore := inp.pos + msgBytes;
        }
        rest := todo[0].payload;
        todo := todo[1..];
        return;
      }
      if !Accepts(role, tag, msgBytes) {
        NotAccepted(role, frames, a, todo, dataOut, messages);
        return false;
      }
      AcceptedFits(role, tag, msgBytes);
      var data;
      ok, data := RawReadBuf(msgBytes, 0);
      if !ok {
        CompleteHasPayload(frames, a, todo, dataOut, messages);
        return;
      }
      PrefixLonger(wire, EncodeAll(frames), at);
      TakeMessage(frames, a, todo, dataOut, messages);
      PrefixSlice(wire, EncodeAll(frames), a + 4, at);
      messages := messages + [Frame(tag, data)];
      todo := todo[1..];
    }

    /** Hands out the next len bytes of data, reading frames as they are needed. Messages in between are
        taken. With everything sent, it fails only if there are not that many data. */
    method ReadBuf(len: nat) returns (ok: bool, buf: bytes)
      requires Valid()
      modifies this, inBuf
      ensures ok ==> Valid() && |buf| == len && dataOut == old(dataOut) + buf
      ensures Complete() && len > 0 && |old(dataOut)| + len <= |DataOf(frames)| ==> ok
    {
      hide InOk, Decoded, EncodeAll, AllSendable, DataOf, MessagesOf;
      var left: nat := len;
      buf := [];
      while true
        invariant Valid() && |buf| + left == len && dataOut == old(dataOut) + buf
        invariant len > 0 ==> left > 0
        decreases left, |todo|
      {
        while rawInputEndsBefore == 0
          invariant Valid() && dataOut == old(dataOut) + buf
          decreases |todo|
        {
          InFacts(inBuf[..], inp, rawInputEndsBefore, wire[at..got], |rest|);
          DataLeft(frames, at, rest, todo, dataOut, messages);
          ok := ReadAMsg();
          if !ok {
            return;
          }
        }
        InFacts(inBuf[..], inp, rawInputEndsBefore, wire[at..got], |rest|);
        var siz := Min(left, rawInputEndsBefore - inp.pos);
        if siz >= inp.size {
          siz := inp.size;
        }
        ghost var a, r := at, rest;
        TakeData(frames, at, rest, todo, dataOut, messages, siz);
        var part;
        ok, part := RawReadBuf(siz, |rest|);
        if !ok {
          return;
        }
        PrefixSlice(wire, EncodeAll(frames), a, at);
        rest, dataOut := r[siz..], dataOut + part;
        AppendAssoc(old(dataOut), buf, part);
        buf := buf + part;
        left := left - siz;
        if left == 0 {
          return;
        }
      }
    }
  }

  /** Without a rest, data that are missing are in frames to come. */
  lemma DataLeft(frames: seq<Frame>, at: nat, rest: bytes, todo: seq<Frame>, dataOut: bytes,
                 messages: seq<Frame>)
    requires Decoded(frames, at, rest, todo, dataOut, messages)
    ensures rest == [] && |dataOut| < |DataOf(frames)| ==> todo != []
  {
  }

  lemma HeaderRead(frames: seq<Frame>, wire: bytes, a: nat, todo: seq<Frame>, dataOut: bytes,
                   messages: seq<Frame>)
    requires wire <= EncodeAll(frames) && AllSendable(frames) && a + 4 <= |wire|
    requires Decoded(frames, a, [], todo, dataOut, messages)
    ensures todo != [] && Number(wire[a..a + 4]) / MAX_PAYLOAD - MPLEX_BASE == todo[0].code
    ensures Number(wire[a..a + 4]) % MAX_PAYLOAD == |todo[0].payload|
  {
    NextHeader(frames, a, todo, dataOut, messages);
    assert Sendable(todo[0]);
    HeaderParts(todo[0].code, |todo[0].payload|);
    assert wire[a..a + 4] == EncodeAll(frames)[a..a + 4];
  }

  lemma SliceOfSlice(wire: bytes, a: nat, n: nat, g: nat)
    requires a + n <= g <= |wire|
    ensures wire[a..g][n..] == wire[a + n..g] && wire[a..g][..n] == wire[a..a + n]
  {
  }

  lemma PrefixLonger(w: bytes, total: bytes, n: nat)
    requires w <= total && n <= |w|
    ensures n <= |total|
  {
  }

  lemma PrefixSlice(w: bytes, total: bytes, i: nat, j: nat)
    requires w <= total && i <= j <= |w|
    ensures w[i..j] == total[i..j]
  {
  }

  /** If all has been sent and frames are missing, there is a header to read. */
  lemma CompleteHasMore(frames: seq<Frame>, a: nat, todo: seq<Frame>, dataOut: bytes, messages: seq<Frame>)
    requires Decoded(frames, a, [], todo, dataOut, messages)
    ensures todo != [] ==> a + 4 <= |EncodeAll(frames)|
  {
    assert |EncodeAll(frames)[a..]| == |EncodeAll(todo)|;
  }

  lemma CompleteHasPayload(frames: seq<Frame>, a: nat, todo: seq<Frame>, dataOut: bytes, messages: seq<Frame>)
    requires Decoded(frames, a, [], todo, dataOut, messages) && todo != []
    ensures a + 4 + |todo[0].payload| <= |EncodeAll(frames)|
  {
    assert |EncodeAll(frames)[a..]| == |EncodeAll(todo)|;
  }

  lemma NotAccepted(role: Role, frames: seq<Frame>, a: nat, todo: seq<Frame>, dataOut: bytes,
                    messages: seq<Frame>)
    requires Decoded(frames, a, [], todo, dataOut, messages) && todo != []
    requires todo[0].code != MSG_DATA && !Accepts(role, todo[0].code, |todo[0].payload|)
    ensures !AllAccepted(role, frames)
  {
    hide Accepts;
    assert todo[0] == frames[|frames| - |todo|];
  }

  lemma AcceptedFits(role: Role, code: nat, len: nat)
    requires Accepts(role, code, len)
    ensures len < BIGPATHBUFLEN
  {
  }

  lemma BeginOk(buf: bytes, x: XBuf, avail: bytes, left: nat)
    requires InOk(buf, x, 0, avail, 0)
    ensures InOk(buf, x, if left == 0 then 0 else x.pos + left, avail, left)
  {
  }

  /** Where the buffer stands when `needed` bytes have been consumed. */
  method Consume(x: XBuf, ends: nat, needed: nat) returns (x': XBuf, ends': nat)
    requires needed <= x.len <= x.size && x.pos < x.size && EndsLeft(x, ends, needed) >= 0
    ensures x' == Consumed(x, needed) && ends' == EndsLeft(x, ends, needed)
  {
    x' := XBuf(x.pos + needed, x.len - needed, x.size);
    ends' := ends;
    if x'.pos == ends' {
      ends' := 0;
    }
    if x'.pos >= x'.size {
      x' := x'.(pos := x'.pos - x'.size);
      if ends' != 0 {
        ends' := ends' - x.size;
      }
    }
  }

  lemma InFacts(buf: bytes, x: XBuf, ends: nat, avail: bytes, left: nat)
    requires InOk(buf, x, ends, avail, left)
    ensures 0 < x.size == |buf| && x.pos < x.size && x.len == |avail| <= x.size
    ensures ends == if left == 0 then 0 else x.pos + left
  {
  }

  /** What has been sent is always the beginning of a run of whole frames, so no byte of a message stands
      inside of a data frame, and it is what a reader can be started on. */
  lemma SentIsFrames(w: MultiplexOut.Writer)
    requires w.Valid()
    ensures w.sent <= EncodeAll(w.frames) && AllSendable(w.frames)
  {
    hide EncodeAll, DataOf, MessagesOf;
    PrefixOfThree(w.sent, w.frame, w.queued);
  }

  lemma PrefixOfThree<T>(a: seq<T>, b: seq<T>, c: seq<T>)
    ensures a <= a + b + c && a <= a + b
  {
  }

  /** From end to end: what a reader hands out of the frames a writer has committed are the data and the
      messages that were handed to the writer, in order; and once all frames have been read and no data
      wait, they are all of them. */
  lemma EndToEnd(w: MultiplexOut.Writer, r: Reader)
    requires w.Valid() && r.Valid() && r.frames == w.frames
    ensures r.dataOut <= w.dataIn && r.messages <= w.msgsIn
    ensures r.todo == [] && r.rest == [] && w.pending == [] ==> r.dataOut == w.dataIn && r.messages == w.msgsIn
  {
    hide EncodeAll;
    PrefixOfThree(r.dataOut, r.rest, DataOf(r.todo));
    PrefixOfThree(DataOf(w.frames), w.pending, []);
    PrefixOfThree(r.messages, MessagesOf(r.todo), []);
    PrefixTwice(r.dataOut, DataOf(w.frames), w.dataIn);
    assert r.dataOut + [] + [] == r.dataOut && r.messages + [] == r.messages;
    assert DataOf(w.frames) + [] == DataOf(w.frames);
  }

  lemma PrefixTwice(a: bytes, b: bytes, c: bytes)
    ensures a <= b <= c ==> a <= c
  {
  }
}
