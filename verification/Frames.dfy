/** io.c: the multiplexed stream, a sequence of frames that carry data or messages. */
module Frames {
  import opened Basics
  import opened Wire

  const MPLEX_BASE: nat := 7
  const MSG_DATA: nat := 0
  const MAX_CODE: nat := 120
  const MAX_PAYLOAD: nat := 0x100_0000

  /** A frame; code 0 is raw data, all others are messages. */
  datatype Frame = Frame(code: nat, payload: bytes)

  predicate Sendable(f: Frame) {
    f.code <= MAX_CODE && |f.payload| < MAX_PAYLOAD
  }

  ghost predicate AllSendable(frames: seq<Frame>) {
    forall i :: 0 <= i < |frames| ==> Sendable(frames[i])
  }

  function Tag(code: nat, len: nat): nat {
    (MPLEX_BASE + code) * MAX_PAYLOAD + len
  }

  /** The four bytes in front of a payload. */
  function Header(code: nat, len: nat): (h: bytes)
    ensures |h| == 4
  {
    LittleEndian(Tag(code, len), 4)
  }

  function Encode(f: Frame): bytes {
    Header(f.code, |f.payload|) + f.payload
  }

  function EncodeAll(frames: seq<Frame>): bytes {
    Concat(Encode, frames)
  }

  function Data(f: Frame): bytes {
    if f.code == MSG_DATA then f.payload else []
  }

  function Messages(f: Frame): seq<Frame> {
    if f.code == MSG_DATA then [] else [f]
  }

  /** The raw data that frames carry. */
  function DataOf(frames: seq<Frame>): bytes {
    Concat(Data, frames)
  }

  /** The messages that frames carry. */
  function MessagesOf(frames: seq<Frame>): seq<Frame> {
    Concat(Messages, frames)
  }

  /** A header can be taken apart again, and is positive as a signed 32-bit number. */
  lemma HeaderParts(code: nat, len: nat)
    requires code <= MAX_CODE && len < MAX_PAYLOAD
    ensures Number(Header(code, len)) == Tag(code, len) < 0x8000_0000
    ensures Tag(code, len) % MAX_PAYLOAD == len && Tag(code, len) / MAX_PAYLOAD == MPLEX_BASE + code
  {
    assert Power256(4) == 0x1_0000_0000;
    NumberOfBytes(Tag(code, len), 4);
  }

  /** The bytes of a header: the length, low byte first, and the code. */
  lemma HeaderBytes(code: nat, len: nat)
    requires code <= MAX_CODE && len < MAX_PAYLOAD
    ensures Header(code, len) == [len % 0x100, len / 0x100 % 0x100, len / 0x1_0000, 7 + code]
  {
    hide LittleEndian;
    var t, c := Tag(code, len), MPLEX_BASE + code;
    FourBytes(t);
    assert t / 0x100 == c * 0x1_0000 + len / 0x100 && t / 0x1_0000 == c * 0x100 + len / 0x1_0000;
    assert t % 0x100 == len % 0x100 && t / 0x100 % 0x100 == len / 0x100 % 0x100;
    assert t / 0x1_0000 % 0x100 == len / 0x1_0000 && t / 0x100_0000 == c;
  }

  /** One more frame. */
  lemma FramesAppend(frames: seq<Frame>, f: Frame)
    ensures EncodeAll(frames + [f]) == EncodeAll(frames) + Encode(f)
    ensures DataOf(frames + [f]) == DataOf(frames) + Data(f)
    ensures MessagesOf(frames + [f]) == MessagesOf(frames) + Messages(f)
  {
    ConcatAppend(Encode, frames, f);
    ConcatAppend(Data, frames, f);
    ConcatAppend(Messages, frames, f);
  }
}
