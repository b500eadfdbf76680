/** io.c: circular buffers whose size may be cut short for a while. */
module Ring {
  import opened Basics

  /** Position, fill and current size of a circular buffer. */
  datatype XBuf = XBuf(pos: nat, len: nat, size: nat)

  /** The physical place of the byte i places behind the read position. */
  function At(x: XBuf, i: nat): int {
    if x.pos + i < x.size then x.pos + i else x.pos + i - x.size
  }

  /** How far behind the read position a physical place is. */
  function Behind(x: XBuf, k: nat): int {
    if k >= x.pos then k - x.pos else k + x.size - x.pos
  }

  /** The bytes from offset `off` behind the read position on are s. */
  ghost predicate Shows(buf: bytes, x: XBuf, off: nat, s: bytes) {
    forall i {:trigger At(x, i)} :: off <= i < off + |s| ==> 0 <= At(x, i) < |buf| && buf[At(x, i)] == s[i - off]
  }

  /** Only the n places from offset `at` on may have changed. */
  ghost predicate SameOutside(buf: bytes, buf': bytes, x: XBuf, at: nat, n: nat) {
    && |buf'| == |buf|
    && forall k :: 0 <= k < |buf| && !(k < x.size && at <= Behind(x, k) < at + n) ==> buf'[k] == buf[k]
  }

  /** IOBUF_RESTORE_SIZE: sizes are multiples of 256 unless reduced. */
  function Restore(size: nat): nat {
    if size % 256 != 0 then size / 256 * 256 + 256 else size
  }

  lemma RestoreIs(size: nat, cap: nat)
    requires cap % 256 == 0 && cap - 4 < size <= cap
    ensures Restore(size) == cap
  {
    assert cap == 256 * (cap / 256);
    if size < cap {
      assert size / 256 == cap / 256 - 1;
    }
  }

  /** Dropping n bytes that are not beyond the physical end. */
  function Taken(x: XBuf, n: nat): XBuf
    requires n <= x.len
  {
    if x.pos + n == x.size then XBuf(0, x.len - n, Restore(x.size)) else XBuf(x.pos + n, x.len - n, x.size)
  }

  /** What is shown behind the bytes taken stays. */
  lemma TakenShows(buf: bytes, x: XBuf, n: nat, off: nat, s: bytes)
    requires n <= off && n <= x.len && x.pos + n <= x.size <= Restore(x.size) && x.pos < x.size
    requires Shows(buf, x, off, s) && off + |s| <= x.size + n
    ensures Shows(buf, Taken(x, n), off - n, s)
  {
    hide Restore;
    forall i | off - n <= i < off - n + |s|
      ensures At(Taken(x, n), i) == At(x, i + n)
    {
    }
  }

  /** What is shown in front of bytes that are stored, or behind them, stays. */
  lemma StoredShows(buf: bytes, buf': bytes, x: XBuf, off: nat, s: bytes, at: nat, n: nat)
    requires x.pos < x.size && SameOutside(buf, buf', x, at, n) && Shows(buf, x, off, s)
    requires off + |s| <= at || at + n <= off
    requires off + |s| <= x.size
    ensures Shows(buf', x, off, s)
  {
    forall i | off <= i < off + |s|
      ensures Behind(x, At(x, i)) == i
    {
    }
  }

  /** The first bytes of what is shown, as one run of the buffer. */
  lemma ShowsRun(buf: bytes, x: XBuf, s: bytes, n: nat)
    requires Shows(buf, x, 0, s) && n <= |s| && x.pos + n <= x.size <= |buf|
    ensures buf[x.pos..x.pos + n] == s[..n]
  {
    forall j | 0 <= j < n
      ensures buf[x.pos + j] == s[j]
    {
      assert At(x, j) == x.pos + j;
    }
  }

  /** Two shown runs that follow each other are one. */
  lemma ShowsJoin(buf: bytes, x: XBuf, off: nat, s: bytes, t: bytes)
    ensures Shows(buf, x, off, s) && Shows(buf, x, off + |s|, t) ==> Shows(buf, x, off, s + t)
  {
  }

  lemma ShowsPart(buf: bytes, x: XBuf, off: nat, s: bytes, n: nat)
    requires Shows(buf, x, off, s) && n <= |s|
    ensures Shows(buf, x, off + n, s[n..])
  {
  }

  /** A shorter size does not matter as long as nothing shown reaches the physical end. */
  lemma ReducedShows(buf: bytes, x: XBuf, size: nat, s: bytes)
    requires Shows(buf, x, 0, s) && x.pos + |s| <= size <= x.size
    ensures Shows(buf, x.(size := size), 0, s)
  {
    forall i | 0 <= i < |s|
      ensures At(x.(size := size), i) == At(x, i)
    {
    }
  }

  lemma LenIsFree(buf: bytes, x: XBuf, len: nat, off: nat, s: bytes)
    requires Shows(buf, x, off, s)
    ensures Shows(buf, x.(len := len), off, s)
  {
    assert forall i :: At(x.(len := len), i) == At(x, i);
  }

  /** Copies data into the buffer behind the first `off` bytes, in two parts if it meets the physical
      end. */
  method CopyIn(buf: array<byte>, x: XBuf, off: nat, data: bytes)
    requires x.pos < x.size <= buf.Length && off + |data| <= x.size
    modifies buf
    ensures Shows(buf[..], x, off, data)
    ensures SameOutside(old(buf[..]), buf[..], x, off, |data|)
  {
    var pos := x.pos + off;
    if pos >= x.size {
      pos := pos - x.size;
    }
    var siz := x.size - pos;
    if pos >= x.pos && siz < |data| {
      CopyRun(buf, pos, data[..siz]);
      CopyRun(buf, 0, data[siz..]);
    } else {
      CopyRun(buf, pos, data);
    }
  }

  /** memcpy into the buffer. */
  method CopyRun(buf: array<byte>, at: nat, data: bytes)
    requires at + |data| <= buf.Length
    modifies buf
    ensures forall k :: at <= k < at + |data| ==> buf[k] == data[k - at]
    ensures forall k :: 0 <= k < buf.Length && !(at <= k < at + |data|) ==> buf[k] == old(buf[k])
  {
    forall k | 0 <= k < |data| {
      buf[at + k] := data[k];
    }
  }
}
