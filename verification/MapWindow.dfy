/** fileio.c: a window that slides over a file and is filled by reads of any length. */
module MapWindow {
  import opened Basics

  const ALIGN_BOUNDRY: nat := 1024

  function AlignedOvershoot(offset: nat): (n: nat)
    ensures n <= offset && n < ALIGN_BOUNDRY && (offset - n) % ALIGN_BOUNDRY == 0
  {
    offset % ALIGN_BOUNDRY
  }

  /** The next multiple of 1K. */
  function AlignedLength(len: nat): (n: nat)
    ensures len <= n < len + ALIGN_BOUNDRY && n % ALIGN_BOUNDRY == 0
  {
    (len + (ALIGN_BOUNDRY - 1)) / ALIGN_BOUNDRY * ALIGN_BOUNDRY
  }

  /** The bytes of a file from `from` on, with zeros behind its end. */
  function Bytes(file: bytes, from: nat, len: nat): (b: bytes)
    ensures |b| == len
    ensures from + len <= |file| ==> b == file[from..from + len]
  {
    var b := seq(len, i requires 0 <= i < len => if from + i < |file| then file[from + i] else 0);
    assert from + len <= |file| ==> b == file[from..from + len];
    b
  }

  lemma BytesAt(file: bytes, from: nat, len: nat, i: nat)
    requires i < len
    ensures Bytes(file, from, len)[i] == if from + i < |file| then file[from + i] else 0
  {
  }

  /** The size of the window for a request: the default one, no longer than the file, but no shorter than
      the request. */
  function WindowSize(fileSize: nat, defWindowSize: nat, start: nat, need: nat): int {
    var size := if start + defWindowSize > fileSize then fileSize - start else defWindowSize;
    if size < need then AlignedLength(need) else size
  }

  lemma WindowCovers(fileSize: nat, defWindowSize: nat, offset: nat, len: nat)
    requires offset + len <= fileSize && 0 < len
    ensures var fudge := AlignedOvershoot(offset);
      var size := WindowSize(fileSize, defWindowSize, offset - fudge, len + fudge);
      && size >= len + fudge
      && (len + fudge <= defWindowSize ==> size == Min(defWindowSize, fileSize - (offset - fudge)))
      && (offset - fudge + size > fileSize <==>
            len + fudge > defWindowSize && offset - fudge + AlignedLength(len + fudge) > fileSize)
  {
    hide AlignedOvershoot, AlignedLength;
  }

  class MapStruct {
    /** The descriptor: what the file holds, and where the next read starts. */
    const file: bytes
    var fdPos: nat
    const fileSize: nat
    const defWindowSize: nat
    var p: array<byte>
    var pOffset: nat
    var pLen: nat
    var pFdOffset: nat
    /** Whether a read has come to the end of the file too early. */
    var status: bool

    ghost predicate Valid()
      reads this, p
    {
      && fileSize == |file| && pLen <= p.Length && pFdOffset == fdPos
      && p[..pLen] == Bytes(file, pOffset, pLen)
    }

    /** map_file: the default window is made of whole blocks and of whole kilobytes. */
    constructor (file: bytes, readSize: nat, blkSize: nat)
      ensures Valid() && this.file == file && !status
      ensures readSize <= defWindowSize && defWindowSize % ALIGN_BOUNDRY == 0
      ensures defWindowSize == AlignedLength(if blkSize != 0 && readSize % blkSize != 0
                                             then readSize + (blkSize - readSize % blkSize) else readSize)
      ensures pOffset == pLen == 0 && fresh(p)
    {
      var size := readSize;
      if blkSize != 0 && size % blkSize != 0 {
        size := size + (blkSize - size % blkSize);
      }
      this.file, fileSize := file, |file|;
      defWindowSize := AlignedLength(size);
      p := new byte[0];
      pOffset, pLen, pFdOffset, fdPos, status := 0, 0, 0, 0, false;
      new;
      assert p[..0] == Bytes(file, 0, 0);
    }

    /** Whether the window holds what is asked for. */
    predicate Cached(offset: nat, len: nat)
      reads this
    {
      offset >= pOffset && offset + len <= pOffset + pLen
    }

    /** map_ptr: where in the buffer the bytes asked for stand. The file's end is met only by a request that
        does not fit in the default window. */
    method MapPtr(offset: nat, len: nat) returns (at: nat)
      requires Valid() && 0 < len && offset + len <= |file|
      modifies this, p
      ensures Valid() && (p == old(p) || fresh(p))
      ensures at + len <= p.Length && p[at..at + len] == file[offset..offset + len]
      ensures len + AlignedOvershoot(offset) <= defWindowSize ==> status == old(status)
      ensures status == (old(status) || (!old(Cached(offset, len)) && pOffset + pLen > |file|))
      ensures old(Cached(offset, len)) ==>
        fdPos == old(fdPos) && pOffset == old(pOffset) && pLen == old(pLen) && p == old(p)
      ensures !old(Cached(offset, len)) ==>
        && pOffset == offset - AlignedOvershoot(offset)
        && pLen == WindowSize(fileSize, defWindowSize, pOffset, len + AlignedOvershoot(offset))
    {
      hide Bytes, AlignedOvershoot, WindowSize;
      if offset >= pOffset && offset + len <= pOffset + pLen {
        at := offset - pOffset;
        PartOfWindow(file, p[..], pOffset, pLen, at, len);
        return;
      }
      at := Slide(offset, len);
      PartOfWindow(file, p[..], pOffset, pLen, at, len);
    }

    /** Moves the window so that it covers a request, and fills it. */
    method Slide(offset: nat, len: nat) returns (at: nat)
      requires Valid() && 0 < len && offset + len <= |file| && !Cached(offset, len)
      modifies this, p
      ensures Valid() && (p == old(p) || fresh(p))
      ensures pOffset + at == offset && at + len <= pLen
      ensures len + AlignedOvershoot(offset) <= defWindowSize ==> pOffset + pLen <= |file|
      ensures status == (old(status) || pOffset + pLen > |file|)
      ensures pOffset == offset - AlignedOvershoot(offset)
      ensures pLen == WindowSize(fileSize, defWindowSize, pOffset, len + AlignedOvershoot(offset))
    {
      hide Bytes, AlignedOvershoot, WindowSize;
      var alignFudge := AlignedOvershoot(offset);
      var windowStart := offset - alignFudge;
      WindowCovers(fileSize, defWindowSize, offset, len);
      var windowSize: nat := WindowSize(fileSize, defWindowSize, windowStart, len + alignFudge);
      Reserve(windowSize);
      var readOffset := Reuse(windowStart, windowSize);
      var readStart, readSize := windowStart + readOffset, windowSize - readOffset;
      assert readSize > 0;
      if pFdOffset != readStart {
        fdPos := readStart;
        pFdOffset := readStart;
      }
      pOffset, pLen := windowStart, windowSize;
      FillWindow(readOffset, readSize);
      at := alignFudge;
    }

    /** realloc: makes room and keeps what is there. */
    method Reserve(size: nat)
      requires Valid()
      modifies this`p
      ensures Valid() && (p == old(p) || fresh(p)) && p.Length >= size
    {
      if size > p.Length {
        var q := new byte[size](i => 0);
        forall i | 0 <= i < pLen {
          q[i] := p[i];
        }
        ghost var was := p[..pLen];
        p := q;
        assert p[..pLen] == was;
      }
    }

    /** Moves bytes of the last window that the new one can use to its start. */
    method Reuse(windowStart: nat, windowSize: nat) returns (readOffset: nat)
      requires Valid() && windowSize <= p.Length
      modifies p
      ensures readOffset <= windowSize
      ensures readOffset > 0 ==> windowStart >= pOffset && windowStart + readOffset == pOffset + pLen
      ensures p[..readOffset] == Bytes(file, windowStart, readOffset)
    {
      if windowStart >= pOffset && windowStart < pOffset + pLen && windowStart + windowSize >= pOffset + pLen {
        readOffset := pOffset + pLen - windowStart;
        ghost var was := p[..pLen];
        var from := pLen - readOffset;
        forall i | 0 <= i < readOffset {
          p[i] := p[from + i];
        }
        forall i | 0 <= i < readOffset
          ensures p[i] == Bytes(file, windowStart, readOffset)[i]
        {
          assert p[i] == was[from + i];
          BytesAt(file, pOffset, pLen, from + i);
          BytesAt(file, windowStart, readOffset, i);
        }
      } else {
        readOffset := 0;
      }
    }

    /** Reads the rest of the window, some bytes at a time. What is missing at the end of the file is made
        zero. */
    method FillWindow(readOffset0: nat, readSize0: nat)
      requires fileSize == |file| && pFdOffset == fdPos == pOffset + readOffset0
      requires readOffset0 + readSize0 == pLen <= p.Length
      requires p[..readOffset0] == Bytes(file, pOffset, readOffset0)
      modifies this`fdPos, this`pFdOffset, this`status, p
      ensures Valid()
      ensures status == (old(status) || (readSize0 > 0 && pOffset + pLen > |file|))
    {
      hide Bytes;
      var readOffset, readSize := readOffset0, readSize0;
      while readSize > 0
        invariant readOffset0 <= readOffset && 0 <= readSize && readOffset + readSize == pLen
        invariant pFdOffset == fdPos == pOffset + readOffset
        invariant p[..readOffset] == Bytes(file, pOffset, readOffset)
        invariant status == old(status)
        invariant readOffset > readOffset0 ==> fdPos <= |file|
        decreases readSize
      {
        ghost var had := p[..readOffset];
        var nread := Read(readOffset, readSize);
        if nread == 0 {
          status := true;
          forall i | readOffset <= i < readOffset + readSize {
            p[i] := 0;
          }
          assert p[..readOffset] == had;
          ZeroTail(file, pOffset, readOffset, p[..pLen]);
          break;
        }
        MoreBytes(file, pOffset, readOffset, nread);
        Extended(had, p[..], readOffset, nread);
        pFdOffset := pFdOffset + nread;
        readOffset := readOffset + nread;
        readSize := readSize - nread;
      }
    }

    /** One read(2) into the buffer: some of the bytes asked for, none only at the end of the file. */
    method Read(at: nat, len: nat) returns (nread: nat)
      requires 0 < len && at + len <= p.Length
      modifies this`fdPos, p
      ensures nread <= len && fdPos == old(fdPos) + nread
      ensures nread == 0 <==> old(fdPos) >= |file|
      ensures nread > 0 ==> fdPos <= |file|
      ensures forall i :: 0 <= i < p.Length && !(at <= i < at + nread) ==> p[i] == old(p[i])
      ensures nread > 0 ==> p[at..at + nread] == file[old(fdPos)..fdPos]
    {
      if fdPos >= |file| {
        return 0;
      }
      nread :| 0 < nread <= len && nread <= |file| - fdPos;
      forall i | 0 <= i < nread {
        p[at + i] := file[fdPos + i];
      }
      fdPos := fdPos + nread;
    }
  }

  const MAX_MAP_SIZE: nat := 256 * 1024

  /** A run that sets the error status of an intact file of some 64 GB: the generator asks for its blocks one by
      one, in the length that the square root of its own gives before protocol 30. The window for 256 KB is
      rounded up to a whole block and to whole kilobytes; the last block does not fit behind what it is out of
      alignment by. */
  method StatusOfIntactFile(file: bytes) returns (m: MapStruct)
    requires |file| == 262196 * 262184
    ensures 262184 % 8 == 0 && 262184 * 262184 <= |file| < 262192 * 262192
    ensures fresh(m) && m.Valid() && m.file == file && m.status
  {
    hide Bytes, WindowSize, AlignedLength, AlignedOvershoot;
    LastWindow();
    m := new MapStruct(file, MAX_MAP_SIZE, 262184);
    assert m.defWindowSize == 263168;
    var i := 0;
    while i < 262195
      invariant i <= 262195 && fresh(m) && fresh(m.p) && m.Valid() && m.file == file
      invariant m.pOffset + m.pLen <= i * 262184 + 2008
    {
      WindowIsSmall(|file|, i * 262184);
      var at := m.MapPtr(i * 262184, 262184);
      i := i + 1;
    }
    var at := m.MapPtr(262195 * 262184, 262184);
  }

  lemma WindowIsSmall(fileSize: nat, offset: nat)
    requires offset + 262184 <= fileSize
    ensures var start := offset - AlignedOvershoot(offset);
      start + WindowSize(fileSize, 263168, start, offset - start + 262184) <= offset + 264192
  {
  }

  lemma LastWindow()
    ensures var size, offset := 262196 * 262184, 262195 * 262184;
      && AlignedLength(262184) == 263168 && AlignedOvershoot(offset) == 1016
      && offset - 1016 + WindowSize(size, 263168, offset - 1016, 1016 + 262184) > size
  {
    assert AlignedLength(263200) == 264192;
  }

  lemma PartOfWindow(file: bytes, buf: bytes, from: nat, size: nat, at: nat, len: nat)
    requires size <= |buf| && buf[..size] == Bytes(file, from, size)
    requires at + len <= size && from + at + len <= |file|
    ensures buf[at..at + len] == file[from + at..from + at + len]
  {
    var x, y := buf[at..at + len], file[from + at..from + at + len];
    forall i | 0 <= i < len
      ensures x[i] == y[i]
    {
      BytesAt(file, from, size, at + i);
      assert x[i] == buf[at + i] == buf[..size][at + i];
      assert y[i] == file[from + at + i];
    }
  }

  lemma Extended(had: bytes, buf: bytes, n: nat, k: nat)
    requires n + k <= |buf| && |had| == n && forall i :: 0 <= i < n ==> buf[i] == had[i]
    ensures buf[..n + k] == had + buf[n..n + k]
  {
  }

  /** Behind the end of the file there are zeros. */
  lemma ZeroTail(file: bytes, from: nat, n: nat, w: bytes)
    requires n <= |w| && w[..n] == Bytes(file, from, n) && |file| <= from + n
    requires forall i :: n <= i < |w| ==> w[i] == 0
    ensures w == Bytes(file, from, |w|)
  {
    forall i | 0 <= i < |w|
      ensures w[i] == Bytes(file, from, |w|)[i]
    {
      assert i < n ==> w[i] == w[..n][i];
    }
  }

  /** A window with more of the file read in. */
  lemma MoreBytes(file: bytes, from: nat, n: nat, k: nat)
    requires from + n + k <= |file|
    ensures Bytes(file, from, n) + file[from + n..from + n + k] == Bytes(file, from, n + k)
  {
  }
}
