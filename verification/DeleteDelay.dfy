/** generator.c: names to be deleted later wait in a buffer, and in a temporary file when that is full. */
module DeleteDelay {
  import opened Basics

  const BANG: byte := 0x21
  const SPACE: byte := 0x20

  const BIGPATHBUFLEN: nat := MAXPATHLEN + 1024

  /** The size the buffer is given. */
  const DELDELAY_SIZE: nat := BIGPATHBUFLEN * 4

  /** A file to delete; `noUidWrite` stands for DEL_NO_UID_WRITE. */
  datatype Record = Record(mode: nat, name: bytes, noUidWrite: bool)

  ghost predicate GoodRecord(r: Record) {
    r.mode < 0x8000_0000 && NulFree(r.name) && |r.name| < MAXPATHLEN
  }

  // ----- a line: "%x %s" behind an optional "!"

  function HexDigit(d: nat): byte
    requires d < 16
  {
    if d < 10 then 0x30 + d else 0x57 + d
  }

  predicate IsHexDigit(b: byte) {
    0x30 <= b <= 0x39 || 0x61 <= b <= 0x66 || 0x41 <= b <= 0x46
  }

  function DigitValue(b: byte): nat
    requires IsHexDigit(b)
  {
    if b <= 0x39 then b - 0x30 else if b >= 0x61 then b - 0x57 else b - 0x37
  }

  function Hex(n: nat): (h: bytes)
    ensures h != [] && forall i :: 0 <= i < |h| ==> IsHexDigit(h[i])
    ensures forall i :: 0 <= i < |h| ==> h[i] != 0 && h[i] != SPACE && h[i] != BANG
  {
    if n < 16 then [HexDigit(n)] else Hex(n / 16) + [HexDigit(n % 16)]
  }

  function Power16(d: nat): (p: nat)
    ensures p > 0
  {
    if d == 0 then 1 else 16 * Power16(d - 1)
  }

  lemma {:induction false} HexLength(n: nat, d: nat)
    requires n < Power16(d) && d > 0
    ensures |Hex(n)| <= d
  {
    assert Power16(1) == 16;
    if n >= 16 {
      HexLength(n / 16, d - 1);
    }
  }

  /** How many hex digits a line begins with. */
  function Digits(s: bytes): (n: nat)
    ensures n <= |s|
    ensures forall i :: 0 <= i < n ==> IsHexDigit(s[i])
  {
    if s == [] || !IsHexDigit(s[0]) then 0 else
      var n := Digits(s[1..]);
      assert forall i :: 0 <= i < n + 1 ==> IsHexDigit(s[i]) by {
        forall i | 0 <= i < n + 1 ensures IsHexDigit(s[i]) { assert i > 0 ==> s[i] == s[1..][i - 1]; }
      }
      1 + n
  }

  function HexValue(h: bytes): nat
    requires forall i :: 0 <= i < |h| ==> IsHexDigit(h[i])
  {
    if h == [] then 0 else HexValue(h[..|h| - 1]) * 16 + DigitValue(h[|h| - 1])
  }

  lemma {:induction false} HexBack(n: nat)
    ensures HexValue(Hex(n)) == n
  {
    if n >= 16 {
      HexBack(n / 16);
      assert Hex(n)[..|Hex(n)| - 1] == Hex(n / 16);
    } else {
      assert Hex(n)[..0] == [];
    }
  }

  lemma {:induction false} DigitsOf(h: bytes, rest: bytes)
    requires forall i :: 0 <= i < |h| ==> IsHexDigit(h[i])
    requires rest != [] && !IsHexDigit(rest[0])
    ensures Digits(h + rest) == |h|
  {
    if h == [] {
      assert h + rest == rest;
    } else {
      assert (h + rest)[1..] == h[1..] + rest;
      DigitsOf(h[1..], rest);
    }
  }

  /** What remember_delete stores behind the "!". */
  function Body(r: Record): bytes {
    Hex(r.mode) + ([SPACE] + (r.name + [0]))
  }

  function Encode(r: Record): bytes {
    (if r.noUidWrite then [BANG] else []) + Body(r)
  }

  function EncodeAll(rs: seq<Record>): bytes {
    Concat(Encode, rs)
  }

  lemma RecordsAppend(rs: seq<Record>, r: Record)
    ensures EncodeAll(rs + [r]) == EncodeAll(rs) + Encode(r)
  {
    ConcatAppend(Encode, rs, r);
  }

  /** What comes of one call: a record, or -1 at the end of the queue and for invalid data. */
  datatype Line = Stop | Read(r: Record)

  /** Where the first space is; strchr. */
  function SpaceAt(s: bytes): (n: nat)
    ensures n <= |s| && (n < |s| ==> s[n] == SPACE)
  {
    if s == [] || s[0] == SPACE then 0 else 1 + SpaceAt(s[1..])
  }

  /** What read_delay_line makes of a line, without its NUL. What it takes for the length of the name includes
      the NUL, and a "!" at the start of the line. */
  function Decode(line: bytes): Line {
    var bang := line != [] && line[0] == BANG;
    var bp := if bang then line[1..] else line;
    var n := Digits(bp);
    var space := SpaceAt(bp);
    if n == 0 || space == |bp| then Stop
    else if |line| - space > MAXPATHLEN then Stop
    else Read(Record(HexValue(bp[..n]), bp[space + 1..], bang))
  }

  lemma {:induction false} SpaceOf(h: bytes, rest: bytes)
    requires forall i :: 0 <= i < |h| ==> h[i] != SPACE
    requires rest != [] && rest[0] == SPACE
    ensures SpaceAt(h + rest) == |h|
  {
    if h == [] {
      assert h + rest == rest;
    } else {
      assert (h + rest)[1..] == h[1..] + rest;
      SpaceOf(h[1..], rest);
    }
  }

  /** A record without its NUL. */
  function LineOf(r: Record): bytes {
    (if r.noUidWrite then [BANG] else []) + (Hex(r.mode) + ([SPACE] + r.name))
  }

  lemma EncodeIsLine(r: Record)
    requires GoodRecord(r)
    ensures Encode(r) == LineOf(r) + [0] && NulFree(LineOf(r))
  {
  }

  lemma BareLine(h: bytes, name: bytes)
    requires h != [] && forall i :: 0 <= i < |h| ==> IsHexDigit(h[i]) && h[i] != SPACE
    ensures var bp := h + ([SPACE] + name);
      && Digits(bp) == |h| == SpaceAt(bp) < |bp| && |bp| - |h| == |name| + 1
      && bp[..|h|] == h && bp[|h| + 1..] == name && bp[0] == h[0]
  {
    hide Digits, SpaceAt;
    DigitsOf(h, [SPACE] + name);
    SpaceOf(h, [SPACE] + name);
  }

  /** Whether the name is short enough to be read back: its NUL and a "!" are counted. */
  predicate ShortEnough(r: Record) {
    |r.name| + 1 + (if r.noUidWrite then 1 else 0) <= MAXPATHLEN
  }

  lemma DecodeLine(r: Record)
    requires GoodRecord(r)
    ensures Decode(LineOf(r)) == if ShortEnough(r) then Read(r) else Stop
  {
    hide Digits, SpaceAt, Hex, HexValue;
    var h := Hex(r.mode);
    var bp := h + ([SPACE] + r.name);
    BareLine(h, r.name);
    HexBack(r.mode);
    assert ([BANG] + bp)[1..] == bp && [] + bp == bp;
  }

  /** Every record fits in the buffer, with room to spare. */
  lemma RecordFits(r: Record)
    requires GoodRecord(r)
    ensures |Body(r)| < |Encode(r)| + 1 <= MAXPATHLEN + 11 < DELDELAY_SIZE
  {
    assert Power16(2) == 0x100 && Power16(4) == 0x1_0000 && Power16(6) == 0x100_0000;
    assert Power16(8) == 0x1_0000_0000;
    HexLength(r.mode, 8);
  }

  // ----- the queue

  /** The records up to the first one whose name is too long. */
  function Readable(rs: seq<Record>): seq<Record> {
    if rs == [] || !ShortEnough(rs[0]) then [] else [rs[0]] + Readable(rs[1..])
  }

  /** These are the records in front of the first one whose name has no room beside its NUL and its "!". */
  lemma {:induction false} ReadableFront(rs: seq<Record>)
    ensures var front := Readable(rs);
      && front <= rs
      && (forall i :: 0 <= i < |front| ==>
            |rs[i].name| <= MAXPATHLEN - if rs[i].noUidWrite then 2 else 1)
      && (front == rs || |rs[|front|].name| > MAXPATHLEN - if rs[|front|].noUidWrite then 2 else 1)
  {
    if rs != [] && ShortEnough(rs[0]) {
      ReadableFront(rs[1..]);
      var front := Readable(rs[1..]);
      assert Readable(rs) == [rs[0]] + front;
      assert rs == [rs[0]] + rs[1..];
      forall i | 0 <= i < 1 + |front|
        ensures |rs[i].name| <= MAXPATHLEN - if rs[i].noUidWrite then 2 else 1
      {
        assert i > 0 ==> rs[i] == rs[1..][i - 1];
      }
    }
  }

  ghost predicate AllGood(rs: seq<Record>) {
    forall i :: 0 <= i < |rs| ==> GoodRecord(rs[i])
  }

  /** If all names are short enough, all records can be read; and the other way round. */
  lemma {:induction false} ReadableAll(rs: seq<Record>)
    ensures Readable(rs) == rs <==> forall i :: 0 <= i < |rs| ==> ShortEnough(rs[i])
  {
    hide ShortEnough;
    if rs != [] {
      ReadableAll(rs[1..]);
      assert rs == [rs[0]] + rs[1..];
      assert forall i :: 0 <= i < |rs[1..]| ==> rs[1..][i] == rs[i + 1];
      assert forall i :: 0 < i < |rs| ==> rs[i] == rs[1..][i - 1];
    }
  }

  /** A name of the greatest length can be remembered with a "!" but not read back, and nothing behind it can;
      without the "!" it is. */
  lemma LongNameIsLost(mode: nat, rs: seq<Record>)
    requires mode < 0x8000_0000
    ensures var r := Record(mode, seq(MAXPATHLEN - 1, _ => 0x61), true);
      && GoodRecord(r) && Readable([r] + rs) == []
      && Readable([r.(noUidWrite := false)] + rs) == [r.(noUidWrite := false)] + Readable(rs)
  {
    var r := Record(mode, seq(MAXPATHLEN - 1, _ => 0x61), true);
    assert ([r.(noUidWrite := false)] + rs)[1..] == rs;
  }

  class DelayQueue {
    const buf: array<byte>
    var cnt: nat
    var readPos: nat
    /** The temporary file, once there is one, and where reading it has got to. */
    var spilled: bool
    var file: bytes
    var filePos: nat
    /** All records that have been remembered, and those that have not been read. */
    ghost var records: seq<Record>
    ghost var todo: seq<Record>

    /** What is still to be read. */
    ghost function Left(): bytes
      requires readPos <= cnt <= buf.Length && filePos <= |file|
      reads this, buf
    {
      buf[readPos..cnt] + file[filePos..]
    }

    /** While records are remembered: file and buffer together hold them all. */
    ghost predicate Filling()
      reads this, buf
    {
      && cnt <= buf.Length == DELDELAY_SIZE && readPos == 0 && filePos == 0
      && (!spilled ==> file == [])
      && file + buf[..cnt] == EncodeAll(records)
      && AllGood(records)
    }

    /** While they are read. */
    ghost predicate Draining()
      reads this, buf
    {
      && readPos <= cnt <= buf.Length == DELDELAY_SIZE && filePos <= |file|
      && (!spilled ==> file == [])
      && Left() == EncodeAll(todo)
      && AllGood(todo)
    }

    constructor ()
      ensures Filling() && records == [] && fresh(buf)
    {
      buf := new byte[DELDELAY_SIZE](i => 0);
      cnt, readPos, spilled, file, filePos, records, todo := 0, 0, false, [], 0, [], [];
      new;
      assert buf[..0] == [];
    }

    /** All bytes that have been stored, in the file and in the buffer. */
    ghost function Stored(): bytes
      requires cnt <= buf.Length
      reads this, buf
    {
      file + buf[..cnt]
    }

    /** flush_delete_delay */
    method Flush()
      requires cnt <= buf.Length
      modifies this`spilled, this`file, this`cnt
      ensures cnt == 0 && spilled && Stored() == old(Stored())
    {
      spilled := true;
      file := file + buf[..cnt];
      cnt := 0;
      assert file + buf[..0] == file;
    }

    method Put(b: byte)
      requires cnt < buf.Length
      modifies buf, this`cnt
      ensures cnt == old(cnt) + 1 && Stored() == old(Stored()) + [b]
    {
      ghost var had := buf[..cnt];
      buf[cnt] := b;
      cnt := cnt + 1;
      assert buf[..cnt] == had + [b];
      AppendAssoc(file, had, [b]);
    }

    /** snprintf into the rest of the buffer: returns how long the text is. If it does not fit it is cut off,
        and ends in a NUL all the same. */
    method Print(text: bytes) returns (len: nat)
      requires cnt <= buf.Length && text != [] && text[|text| - 1] == 0
      modifies buf
      ensures len == |text| && Stored() == old(Stored())
      ensures cnt + len <= buf.Length ==> file + buf[..cnt + len] == old(Stored()) + text
    {
      len := |text|;
      ghost var had := buf[..cnt];
      var room := buf.Length - cnt;
      forall i | 0 <= i < Min(len, room) {
        buf[cnt + i] := if i == room - 1 then 0 else text[i];
      }
      assert buf[..cnt] == had;
      if cnt + len <= buf.Length {
        assert buf[..cnt + len] == had + text;
        AppendAssoc(file, had, text);
      }
    }

    /** Prints a text, after a flush if it does not fit. */
    method Append(text: bytes)
      requires cnt <= buf.Length && text != [] && text[|text| - 1] == 0 && |text| <= buf.Length
      requires !spilled ==> file == []
      modifies this`spilled, this`file, this`cnt, buf
      ensures cnt <= buf.Length && Stored() == old(Stored()) + text && (!spilled ==> file == [])
      ensures old(cnt) + |text| <= buf.Length ==> file == old(file) && spilled == old(spilled)
    {
      ghost var all := Stored();
      var len := Print(text);
      while cnt + len > buf.Length
        invariant cnt <= buf.Length && len == |text| && Stored() == all && (!spilled ==> file == [])
        invariant cnt + len <= buf.Length ==> file + buf[..cnt + len] == all + text
        invariant (cnt == old(cnt) && file == old(file) && spilled == old(spilled)) || old(cnt) + len > buf.Length
        decreases cnt
      {
        Flush();
        len := Print(text);
      }
      cnt := cnt + len;
    }

    /** remember_delete: what is in the way goes to the file, and only then. */
    method RememberDelete(r: Record)
      requires Filling() && GoodRecord(r)
      modifies this, buf
      ensures Filling() && records == old(records) + [r]
      ensures old(cnt) + |Encode(r)| <= buf.Length ==> file == old(file) && spilled == old(spilled)
    {
      hide Body, EncodeAll, GoodRecord, Encode;
      assert |Body(r)| <= buf.Length by { RecordFits(r); }
      EncodeLength(r);
      if cnt == buf.Length {
        Flush();
      }
      if r.noUidWrite {
        Put(BANG);
      }
      ghost var all := Stored();
      BodyEnds(r);
      Append(Body(r));
      RecordsAppend(records, r);
      Assembled(EncodeAll(records), r);
      records := records + [r];
    }

    /** memmove of what has not been read to the start of the buffer. */
    method MoveDown()
      requires readPos <= cnt <= buf.Length && filePos <= |file|
      modifies this`readPos, this`cnt, buf
      ensures readPos == 0 && cnt == old(cnt - readPos) && Left() == old(Left())
    {
      ghost var had := buf[readPos..cnt];
      var n, from := cnt - readPos, readPos;
      if n > 0 && from > 0 {
        forall i | 0 <= i < n {
          buf[i] := buf[from + i];
        }
      }
      cnt, readPos := n, 0;
      assert buf[..cnt] == had;
    }

    /** One read(2): some bytes of the file, none only at its end. */
    method ReadSome() returns (len: nat)
      requires readPos == 0 && cnt < buf.Length && filePos <= |file|
      modifies this`filePos, this`cnt, buf
      ensures cnt == old(cnt) + len <= buf.Length && filePos == old(filePos) + len <= |file|
      ensures Left() == old(Left()) && (len == 0 <==> old(filePos) == |file|)
    {
      if filePos == |file| {
        return 0;
      }
      len :| 0 < len <= buf.Length - cnt && len <= |file| - filePos;
      ghost var had, more := buf[..cnt], file[filePos..filePos + len];
      forall i | 0 <= i < len {
        buf[cnt + i] := file[filePos + i];
      }
      assert buf[..cnt + len] == had + more;
      MoreOf(had, file, filePos, filePos + len);
      cnt, filePos := cnt + len, filePos + len;
      assert buf[0..cnt] == buf[..cnt];
    }

    /** The line at the read position: looks for a NUL, and reads on from the file, some bytes at a time,
        until there is one, or no more bytes, or no more room. */
    method FindLine() returns (found: bool, j: nat)
      requires 0 < buf.Length && readPos <= cnt <= buf.Length && filePos <= |file| && (!spilled ==> file == [])
      modifies this`readPos, this`cnt, this`filePos, buf
      ensures readPos <= cnt <= buf.Length && filePos <= |file| && Left() == old(Left())
      ensures found ==> readPos <= j < cnt && buf[j] == 0 && NulFree(buf[readPos..j])
      ensures !found ==> NulFree(Left()) || (|Left()| >= buf.Length && NulFree(Left()[..buf.Length]))
    {
      while true
        invariant readPos <= cnt <= buf.Length && filePos <= |file| && Left() == old(Left())
        decreases |file| - filePos
      {
        j := readPos;
        while j < cnt && buf[j] != 0
          invariant readPos <= j <= cnt && forall i :: readPos <= i < j ==> buf[i] != 0
        {
          j := j + 1;
        }
        if j < cnt {
          found := true;
          return;
        }
        NoNul(buf[readPos..cnt], file[filePos..]);
        if !spilled || cnt - readPos == buf.Length {
          return false, j;
        }
        MoveDown();
        var len := ReadSome();
        if len == 0 {
          return false, j;
        }
      }
    }

    /** read_delay_line: the next record, if its name is not too long. */
    method ReadDelayLine() returns (line: Line)
      requires Draining()
      modifies this, buf
      ensures records == old(records) && (line.Read? ==> Draining())
      ensures if old(todo) != [] && ShortEnough(old(todo)[0])
              then line == Read(old(todo)[0]) && todo == old(todo)[1..]
              else line == Stop
    {
      hide EncodeAll, GoodRecord, Encode, Decode, LineOf, ShortEnough;
      ghost var rem := Left();
      var found, j := FindLine();
      if !found {
        NotFound(todo, rem);
        return Stop;
      }
      ghost var w, f := buf[readPos..cnt], file[filePos..];
      assert buf[readPos..j] == w[..j - readPos];
      FirstLine(todo, w, f, j - readPos);
      assert w[j - readPos + 1..] == buf[j + 1..cnt];
      line := Decode(buf[readPos..j]);
      readPos := j + 1;
      todo := todo[1..];
    }

    /** Spills the rest if there is a file, and goes back to its start. */
    method Rewind()
      requires Filling()
      modifies this, buf
      ensures Draining() && todo == old(records)
    {
      hide EncodeAll, AllGood;
      if spilled {
        if cnt != 0 {
          Flush();
        }
        filePos := 0;
      }
      todo := records;
      assert buf[0..cnt] == buf[..cnt] && file[0..] == file;
      if spilled {
        assert file + [] == file && [] + file == file && buf[..0] == [];
      } else {
        assert [] + buf[..cnt] == buf[..cnt] && buf[..cnt] + [] == buf[..cnt];
      }
    }

    /** do_delayed_deletions: spills the rest if there is a file, and deletes what can be read. That is everything,
        unless a name is too long: with its NUL, and the "!" if there is one, it has to have room in a path. Then
        it is what stands in front of the first such record. */
    method DoDelayedDeletions() returns (deleted: seq<Record>)
      requires Filling()
      modifies this, buf
      ensures deleted <= old(records)
      ensures forall i :: 0 <= i < |deleted| ==>
        |deleted[i].name| <= MAXPATHLEN - if deleted[i].noUidWrite then 2 else 1
      ensures deleted == old(records) ||
        var next := old(records)[|deleted|];
        |next.name| > MAXPATHLEN - if next.noUidWrite then 2 else 1
    {
      hide EncodeAll, AllGood, ShortEnough, Draining;
      ReadableFront(records);
      Rewind();
      deleted := [];
      ghost var rs := todo;
      while true
        invariant Draining()
        invariant deleted + Readable(todo) == Readable(rs)
        decreases |todo|
      {
        ghost var had := todo;
        var line := ReadDelayLine();
        if line.Stop? {
          assert deleted + [] == deleted;
          return;
        }
        AppendAssoc(deleted, [line.r], Readable(todo));
        deleted := deleted + [line.r];
      }
    }
  }

  /** Bytes of the file that have been read come before the rest of it. */
  lemma MoreOf(had: bytes, file: bytes, from: nat, to: nat)
    requires from <= to <= |file|
    ensures (had + file[from..to]) + file[to..] == had + file[from..]
  {
    AppendAssoc(had, file[from..to], file[to..]);
    assert file[from..] == file[from..to] + file[to..];
  }

  /** Without a NUL in what the buffer holds, there is none up to there in what is left. */
  lemma NoNul(w: bytes, f: bytes)
    requires NulFree(w)
    ensures NulFree((w + f)[..|w|]) && (f == [] ==> NulFree(w + f))
  {
  }

  /** If no line is found, there is no record. */
  lemma NotFound(todo: seq<Record>, rem: bytes)
    requires AllGood(todo) && rem == EncodeAll(todo)
    requires NulFree(rem) || (|rem| >= DELDELAY_SIZE && NulFree(rem[..DELDELAY_SIZE]))
    ensures todo == []
  {
    if todo != [] {
      FirstNul(todo, rem);
    }
  }

  /** What is left of a queue has a NUL that is soon found. */
  lemma FirstNul(todo: seq<Record>, rem: bytes)
    requires todo != [] && AllGood(todo) && rem == EncodeAll(todo)
    ensures !NulFree(rem) && (|rem| >= DELDELAY_SIZE ==> !NulFree(rem[..DELDELAY_SIZE]))
  {
    hide Encode, LineOf, Body;
    var n := |LineOf(todo[0])|;
    EncodeIsLine(todo[0]);
    RecordFits(todo[0]);
    assert rem == (LineOf(todo[0]) + [0]) + EncodeAll(todo[1..]);
    assert rem[n] == 0;
    if |rem| >= DELDELAY_SIZE {
      assert rem[..DELDELAY_SIZE][n] == 0;
    }
  }

  /** The first line of what is left is the first record, and fits in the buffer. */
  lemma FirstLine(todo: seq<Record>, w: bytes, f: bytes, n: nat)
    requires AllGood(todo) && w + f == EncodeAll(todo)
    requires n < |w| && w[n] == 0 && NulFree(w[..n])
    ensures todo != [] && |Encode(todo[0])| == n + 1
    ensures Decode(w[..n]) == if ShortEnough(todo[0]) then Read(todo[0]) else Stop
    ensures w[n + 1..] + f == EncodeAll(todo[1..]) && AllGood(todo[1..])
  {
    hide Encode, LineOf, Decode;
    assert todo != [];
    var r := todo[0];
    EncodeIsLine(r);
    DecodeLine(r);
    LineEnds(LineOf(r), EncodeAll(todo[1..]), w, f, n);
  }

  /** There is one way only to cut a line at its first NUL. */
  lemma LineEnds(line: bytes, more: bytes, w: bytes, f: bytes, n: nat)
    requires (line + [0]) + more == w + f && NulFree(line)
    requires n < |w| && w[n] == 0 && NulFree(w[..n])
    ensures |line| == n && w[..n] == line && w[n + 1..] + f == more
  {
    var all := w + f;
    assert all[|line|] == 0 && all[n] == 0;
    assert forall i :: 0 <= i < n ==> all[i] == w[..n][i] != 0;
    assert forall i :: 0 <= i < |line| ==> all[i] == line[i] != 0;
    assert all[..n] == w[..n] && all[..|line|] == line;
    assert all[n + 1..] == w[n + 1..] + f && all[|line| + 1..] == more;
  }

  lemma EncodeLength(r: Record)
    ensures |Encode(r)| == |Body(r)| + if r.noUidWrite then 1 else 0
    ensures |Body(r)| > 0
  {
  }

  lemma BodyEnds(r: Record)
    ensures Body(r) != [] && Body(r)[|Body(r)| - 1] == 0
  {
  }

  lemma Assembled(before: bytes, r: Record)
    ensures (before + (if r.noUidWrite then [BANG] else [])) + Body(r) == before + Encode(r)
    ensures before + [] == before
  {
    AppendAssoc(before, if r.noUidWrite then [BANG] else [], Body(r));
  }
}
