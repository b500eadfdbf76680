/** flist.c: how a file-list entry goes over the wire, leaving out what it shares with the entry before,
    from protocol 30 on. */
module FileEntry {
  import opened Basics
  import opened Wire
  import opened Varint

  const S_IFREG: nat := 8
  const S_IFDIR: nat := 4
  const S_IFLNK: nat := 10

  /** The options both ends agree on. */
  datatype Options = Options(preserveUid: bool, preserveGid: bool, preserveLinks: bool, protocol31: bool,
                             safeFlist: bool)

  /** A file as the list holds it. */
  datatype Entry = Entry(name: bytes, mode: nat, length: int, modtime: int, nsec: int, uid: nat, gid: nat,
                         link: bytes, topDir: bool, contentDir: bool, impliedDir: bool)

  function FileType(mode: nat): nat { mode / 0x1000 }

  predicate IsReg(mode: nat) { FileType(mode) == S_IFREG }

  predicate IsDir(mode: nat) { FileType(mode) == S_IFDIR }

  predicate IsLink(mode: nat) { FileType(mode) == S_IFLNK }

  /** What an entry has room for: 64 bits of the length of a regular file, and 32 of any other. */
  function KeptLength(mode: nat, length: int): int {
    if IsReg(mode) then length else length % TWO_TO_THE_32
  }

  /** A regular file, directory or symlink in the ranges of the C types, with consistent flags. */
  ghost predicate Good(e: Entry) {
    && 0 < |e.name| < MAXPATHLEN && NulFree(e.name)
    && e.mode < 0x1_0000 && (IsReg(e.mode) || IsDir(e.mode) || IsLink(e.mode))
    && 0 <= e.length == KeptLength(e.mode, e.length) && Signed(e.length, 8)
    && Signed(e.modtime, 8)
    && 0 <= e.nsec && Signed(e.nsec, 4)
    && e.uid < TWO_TO_THE_32 && e.gid < TWO_TO_THE_32
    && (if IsLink(e.mode) then 0 < |e.link| < MAXPATHLEN && NulFree(e.link) else e.link == [])
    && (if IsDir(e.mode) then (e.topDir ==> e.contentDir) && (e.impliedDir ==> !e.contentDir)
        else !e.topDir && !e.contentDir && !e.impliedDir)
  }

  /** What the receiver is told of an entry. */
  function Told(o: Options, e: Entry): Entry {
    e.(uid := if o.preserveUid then e.uid else 0, gid := if o.preserveGid then e.gid else 0,
       nsec := if o.protocol31 then e.nsec else 0, link := if o.preserveLinks then e.link else [])
  }

  /** That is all of it if all options are on, and always name, mode, length, time and the marks of a directory. */
  lemma ToldIs(o: Options, e: Entry)
    ensures o.preserveUid && o.preserveGid && o.preserveLinks && o.protocol31 ==> Told(o, e) == e
    ensures var t := Told(o, e);
      && t.name == e.name && t.mode == e.mode && t.length == e.length && t.modtime == e.modtime
      && t.topDir == e.topDir && t.contentDir == e.contentDir && t.impliedDir == e.impliedDir
  {
  }

  /** The static variables of both ends. */
  datatype Last = Last(mode: nat, modtime: int, uid: nat, gid: nat, name: bytes)

  const START: Last := Last(0, 0, 0, 0, [])

  function After(o: Options, last: Last, e: Entry): Last {
    Last(e.mode, e.modtime, if o.preserveUid then e.uid else last.uid, if o.preserveGid then e.gid else last.gid,
         e.name)
  }

  // ----- flags

  /** The XMIT_* flags in use, by bit number; bits 9 to 12 stay clear for these entries. */
  datatype XFlags = XFlags(topDir: bool, sameMode: bool, sameUid: bool, sameGid: bool, sameName: bool,
                           longName: bool, sameTime: bool, noContentDir: bool, modNsec: bool)

  function PackBits(bits: seq<bool>): nat {
    if bits == [] then 0 else (if bits[0] then 1 else 0) + 2 * PackBits(bits[1..])
  }

  predicate TestBit(n: nat, k: nat) {
    if k == 0 then n % 2 == 1 else TestBit(n / 2, k - 1)
  }

  lemma {:induction false} TestPacked(bits: seq<bool>, k: nat)
    ensures TestBit(PackBits(bits), k) <==> k < |bits| && bits[k]
  {
    if bits == [] {
      if k > 0 {
        TestPacked(bits, k - 1);
      }
    } else if k > 0 {
      TestPacked(bits[1..], k - 1);
    }
  }

  lemma {:induction false} PackedZero(bits: seq<bool>)
    ensures PackBits(bits) == 0 <==> forall i :: 0 <= i < |bits| ==> !bits[i]
  {
    if bits != [] {
      PackedZero(bits[1..]);
      assert forall i :: 0 <= i < |bits[1..]| ==> bits[1..][i] == bits[i + 1];
      if !bits[0] && (forall i :: 0 <= i < |bits[1..]| ==> !bits[1..][i]) {
        forall i | 0 <= i < |bits| ensures !bits[i] { assert i > 0 ==> bits[i] == bits[1..][i - 1]; }
      }
    }
  }

  lemma {:induction false} BitsBound(bits: seq<bool>)
    ensures PackBits(bits) < Power2(|bits|)
  {
    if bits != [] {
      BitsBound(bits[1..]);
    }
  }

  /** The two flag bytes; bit 2 says that the second one is there. */
  function LowBits(x: XFlags, extended: bool): (bits: seq<bool>)
    ensures |bits| == 8
  {
    [x.topDir, x.sameMode, extended, x.sameUid, x.sameGid, x.sameName, x.longName, x.sameTime]
  }

  function HighBits(x: XFlags): (bits: seq<bool>)
    ensures |bits| == 8
  {
    [x.noContentDir, false, false, false, false, x.modNsec, false, false]
  }

  function Byte(bits: seq<bool>): byte
    requires |bits| == 8
  {
    BitsBound(bits);
    assert Power2(4) == 16 && Power2(8) == 256;
    PackBits(bits)
  }

  const NONE: XFlags := XFlags(false, false, false, false, false, false, false, false, false)

  /** One flag byte, or two if a flag of the second byte is set, or none at all. */
  function WriteFlags(x: XFlags): bytes {
    if x.noContentDir || x.modNsec || x == NONE then [Byte(LowBits(x, true)), Byte(HighBits(x))]
    else [Byte(LowBits(x, false))]
  }

  function FlagsFrom(low: byte, high: byte): XFlags {
    XFlags(TestBit(low, 0), TestBit(low, 1), TestBit(low, 3), TestBit(low, 4), TestBit(low, 5), TestBit(low, 6),
           TestBit(low, 7), TestBit(high, 0), TestBit(high, 5))
  }

  /** What the flag bytes announce: the end of the list, its end after an I/O error, or an entry. */
  datatype Announced = EndOfList | ErrorEnd | Flags(x: XFlags)

  const EXTENDED_FLAGS: byte := 4
  const IO_ERROR_ENDLIST_HIGH: byte := 16

  function ReadFlags(s: bytes): (r: Read<Announced>)
    ensures r.Got? ==> |r.rest| < |s|
  {
    if |s| < 1 then Fail
    else if s[0] == 0 then Got(EndOfList, s[1..])
    else if !TestBit(s[0], 2) then Got(Flags(FlagsFrom(s[0], 0)), s[1..])
    else if |s| < 2 then Fail
    else if s[0] == EXTENDED_FLAGS && s[1] == IO_ERROR_ENDLIST_HIGH then Got(ErrorEnd, s[2..])
    else Got(Flags(FlagsFrom(s[0], s[1])), s[2..])
  }

  lemma LowBack(x: XFlags, extended: bool)
    ensures var n := Byte(LowBits(x, extended));
      && TestBit(n, 0) == x.topDir && TestBit(n, 1) == x.sameMode && TestBit(n, 2) == extended
      && TestBit(n, 3) == x.sameUid && TestBit(n, 4) == x.sameGid && TestBit(n, 5) == x.sameName
      && TestBit(n, 6) == x.longName && TestBit(n, 7) == x.sameTime
  {
    hide PackBits, TestBit;
    var bits := LowBits(x, extended);
    TestPacked(bits, 0);
    TestPacked(bits, 1);
    TestPacked(bits, 2);
    TestPacked(bits, 3);
    TestPacked(bits, 4);
    TestPacked(bits, 5);
    TestPacked(bits, 6);
    TestPacked(bits, 7);
  }

  lemma HighBack(x: XFlags)
    ensures var n := Byte(HighBits(x));
      TestBit(n, 0) == x.noContentDir && TestBit(n, 5) == x.modNsec && !TestBit(n, 4)
  {
    hide PackBits, TestBit;
    TestPacked(HighBits(x), 0);
    TestPacked(HighBits(x), 4);
    TestPacked(HighBits(x), 5);
  }

  lemma FlagsBack(x: XFlags, extended: bool)
    ensures FlagsFrom(Byte(LowBits(x, extended)), Byte(HighBits(x))) == x
    ensures TestBit(Byte(LowBits(x, extended)), 2) <==> extended
    ensures !TestBit(Byte(HighBits(x)), 4)
    ensures Byte(LowBits(x, false)) == 0 <==> LowBits(x, false) == LowBits(NONE, false)
  {
    hide PackBits, TestBit, LowBits, HighBits;
    LowBack(x, extended);
    HighBack(x);
    NoneIsZero(x);
  }

  lemma NoneIsZero(x: XFlags)
    ensures Byte(LowBits(x, false)) == 0 <==> LowBits(x, false) == LowBits(NONE, false)
  {
    hide PackBits;
    PackedZero(LowBits(x, false));
  }

  lemma NoHighBits(k: nat)
    ensures !TestBit(0, k)
  {
    TestPacked([], k);
  }

  /** The flags of an entry are read back, and are never taken for an end of the list. */
  lemma ReadWriteFlags(x: XFlags, rest: bytes)
    ensures ReadFlags(WriteFlags(x) + rest) == Got(Flags(x), rest)
  {
    hide PackBits, Byte, TestBit;
    var two := x.noContentDir || x.modNsec || x == NONE;
    FlagsBack(x, two);
    FlagsBack(x, false);
    NoHighBits(0);
    NoHighBits(2);
    NoHighBits(5);
    SixteenIsBitFour();
    assert (WriteFlags(x) + rest)[|WriteFlags(x)|..] == rest;
  }

  lemma SixteenIsBitFour()
    ensures TestBit(16, 4)
  {
    assert TestBit(2, 1);
  }

  // ----- the name

  /** How many bytes, at most 255, the names have in common. */
  function Common(last: bytes, name: bytes, from: nat): (n: nat)
    requires from <= 255 && from <= |last| && from <= |name| && last[..from] == name[..from]
    ensures n <= 255 && n <= |last| && n <= |name| && last[..n] == name[..n]
    ensures n == 255 || n == |last| || n == |name| || last[n] != name[n]
    decreases |last| - from
  {
    if from < |last| && from < |name| && last[from] == name[from] && from < 255 then
      assert last[..from + 1] == last[..from] + [last[from]] && name[..from + 1] == name[..from] + [name[from]];
      Common(last, name, from + 1)
    else from
  }

  function Shared(last: bytes, name: bytes): (n: nat)
    ensures n <= 255 && n <= |last| && n <= |name| && last[..n] == name[..n]
  {
    Common(last, name, 0)
  }

  /** No more of the last name can be left out. */
  lemma SharedIsLongest(last: bytes, name: bytes)
    ensures var n := Shared(last, name);
      n == 255 || n == |last| || n == |name| || last[n] != name[n]
  {
  }

  function WriteName(last: bytes, name: bytes): bytes
    requires |name| < MAXPATHLEN
  {
    var l1 := Shared(last, name);
    var l2 := |name| - l1;
    (if l1 > 0 then [l1] else [])
    + ((if l2 > 255 then WriteLen(l2) else [l2])
       + name[l1..])
  }

  function WriteLen(n: nat): bytes
    requires n < 0x8000_0000
  {
    assert Power256(4) == 0x1_0000_0000;
    WriteNum(n, 4, 1)
  }

  function ReadByte(s: bytes): (r: Read<int>)
    ensures r.Got? ==> |r.rest| < |s|
  {
    if s == [] then Fail else Got(s[0], s[1..])
  }

  function ReadBytes(n: int, s: bytes): (r: Read<bytes>)
    ensures r.Got? ==> |r.rest| <= |s|
  {
    if 0 <= n <= |s| then Got(s[..n], s[n..]) else Fail
  }

  /** What a C string makes of bytes: it ends at the first NUL. */
  function CString(s: bytes): (r: bytes)
    ensures NulFree(s) ==> r == s
  {
    if s == [] || s[0] == 0 then [] else
      assert NulFree(s) ==> NulFree(s[1..]);
      [s[0]] + CString(s[1..])
  }

  /** Fails on a name that is too long; a name that claims more of the last one than there is ends with
      it. */
  function ReadName(x: XFlags, last: bytes, s: bytes): (r: Read<bytes>)
    ensures r.Got? ==> |r.rest| <= |s|
  {
    var (l1, s1) :- if x.sameName then ReadByte(s) else Got(0, s);
    var (l2, s2) :- if x.longName then ReadNum(s1, 4, 1) else ReadByte(s1);
    if l2 < 0 || l2 >= MAXPATHLEN - l1 then Fail
    else
      var (tail, s3) :- ReadBytes(l2, s2);
      Got(CString(if 0 <= l1 <= |last| then last[..l1] + tail else last), s3)
  }

  lemma ReadNameParts(x: XFlags, last: bytes, s: bytes, l1: int, s1: bytes, l2: int, s2: bytes)
    requires (if x.sameName then ReadByte(s) else Got(0, s)) == Got(l1, s1)
    requires (if x.longName then ReadNum(s1, 4, 1) else ReadByte(s1)) == Got(l2, s2)
    requires 0 <= l1 <= |last| && 0 <= l2 < MAXPATHLEN - l1 && l2 <= |s2| && NulFree(last[..l1] + s2[..l2])
    ensures ReadName(x, last, s) == Got(last[..l1] + s2[..l2], s2[l2..])
  {
    hide ReadNum, CString;
  }

  lemma ReadWriteName(x: XFlags, last: bytes, name: bytes, rest: bytes)
    requires |name| < MAXPATHLEN && NulFree(name)
    requires x.sameName == (Shared(last, name) > 0) && x.longName == (|name| - Shared(last, name) > 255)
    ensures ReadName(x, last, WriteName(last, name) + rest) == Got(name, rest)
  {
    hide Shared, Common, ReadNum, WriteNum, ReadName, WriteLen, ReadByte, NulFree;
    var l1 := Shared(last, name);
    var l2 := |name| - l1;
    var a: bytes := if l1 > 0 then [l1] else [];
    var b: bytes := if l2 > 255 then WriteLen(l2) else [l2];
    var c := name[l1..] + rest;
    AppendAssoc(a, b + name[l1..], rest);
    AppendAssoc(b, name[l1..], rest);
    if l2 > 255 {
      ReadLen(l2, c);
    }
    assert c[..l2] == name[l1..] && c[l2..] == rest;
    assert last[..l1] + name[l1..] == name;
    FirstByteRead(l1, b + c);
    FirstByteRead(Min(l2, 255), c);
    assert [] + (b + c) == b + c;
    ReadNameParts(x, last, a + (b + c), l1, b + c, l2, c);
  }

  lemma FirstByteRead(n: byte, s: bytes)
    ensures ReadByte([n] + s) == Got(n as int, s)
  {
  }

  lemma ReadLen(n: nat, rest: bytes)
    requires n < 0x8000_0000
    ensures ReadNum(WriteLen(n) + rest, 4, 1) == Got(n, rest)
  {
    assert Power256(4) == 0x1_0000_0000;
    ReadWriteNum(n, 4, 1, rest);
  }

  // ----- the numbers

  datatype Numbers = Numbers(length: int, modtime: int, nsec: int, mode: nat, uid: nat, gid: nat)

  function Opt(c: bool, b: bytes): bytes {
    if c then b else []
  }

  function ReadMode(s: bytes): (r: Read<nat>)
    ensures r.Got? ==> |r.rest| <= |s|
  {
    if |s| < 4 then Fail else Got(Number(s[..4]), s[4..])
  }

  /** An id is sent as a signed number of the same 32 bits. */
  function WriteId(id: nat): bytes
    requires id < TWO_TO_THE_32
  {
    assert Power256(4) == TWO_TO_THE_32;
    WriteNum(ToSigned(id, 4), 4, 1)
  }

  function ReadId(s: bytes): (r: Read<nat>)
    ensures r.Got? ==> |r.rest| <= |s|
  {
    Unpack(s, 4, 1)
  }

  lemma ReadWriteId(id: nat, rest: bytes)
    requires id < TWO_TO_THE_32
    ensures ReadId(WriteId(id) + rest) == Got(id, rest)
  {
    assert Power256(4) == TWO_TO_THE_32;
    assert ToUnsigned(ToSigned(id, 4), 4) == id;
    UnpackPack(LittleEndian(id, 4), 1, rest);
    NumberOfBytes(id, 4);
  }

  /** Length, time, nanoseconds, mode and owner, less what the flags say is not sent. */
  function WriteNumbers(o: Options, x: XFlags, e: Entry): bytes
    requires Good(e)
  {
    WriteNum(e.length, 8, 3)
    + (Opt(!x.sameTime, WriteNum(e.modtime, 8, 4))
       + (Opt(x.modNsec, WriteNum(e.nsec, 4, 1))
          + (Opt(!x.sameMode, LittleEndian(e.mode, 4))
             + (Opt(o.preserveUid && !x.sameUid, WriteId(e.uid))
                + Opt(o.preserveGid && !x.sameGid, WriteId(e.gid))))))
  }

  function ReadNumbers(o: Options, x: XFlags, last: Last, s: bytes): (r: Read<Numbers>)
    ensures r.Got? ==> |r.rest| <= |s|
  {
    var (length, s1) :- ReadNum(s, 8, 3);
    var (modtime, s2) :- if x.sameTime then Got(last.modtime, s1) else ReadNum(s1, 8, 4);
    var (nsec, s3) :- if x.modNsec then ReadNum(s2, 4, 1) else Got(0, s2);
    var (mode, s4) :- if x.sameMode then Got(last.mode, s3) else ReadMode(s3);
    var (uid, s5) :- if o.preserveUid && !x.sameUid then ReadId(s4) else Got(last.uid, s4);
    var (gid, s6) :- if o.preserveGid && !x.sameGid then ReadId(s5) else Got(last.gid, s5);
    if length < 0 then Fail else Got(Numbers(length, modtime, nsec, mode, uid, gid), s6)
  }

  lemma SixParts(a: bytes, b: bytes, c: bytes, d: bytes, e: bytes, f: bytes, rest: bytes)
    ensures (a + (b + (c + (d + (e + f))))) + rest == a + (b + (c + (d + (e + (f + rest)))))
  {
    AppendAssoc(e, f, rest);
    AppendAssoc(d, e + f, rest);
    AppendAssoc(c, d + (e + f), rest);
    AppendAssoc(b, c + (d + (e + f)), rest);
    AppendAssoc(a, b + (c + (d + (e + f))), rest);
  }

  lemma ReadOptNum(send: bool, x: int, width: nat, least: nat, rest: bytes)
    requires Signed(x, width) && 1 <= least <= width <= least + 5
    ensures send ==> ReadNum(Opt(send, WriteNum(x, width, least)) + rest, width, least) == Got(x, rest)
    ensures !send ==> Opt(send, WriteNum(x, width, least)) + rest == rest
  {
    hide ReadNum, WriteNum;
    ReadWriteNum(x, width, least, rest);
    assert [] + rest == rest;
  }

  lemma ReadOptId(send: bool, id: nat, rest: bytes)
    requires id < TWO_TO_THE_32
    ensures send ==> ReadId(Opt(send, WriteId(id)) + rest) == Got(id, rest)
    ensures !send ==> Opt(send, WriteId(id)) + rest == rest
  {
    hide ReadId, WriteId;
    ReadWriteId(id, rest);
    assert [] + rest == rest;
  }

  lemma ReadOptMode(send: bool, mode: nat, rest: bytes)
    requires mode < 0x1_0000
    ensures send ==> ReadMode(Opt(send, LittleEndian(mode, 4)) + rest) == Got(mode, rest)
    ensures !send ==> Opt(send, LittleEndian(mode, 4)) + rest == rest
  {
    assert Power256(4) == TWO_TO_THE_32;
    NumberOfBytes(mode, 4);
    var b := LittleEndian(mode, 4);
    assert (b + rest)[..4] == b && (b + rest)[4..] == rest;
    assert [] + rest == rest;
  }

  lemma ReadWriteNumbers(o: Options, x: XFlags, last: Last, e: Entry, rest: bytes)
    requires Good(e)
    requires x.sameTime ==> e.modtime == last.modtime
    requires x.sameMode ==> e.mode == last.mode
    requires o.preserveUid && x.sameUid ==> e.uid == last.uid
    requires o.preserveGid && x.sameGid ==> e.gid == last.gid
    ensures ReadNumbers(o, x, last, WriteNumbers(o, x, e) + rest) ==
      Got(Numbers(e.length, e.modtime, if x.modNsec then e.nsec else 0, e.mode,
                  if o.preserveUid then e.uid else last.uid, if o.preserveGid then e.gid else last.gid), rest)
  {
    hide ReadNum, WriteNum, ReadId, WriteId, ReadMode, LittleEndian, Signed, Opt, NulFree;
    var a := WriteNum(e.length, 8, 3);
    var b := Opt(!x.sameTime, WriteNum(e.modtime, 8, 4));
    var c := Opt(x.modNsec, WriteNum(e.nsec, 4, 1));
    var d := Opt(!x.sameMode, LittleEndian(e.mode, 4));
    var u := Opt(o.preserveUid && !x.sameUid, WriteId(e.uid));
    var g := Opt(o.preserveGid && !x.sameGid, WriteId(e.gid));
    SixParts(a, b, c, d, u, g, rest);
    ReadWriteNum(e.length, 8, 3, b + (c + (d + (u + (g + rest)))));
    ReadOptNum(!x.sameTime, e.modtime, 8, 4, c + (d + (u + (g + rest))));
    ReadOptNum(x.modNsec, e.nsec, 4, 1, d + (u + (g + rest)));
    ReadOptMode(!x.sameMode, e.mode, u + (g + rest));
    ReadOptId(o.preserveUid && !x.sameUid, e.uid, g + rest);
    ReadOptId(o.preserveGid && !x.sameGid, e.gid, rest);
  }

  // ----- the symlink

  function WriteLink(o: Options, e: Entry): bytes
    requires |e.link| < MAXPATHLEN
  {
    if o.preserveLinks && IsLink(e.mode) then WriteLen(|e.link|) + e.link else []
  }

  function ReadLink(o: Options, mode: nat, s: bytes): (r: Read<bytes>)
    ensures r.Got? ==> |r.rest| <= |s|
  {
    if o.preserveLinks && IsLink(mode) then
      var (len, s1) :- ReadNum(s, 4, 1);
      if len + 1 <= 0 || len + 1 > MAXPATHLEN then Fail
      else
        var (link, s2) :- ReadBytes(len, s1);
        Got(CString(link), s2)
    else Got([], s)
  }

  lemma ReadWriteLink(o: Options, e: Entry, rest: bytes)
    requires |e.link| < MAXPATHLEN && NulFree(e.link)
    ensures ReadLink(o, e.mode, WriteLink(o, e) + rest) ==
      Got(if o.preserveLinks && IsLink(e.mode) then e.link else [], rest)
  {
    hide ReadNum, WriteNum, WriteLen, CString;
    if o.preserveLinks && IsLink(e.mode) {
      AppendAssoc(WriteLen(|e.link|), e.link, rest);
      ReadLen(|e.link|, e.link + rest);
      assert (e.link + rest)[..|e.link|] == e.link && (e.link + rest)[|e.link|..] == rest;
    } else {
      assert [] + rest == rest;
    }
  }

  // ----- the entry

  /** The flags of an entry after the last one. Something that is no directory never goes out without any
      flag. */
  function FlagsOf(o: Options, last: Last, e: Entry): XFlags {
    var shared := Shared(last.name, e.name);
    var x := XFlags(IsDir(e.mode) && (if e.contentDir then e.topDir else e.impliedDir),
                    e.mode == last.mode,
                    !o.preserveUid || (e.uid == last.uid && last.name != []),
                    !o.preserveGid || (e.gid == last.gid && last.name != []),
                    shared > 0, |e.name| - shared > 255, e.modtime == last.modtime,
                    IsDir(e.mode) && !e.contentDir, e.nsec != 0 && o.protocol31);
    if x == NONE && !IsDir(e.mode) then x.(topDir := true) else x
  }

  /** What send_file_entry writes. */
  function WriteEntry(o: Options, last: Last, e: Entry): bytes
    requires Good(e)
  {
    var x := FlagsOf(o, last, e);
    WriteFlags(x) + (WriteName(last.name, e.name) + (WriteNumbers(o, x, e) + WriteLink(o, e)))
  }

  /** What recv_file_entry makes of the bytes behind the flags, and its static variables after it. */
  function ReadEntry(o: Options, last: Last, x: XFlags, s: bytes): (r: Read<(Entry, Last)>)
    ensures r.Got? ==> |r.rest| <= |s|
  {
    var (name, s1) :- ReadName(x, last.name, s);
    var (n, s2) :- ReadNumbers(o, x, last, s1);
    var (link, s3) :- ReadLink(o, n.mode, s2);
    var content := IsDir(n.mode) && !x.noContentDir;
    Got((Entry(name, n.mode, KeptLength(n.mode, n.length), n.modtime, n.nsec,
               if o.preserveUid then n.uid else 0, if o.preserveGid then n.gid else 0, link,
               content && x.topDir, content, IsDir(n.mode) && x.noContentDir && x.topDir),
         Last(n.mode, n.modtime, n.uid, n.gid, name)), s3)
  }

  /** What the flags say: whatever is as in the last entry is left out. */
  lemma FlagsMean(o: Options, last: Last, e: Entry)
    requires Good(e)
    ensures var x := FlagsOf(o, last, e);
      && x.sameName == (Shared(last.name, e.name) > 0) && x.longName == (|e.name| - Shared(last.name, e.name) > 255)
      && (x.sameTime <==> e.modtime == last.modtime) && (x.sameMode <==> e.mode == last.mode)
      && (x.sameUid <==> !o.preserveUid || (e.uid == last.uid && last.name != []))
      && (x.sameGid <==> !o.preserveGid || (e.gid == last.gid && last.name != []))
      && x.modNsec == (e.nsec != 0 && o.protocol31)
      && (IsDir(e.mode) ==> x.noContentDir == !e.contentDir)
      && (IsDir(e.mode) ==> x.topDir == if e.contentDir then e.topDir else e.impliedDir)
  {
    hide Shared;
  }

  /** An entry is read back as the receiver is to see it, with exactly its own bytes consumed, and the static
      variables are the same at both ends; and its flag bytes announce an entry, not an end of the list. */
  lemma ReadWriteEntry(o: Options, last: Last, e: Entry, rest: bytes)
    requires Good(e)
    ensures var x := FlagsOf(o, last, e);
      exists s :: ReadFlags(WriteEntry(o, last, e) + rest) == Got(Flags(x), s)
                  && ReadEntry(o, last, x, s) == Got((Told(o, e), After(o, last, e)), rest)
  {
    hide FlagsOf, WriteFlags, WriteName, WriteNumbers, WriteLink, ReadFlags, ReadName, ReadNumbers, ReadLink,
         Shared, Signed;
    var x := FlagsOf(o, last, e);
    var b, c, d := WriteName(last.name, e.name), WriteNumbers(o, x, e), WriteLink(o, e);
    FlagsMean(o, last, e);
    AppendAssoc(c, d, rest);
    AppendAssoc(b, c + d, rest);
    AppendAssoc(WriteFlags(x), b + (c + d), rest);
    ReadWriteFlags(x, b + (c + (d + rest)));
    ReadWriteName(x, last.name, e.name, c + (d + rest));
    ReadWriteNumbers(o, x, last, e, d + rest);
    ReadWriteLink(o, e, rest);
    assert ReadEntry(o, last, x, b + (c + (d + rest))) == Got((Told(o, e), After(o, last, e)), rest);
  }

  // ----- the list

  ghost predicate AllGood(es: seq<Entry>) {
    forall i :: 0 <= i < |es| ==> Good(es[i])
  }

  function WriteEntries(o: Options, last: Last, es: seq<Entry>): bytes
    requires AllGood(es)
    decreases |es|
  {
    if es == [] then [] else WriteEntry(o, last, es[0]) + WriteEntries(o, After(o, last, es[0]), es[1..])
  }

  /** The end of a list; an I/O error is reported if both ends know how. */
  function WriteEnd(o: Options, ioError: int): bytes
    requires Signed(ioError, 4)
  {
    if ioError == 0 || !o.safeFlist then [0]
    else [EXTENDED_FLAGS, IO_ERROR_ENDLIST_HIGH] + WriteNum(ioError, 4, 1)
  }

  /** What the receiver has at the end: the entries, its static variables, and the error reported. */
  datatype Received = Received(entries: seq<Entry>, last: Last, ioError: int)

  function ReadList(o: Options, last: Last, s: bytes): Read<Received>
    decreases |s|
  {
    var (announced, s1) :- ReadFlags(s);
    match announced
    case EndOfList => Got(Received([], last, 0), s1)
    case ErrorEnd =>
      if !o.safeFlist then Fail
      else
        var (err, s2) :- ReadNum(s1, 4, 1);
        Got(Received([], last, err), s2)
    case Flags(x) =>
      var (got, s2) :- ReadEntry(o, last, x, s1);
      var (more, s3) :- ReadList(o, got.1, s2);
      Got(more.(entries := [got.0] + more.entries), s3)
  }

  function ToldAll(o: Options, es: seq<Entry>): seq<Entry> {
    if es == [] then [] else [Told(o, es[0])] + ToldAll(o, es[1..])
  }

  function AfterAll(o: Options, last: Last, es: seq<Entry>): Last
    decreases |es|
  {
    if es == [] then last else AfterAll(o, After(o, last, es[0]), es[1..])
  }

  lemma ReadWriteEnd(o: Options, last: Last, ioError: int, rest: bytes)
    requires Signed(ioError, 4)
    ensures ReadList(o, last, WriteEnd(o, ioError) + rest) ==
      Got(Received([], last, if o.safeFlist then ioError else 0), rest)
  {
    hide ReadNum, WriteNum, Signed;
    if ioError == 0 || !o.safeFlist {
      assert ([0] + rest)[1..] == rest;
    } else {
      var s := WriteEnd(o, ioError) + rest;
      assert TestBit(4, 2) by { assert TestBit(2, 1); }
      assert s[2..] == WriteNum(ioError, 4, 1) + rest;
      ReadWriteNum(ioError, 4, 1, rest);
    }
  }

  /** For every list of regular files, directories and symlinks, and every end of it, the receiver gets the
      same entries, ends at the same place, and with the same static variables. */
  lemma {:induction false} ReadWriteList(o: Options, last: Last, es: seq<Entry>, ioError: int, rest: bytes)
    requires AllGood(es) && Signed(ioError, 4)
    ensures ReadList(o, last, WriteEntries(o, last, es) + (WriteEnd(o, ioError) + rest)) ==
      Got(Received(ToldAll(o, es), AfterAll(o, last, es), if o.safeFlist then ioError else 0), rest)
    decreases |es|
  {
    hide WriteEntry, ReadEntry, ReadFlags, Good, WriteEnd, Signed;
    var end := WriteEnd(o, ioError) + rest;
    if es == [] {
      assert [] + end == end;
      ReadWriteEnd(o, last, ioError, rest);
    } else {
      var last' := After(o, last, es[0]);
      var more := WriteEntries(o, last', es[1..]);
      AppendAssoc(WriteEntry(o, last, es[0]), more, end);
      ReadWriteEntry(o, last, es[0], more + end);
      ReadWriteList(o, last', es[1..], ioError, rest);
    }
  }

  // ----- the code

  /** The static variables of one end. */
  class ListEnd {
    const o: Options
    var mode: nat
    var modtime: int
    var uid: nat
    var gid: nat
    var lastname: bytes

    function State(): Last
      reads this
    {
      Last(mode, modtime, uid, gid, lastname)
    }

    constructor (o: Options)
      ensures this.o == o && State() == START
    {
      this.o := o;
      mode, modtime, uid, gid, lastname := 0, 0, 0, 0, [];
    }

    /** The first half of send_file_entry: collects the flags, and replaces what differs. */
    method CollectFlags(e: Entry) returns (x: XFlags)
      requires Good(e)
      modifies this`mode, this`modtime, this`uid, this`gid
      ensures x == FlagsOf(o, old(State()), e)
      ensures State() == After(o, old(State()), e).(name := lastname)
    {
      hide Good, Shared;
      var l1 := CountShared(lastname, e.name);
      var sameMode, sameUid, sameGid, sameTime := ReplaceLast(e);
      var topDir, noContentDir := false, false;
      if IsDir(e.mode) {
        topDir := if e.contentDir then e.topDir else e.impliedDir;
        noContentDir := !e.contentDir;
      }
      x := XFlags(topDir, sameMode, sameUid, sameGid, l1 > 0, |e.name| - l1 > 255, sameTime, noContentDir,
                  e.nsec != 0 && o.protocol31);
      if x == NONE && !IsDir(e.mode) {
        x := x.(topDir := true);
      }
    }

    /** Compares an entry with the last one, and replaces what differs. */
    method ReplaceLast(e: Entry) returns (sameMode: bool, sameUid: bool, sameGid: bool, sameTime: bool)
      modifies this`mode, this`modtime, this`uid, this`gid
      ensures sameMode == (e.mode == old(mode)) && sameTime == (e.modtime == old(modtime))
      ensures sameUid == (!o.preserveUid || (e.uid == old(uid) && lastname != []))
      ensures sameGid == (!o.preserveGid || (e.gid == old(gid) && lastname != []))
      ensures State() == After(o, old(State()), e).(name := lastname)
    {
      sameMode := e.mode == mode;
      if !sameMode {
        mode := e.mode;
      }
      sameUid := !o.preserveUid || (e.uid == uid && lastname != []);
      if !sameUid {
        uid := e.uid;
      }
      sameGid := !o.preserveGid || (e.gid == gid && lastname != []);
      if !sameGid {
        gid := e.gid;
      }
      sameTime := e.modtime == modtime;
      if !sameTime {
        modtime := e.modtime;
      }
    }

    /** send_file_entry: the flags, then what they do not leave out. */
    method SendFileEntry(e: Entry) returns (b: bytes)
      requires Good(e)
      modifies this
      ensures b == WriteEntry(o, old(State()), e)
      ensures State() == After(o, old(State()), e)
    {
      hide WriteFlags, WriteNumbers, WriteLink, WriteLen, FlagsOf, Shared, NulFree, Signed;
      FlagsMean(o, State(), e);
      var x := CollectFlags(e);
      var l1 := CountShared(lastname, e.name);
      var l2 := |e.name| - l1;
      var name := (if x.sameName then [l1] else [])
                  + ((if x.longName then WriteLen(l2) else [l2])
                     + e.name[l1..]);
      b := WriteFlags(x) + (name + (WriteNumbers(o, x, e) + WriteLink(o, e)));
      lastname := e.name;
    }

    method CountShared(last: bytes, name: bytes) returns (l1: nat)
      ensures l1 == Shared(last, name)
    {
      l1 := 0;
      while l1 < |last| && l1 < |name| && name[l1] == last[l1] && l1 < 255
        invariant l1 <= 255 && l1 <= |last| && l1 <= |name| && last[..l1] == name[..l1]
        invariant Common(last, name, l1) == Shared(last, name)
      {
        assert last[..l1 + 1] == last[..l1] + [last[l1]] && name[..l1 + 1] == name[..l1] + [name[l1]];
        l1 := l1 + 1;
      }
    }

    /** The numbers of an entry; those that are not sent stay. */
    method RecvNumbers(x: XFlags, s: bytes) returns (r: Read<Numbers>)
      modifies this`mode, this`modtime, this`uid, this`gid
      ensures r == ReadNumbers(o, x, old(State()), s)
      ensures r.Got? ==> State() == Last(r.value.mode, r.value.modtime, r.value.uid, r.value.gid, lastname)
    {
      hide ReadNum, ReadId, ReadMode;
      var length := ReadNum(s, 8, 3);
      if length.Fail? { return Fail; }
      var t := if x.sameTime then Got(modtime, length.rest) else ReadNum(length.rest, 8, 4);
      if t.Fail? { return Fail; }
      modtime := t.value;
      t := if x.modNsec then ReadNum(t.rest, 4, 1) else Got(0, t.rest);
      if t.Fail? { return Fail; }
      var nsec := t.value;
      var n: Read<nat> := if x.sameMode then Got(mode, t.rest) else ReadMode(t.rest);
      if n.Fail? { return Fail; }
      mode := n.value;
      n := if o.preserveUid && !x.sameUid then ReadId(n.rest) else Got(uid, n.rest);
      if n.Fail? { return Fail; }
      uid := n.value;
      n := if o.preserveGid && !x.sameGid then ReadId(n.rest) else Got(gid, n.rest);
      if n.Fail? { return Fail; }
      gid := n.value;
      r := if length.value < 0 then Fail else Got(Numbers(length.value, modtime, nsec, mode, uid, gid), n.rest);
    }

    /** recv_file_entry, behind the flags. */
    method RecvFileEntry(x: XFlags, s: bytes) returns (r: Read<Entry>)
      modifies this
      ensures match ReadEntry(o, old(State()), x, s)
              case Fail => r.Fail?
              case Got(got, rest) => r == Got(got.0, rest) && State() == got.1
    {
      hide ReadName, ReadNumbers, ReadLink;
      var name := ReadName(x, lastname, s);
      if name.Fail? { return Fail; }
      var n := RecvNumbers(x, name.rest);
      if n.Fail? { return Fail; }
      lastname := name.value;
      var link := ReadLink(o, mode, n.rest);
      if link.Fail? { return Fail; }
      var content := IsDir(mode) && !x.noContentDir;
      r := Got(Entry(name.value, mode, KeptLength(mode, n.value.length), modtime, n.value.nsec,
                     if o.preserveUid then uid else 0, if o.preserveGid then gid else 0, link.value,
                     content && x.topDir, content, IsDir(mode) && x.noContentDir && x.topDir), link.rest);
    }
  }
}
