/** io.c: integers written with as few bytes as they need, and file-list indices written as differences. */
module Varint {
  import opened Basics
  import opened Wire

  /** What comes of reading from a stream: a value and the bytes behind it, or a protocol error or an end
      of the stream. */
  datatype Read<T> = Fail | Got(value: T, rest: bytes)
  {
    predicate IsFailure() {
      Fail?
    }

    function PropagateFailure<U>(): Read<U>
      requires Fail?
    {
      Read.Fail
    }

    function Extract(): (T, bytes)
      requires Got?
    {
      (value, rest)
    }
  }

  /** How many bytes follow, by the first byte of a number: the table int_byte_extra, in which four values
      share an entry. */
  function Extra(ch: byte): (n: nat)
    ensures n == if ch < 0x80 then 0 else if ch < 0xC0 then 1 else if ch < 0xE0 then 2 else if ch < 0xF0 then 3
                 else if ch < 0xF8 then 4 else if ch < 0xFC then 5 else 6
  {
    var i := ch / 4;
    if i < 32 then 0 else if i < 48 then 1
    else [2, 2, 2, 2, 2, 2, 2, 2, 3, 3, 3, 3, 4, 4, 5, 6][i - 48]
  }

  /** 1 << n as an unsigned char, for n < 8. */
  function Bit(n: nat): (p: nat)
    requires n < 8
    ensures 1 <= p <= 128
  {
    if n == 0 then 1 else if n == 1 then 2 else if n == 2 then 4 else if n == 3 then 8
    else if n == 4 then 16 else if n == 5 then 32 else if n == 6 then 64 else 128
  }

  /** The position behind the last byte that is not 0, but not below `least`. */
  function Count(b: bytes, least: nat): (cnt: nat)
    requires least <= |b|
    ensures least <= cnt <= |b|
    ensures forall i :: cnt <= i < |b| ==> b[i] == 0
    ensures cnt > least ==> b[cnt - 1] != 0
  {
    if |b| > least && b[|b| - 1] == 0 then Count(b[..|b| - 1], least) else |b|
  }

  /** The first byte of a packed number. */
  function Lead(b: bytes, least: nat): byte
    requires 1 <= least <= |b| <= least + 7
  {
    var cnt := Count(b, least);
    var bit := Bit(7 - (cnt - least));
    if b[cnt - 1] >= bit then 256 - bit
    else if cnt > least then b[cnt - 1] + (256 - 2 * bit)
    else b[cnt - 1]
  }

  /** How many of the number's bytes follow as they are. */
  function Kept(b: bytes, least: nat): (n: nat)
    requires 1 <= least <= |b| <= least + 7
    ensures least - 1 <= n <= |b|
  {
    var cnt := Count(b, least);
    if b[cnt - 1] >= Bit(7 - (cnt - least)) then cnt else cnt - 1
  }

  /** The layout of a number: the first byte holds the highest bits if they leave room for the count of the
      bytes that follow, and just that count otherwise. */
  function Pack(b: bytes, least: nat): bytes
    requires 1 <= least <= |b| <= least + 7
  {
    [Lead(b, least)] + b[..Kept(b, least)]
  }

  /** What the first byte carries of the number itself. */
  function Carried(first: byte): byte {
    if Extra(first) > 0 then first % Bit(8 - Extra(first)) else first
  }

  /** Reads a number of `width` bytes of which at least `least` are on the wire. */
  function Unpack(s: bytes, width: nat, least: nat): (r: Read<nat>)
    requires 1 <= least <= width
    ensures r.Got? ==> |r.rest| < |s|
  {
    if |s| < least then Fail
    else
      var extra := Extra(s[0]);
      if least + extra > width + 1 || |s| < least + extra then Fail
      else
        var u := s[1..least + extra] + [Carried(s[0])];
        Got(Number(if |u| > width then u[..width] else u), s[least + extra..])
  }

  lemma {:induction false} NumberOfPrefix(b: bytes, cnt: nat)
    requires cnt <= |b| && forall i :: cnt <= i < |b| ==> b[i] == 0
    ensures Number(b[..cnt]) == Number(b)
  {
    if b != [] {
      if cnt == 0 {
        assert forall i :: 0 <= i < |b[1..]| ==> b[1..][i] == b[i + 1];
        NumberOfPrefix(b[1..], 0);
        assert b[1..][..0] == [];
      } else {
        NumberOfPrefix(b[1..], cnt - 1);
        assert b[..cnt][1..] == b[1..][..cnt - 1];
      }
    }
  }

  /** A first byte that is nothing but a count. */
  lemma CountByte(d: nat)
    requires d <= 5
    ensures Extra(256 - Bit(7 - d)) == d + 1 && (256 - Bit(7 - d)) % Bit(7 - d) == 0
  {
    if d == 0 {
    } else if d == 1 {
    } else if d == 2 {
    } else if d == 3 {
    } else if d == 4 {
    } else {
    }
  }

  /** A first byte that holds the highest bits of the number as well. */
  lemma MixedByte(d: nat, top: byte)
    requires 0 < d <= 6 && top < Bit(7 - d)
    ensures var first := top + (256 - 2 * Bit(7 - d));
      first < 256 && Extra(first) == d && first % Bit(8 - d) == top
  {
    if d == 1 {
      assert (top + 128) % 128 == top;
    } else if d == 2 {
      assert (top + 192) % 64 == top;
    } else if d == 3 {
      assert (top + 224) % 32 == top;
    } else if d == 4 {
      assert (top + 240) % 16 == top;
    } else if d == 5 {
      assert (top + 248) % 8 == top;
    } else {
      assert (top + 252) % 4 == top;
    }
  }

  /** The bytes of a number as its layout gives them. */
  function Digits(first: byte, body: bytes, width: nat): bytes {
    var u := body + [Carried(first)];
    if |u| > width then u[..width] else u
  }

  lemma UnpackLayout(first: byte, body: bytes, rest: bytes, width: nat, least: nat)
    requires 1 <= least <= width && |body| <= width && Extra(first) == |body| + 1 - least
    ensures Unpack([first] + body + rest, width, least) == Got(Number(Digits(first, body, width)), rest)
  {
    hide Extra, Carried, Number;
    var s := [first] + body + rest;
    assert s[0] == first && s[1..|body| + 1] == body && s[|body| + 1..] == rest;
  }

  /** A number whose count of bytes fits in the first byte: with six bytes more than the fewest, the last one
      has to fit in there too. */
  predicate Readable(b: bytes, least: nat) {
    1 <= least <= |b| <= least + 6 && (|b| == least + 6 ==> b[|b| - 1] < 2)
  }

  /** The first byte counts the bytes that follow, and carries the number's last byte, or nothing. */
  lemma LeadOk(b: bytes, least: nat)
    requires Readable(b, least)
    ensures Extra(Lead(b, least)) == Kept(b, least) + 1 - least
    ensures var k := Kept(b, least);
      && Carried(Lead(b, least)) == (if k < |b| then b[k] else 0)
      && forall i :: k < i < |b| ==> b[i] == 0
  {
    var cnt := Count(b, least);
    var d, top := cnt - least, b[cnt - 1];
    if top >= Bit(7 - d) {
      CountByte(d);
    } else if d > 0 {
      MixedByte(d, top);
    }
  }

  lemma DigitsAre(b: bytes, k: nat, first: byte)
    requires k <= |b| && Carried(first) == (if k < |b| then b[k] else 0)
    requires forall i :: k < i < |b| ==> b[i] == 0
    ensures Number(Digits(first, b[..k], |b|)) == Number(b)
  {
    hide Number, Carried;
    if k < |b| {
      NumberOfPrefix(b, k + 1);
      TakeOneMore(b, k);
    } else {
      TakeAll(b);
    }
  }

  lemma TakeOneMore(b: bytes, k: nat)
    requires k < |b|
    ensures b[..k] + [b[k]] == b[..k + 1]
  {
  }

  lemma TakeAll(b: bytes)
    ensures b[..|b|] == b && (b + [0])[..|b|] == b
  {
  }

  /** A packed number is read back, and nothing behind it is touched. */
  lemma UnpackPack(b: bytes, least: nat, rest: bytes)
    requires Readable(b, least)
    ensures Unpack(Pack(b, least) + rest, |b|, least) == Got(Number(b), rest)
  {
    hide Number, Extra, Bit, Unpack, Lead, Kept, Carried, Digits;
    LeadOk(b, least);
    var k := Kept(b, least);
    UnpackLayout(Lead(b, least), b[..k], rest, |b|, least);
    DigitsAre(b, k, Lead(b, least));
  }

  // ----- signed numbers

  predicate Signed(x: int, width: nat) {
    -(Power256(width) / 2) <= x < Power256(width) / 2
  }

  function ToUnsigned(x: int, width: nat): (u: nat)
    requires Signed(x, width)
    ensures u < Power256(width)
  {
    if x < 0 then x + Power256(width) else x
  }

  function ToSigned(u: nat, width: nat): int {
    if u >= Power256(width) / 2 then u - Power256(width) else u
  }

  lemma SignedRoundTrip(x: int, width: nat)
    requires Signed(x, width) && width > 0
    ensures ToSigned(ToUnsigned(x, width), width) == x
  {
    assert Power256(width) == 256 * Power256(width - 1);
  }

  /** What write_varint (width 4, least 1) and write_varlong (width 8) put on the wire. */
  function WriteNum(x: int, width: nat, least: nat): bytes
    requires Signed(x, width) && 1 <= least <= width <= least + 7
  {
    Pack(LittleEndian(ToUnsigned(x, width), width), least)
  }

  function ReadNum(s: bytes, width: nat, least: nat): (r: Read<int>)
    requires 1 <= least <= width
    ensures r.Got? ==> |r.rest| < |s|
  {
    match Unpack(s, width, least)
    case Fail => Fail
    case Got(u, rest) => Got(ToSigned(u, width), rest)
  }

  /** Every 32-bit number, and every 64-bit number with at least three bytes on the wire, is read back with
      exactly its own bytes consumed. */
  lemma ReadWriteNum(x: int, width: nat, least: nat, rest: bytes)
    requires Signed(x, width) && 1 <= least <= width <= least + 5
    ensures ReadNum(WriteNum(x, width, least) + rest, width, least) == Got(x, rest)
  {
    var u := ToUnsigned(x, width);
    UnpackPack(LittleEndian(u, width), least, rest);
    NumberOfBytes(u, width);
    SignedRoundTrip(x, width);
  }

  /** With two bytes at least, a 64-bit number is read back exactly if its last byte is below 2: else the first
      byte promises no more than six bytes where seven follow. */
  lemma TwoBytesTooFew(b: bytes, rest: bytes)
    requires |b| == 8
    ensures Unpack(Pack(b, 2) + rest, 8, 2) == Got(Number(b), rest) <==> b[7] < 2
  {
    hide Number;
    if b[7] < 2 {
      UnpackPack(b, 2, rest);
    } else {
      assert Count(b, 2) == 8;
      assert Lead(b, 2) == 254 && Kept(b, 2) == 8;
      var s := Pack(b, 2) + rest;
      assert s[0] == 254 && |s| == 9 + |rest|;
      assert |s[8..]| == 1 + |rest|;
    }
  }

  /** Small numbers: up to 127 in one byte, and up to 0x3FFF in two, the higher one first. */
  lemma SmallNumbers(x: nat)
    requires x < 0x4000
    ensures Power256(4) == 0x1_0000_0000
    ensures WriteNum(x, 4, 1) == if x < 0x80 then [x] else [0x80 + x / 0x100, x % 0x100]
  {
    assert Power256(4) == 0x1_0000_0000;
    var b := LittleEndian(x, 4);
    FourBytes(x);
    assert b == [x % 0x100, x / 0x100, 0, 0];
    assert b[..3] == [x % 0x100, x / 0x100, 0] && b[..3][..2] == [x % 0x100, x / 0x100];
    assert b[..2][..1] == [x % 0x100];
    assert Count(b, 1) == Count(b[..3], 1) == Count(b[..3][..2], 1);
    assert Count(b[..3][..2], 1) == if x / 0x100 > 0 then 2 else Count(b[..2][..1], 1);
  }

  // ----- the code

  /** write_varint and write_varlong: counts the bytes down to the last one that is not 0. */
  method WritePacked(x: int, width: nat, least: nat) returns (out: bytes)
    requires Signed(x, width) && 1 <= least <= width <= least + 7
    ensures out == WriteNum(x, width, least)
  {
    hide Signed, ToUnsigned, Bit, LittleEndian;
    ghost var u := LittleEndian(ToUnsigned(x, width), width);
    var b := [0] + LittleEndian(ToUnsigned(x, width), width);
    assert b[1..] == u;
    var cnt := CountDown(b, width, least);
    var bit := Bit(7 - cnt + least);
    assert b[cnt] == u[cnt - 1];
    if b[cnt] >= bit {
      cnt := cnt + 1;
      b := b[0 := 256 - bit];
    } else if cnt > least {
      b := b[0 := b[cnt] + (256 - 2 * bit)];
    } else {
      b := b[0 := b[cnt]];
    }
    out := b[..cnt];
    assert out == [b[0]] + b[1..cnt] && b[1..cnt] == u[..cnt - 1];
    assert b[0] == Lead(u, least) && cnt - 1 == Kept(u, least);
  }

  method CountDown(b: bytes, width: nat, least: nat) returns (cnt: nat)
    requires |b| == width + 1 && 1 <= least <= width
    ensures cnt == Count(b[1..], least)
  {
    cnt := width;
    ghost var u := b[1..];
    assert u[..cnt] == u;
    while cnt > least && b[cnt] == 0
      invariant least <= cnt <= width
      invariant Count(u[..cnt], least) == Count(u, least)
    {
      TakeTwice(u, cnt - 1, cnt);
      assert u[cnt - 1] == b[cnt];
      cnt := cnt - 1;
    }
    assert u[cnt - 1] == b[cnt];
  }

  lemma TakeTwice(u: bytes, i: nat, j: nat)
    requires i <= j <= |u|
    ensures u[..j][..i] == u[..i]
  {
  }

  /** memcpy into the number's bytes: they hold the first n bytes behind the one that counts. */
  method CopyDigits(u0: bytes, from: nat, to: nat, s: bytes) returns (u: bytes)
    requires from <= to < |u0| && to < |s| && u0[..from] == s[1..from + 1]
    requires forall i :: from <= i < |u0| ==> u0[i] == 0
    ensures |u| == |u0| && u[..to] == s[1..to + 1] && forall i :: to <= i < |u| ==> u[i] == 0
  {
    u := u0;
    var n := from;
    while n < to
      invariant from <= n <= to && |u| == |u0|
      invariant u[..n] == s[1..n + 1] && forall i :: n <= i < |u| ==> u[i] == 0
    {
      ghost var w := u;
      u := u[n := s[n + 1]];
      assert u[..n + 1] == w[..n] + [s[n + 1]] == s[1..n + 2];
      n := n + 1;
    }
  }

  /** read_varint and read_varlong, on the bytes that are to come. */
  method ReadPacked(s: bytes, width: nat, least: nat) returns (r: Read<int>)
    requires 1 <= least <= width
    ensures r == ReadNum(s, width, least)
  {
    hide Number, Extra, Bit, ToSigned;
    if |s| < least {
      return Fail;
    }
    var u: bytes := seq(width + 1, i => 0);
    u := CopyDigits(u, 0, least - 1, s);
    var extra := Extra(s[0]);
    if extra > 0 {
      if least + extra > width + 1 || |s| < least + extra {
        return Fail;
      }
      u := CopyDigits(u, least - 1, least + extra - 1, s);
      u := u[least + extra - 1 := s[0] % Bit(8 - extra)];
    } else {
      u := u[least + extra - 1 := s[0]];
    }
    AllDigits(u, s[1..least + extra], Carried(s[0]), width);
    r := Got(ToSigned(Number(u[..width]), width), s[least + extra..]);
  }

  /** Bytes of value 0 at the end do not count. */
  lemma AllDigits(u: bytes, body: bytes, last: byte, width: nat)
    requires |u| == width + 1 && |body| <= width && u[..|body|] == body && u[|body|] == last
    requires forall i :: |body| < i < |u| ==> u[i] == 0
    ensures Number(u[..width]) == Number(if |body| + 1 > width then (body + [last])[..width] else body + [last])
  {
    hide Number;
    var v := body + [last];
    assert v == u[..|body| + 1];
    if |body| < width {
      NumberOfPrefix(u[..width], |body| + 1);
      assert u[..width][..|body| + 1] == v;
    } else {
      assert v[..width] == u[..width];
    }
  }
}
