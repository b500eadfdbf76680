/** checksum.c: the rolling weak sum of a block, and the chunked whole-file accumulator. */
module Checksum {
  import opened Basics

  /** A byte read through a `schar` pointer. */
  function Signed(b: byte): (n: int)
    ensures -128 <= n < 128 && (n - b) % 256 == 0
  {
    if b < 128 then b else b - 256
  }

  /** The plain sum of the window's signed bytes. */
  function ByteSum(w: bytes): int {
    if w == [] then 0 else ByteSum(w[..|w| - 1]) + Signed(w[|w| - 1])
  }

  /** Every byte weighted by its distance from the end: the sum of all the prefix sums. */
  function WeightedSum(w: bytes): int {
    if w == [] then 0 else WeightedSum(w[..|w| - 1]) + ByteSum(w)
  }

  /** The 32-bit weak checksum: both sums reduced to 16 bits. */
  function Weak(w: bytes): nat {
    ByteSum(w) % TWO_TO_THE_16 + TWO_TO_THE_16 * (WeightedSum(w) % TWO_TO_THE_16)
  }

  lemma SumsAppend(w: bytes, b: byte)
    ensures ByteSum(w + [b]) == ByteSum(w) + Signed(b)
    ensures WeightedSum(w + [b]) == WeightedSum(w) + ByteSum(w + [b])
  {
    assert (w + [b])[..|w|] == w;
  }

  /** What removing the first byte takes away from each sum. */
  lemma {:induction false} SumsDropFirst(w: bytes)
    requires w != []
    ensures ByteSum(w[1..]) == ByteSum(w) - Signed(w[0])
    ensures WeightedSum(w[1..]) == WeightedSum(w) - |w| * Signed(w[0])
  {
    if |w| == 1 {
      assert w[1..] == [] && w[..0] == [];
    } else {
      var init := w[..|w| - 1];
      SumsDropFirst(init);
      assert w[1..] == init[1..] + [w[|w| - 1]];
      SumsAppend(init[1..], w[|w| - 1]);
      assert |w| * Signed(w[0]) == |init| * Signed(w[0]) + Signed(w[0]);
    }
  }

  /** Numbers a whole multiple apart leave the same remainder. */
  lemma SameRemainder(a: int, b: int, q: int, modulus: nat)
    requires modulus > 0 && a == b + q * modulus
    ensures a % modulus == b % modulus
  {
    var r := b % modulus;
    var k := b / modulus;
    assert b == k * modulus + r;
    assert a == (k + q) * modulus + r;
    QuotientUnique(a, k + q, r, modulus);
  }

  lemma QuotientUnique(a: int, q: int, r: nat, modulus: nat)
    requires r < modulus && a == q * modulus + r
    ensures a % modulus == r && a / modulus == q
  {
    var d := a / modulus - q;
    MultipleBounds(d, modulus);
    assert a == a / modulus * modulus + a % modulus;
    assert d * modulus == r - a % modulus;
  }

  lemma MultipleBounds(d: int, modulus: nat)
    ensures d > 0 ==> d * modulus >= modulus
    ensures d < 0 ==> d * modulus + modulus <= 0
  {
  }

  lemma Quotient(a: int, b: int, modulus: nat) returns (q: int)
    requires modulus > 0 && a % modulus == b % modulus
    ensures a == b + q * modulus
  {
    q := a / modulus - b / modulus;
    assert a == a / modulus * modulus + a % modulus;
    assert b == b / modulus * modulus + b % modulus;
  }

  /** Reducing to 32 bits does not disturb the low 16. */
  lemma LowBits(x: int)
    ensures x % TWO_TO_THE_32 % TWO_TO_THE_16 == x % TWO_TO_THE_16
  {
    var q := x / TWO_TO_THE_32;
    SameRemainder(x, x % TWO_TO_THE_32, q * TWO_TO_THE_16, TWO_TO_THE_16);
  }

  /** `(s2 << 16)` in 32 bits keeps exactly the low half of s2. */
  lemma ShiftLeft16(s: nat)
    ensures s * TWO_TO_THE_16 % TWO_TO_THE_32 == TWO_TO_THE_16 * (s % TWO_TO_THE_16)
  {
    var q := s / TWO_TO_THE_16;
    assert s * TWO_TO_THE_16 == q * TWO_TO_THE_32 + TWO_TO_THE_16 * (s % TWO_TO_THE_16);
  }

  /** The weak checksum put together from two running 32-bit sums. */
  lemma CombineSums(s1: nat, s2: nat, w: bytes)
    requires s1 % TWO_TO_THE_16 == ByteSum(w) % TWO_TO_THE_16
    requires s2 % TWO_TO_THE_16 == WeightedSum(w) % TWO_TO_THE_16
    ensures s1 % TWO_TO_THE_16 + s2 * TWO_TO_THE_16 % TWO_TO_THE_32 == Weak(w)
  {
    ShiftLeft16(s2);
  }

  /** The sums of a window extended by four bytes, as one unrolled step computes them. */
  lemma SumsAppendFour(w: bytes, a: byte, b: byte, c: byte, d: byte)
    ensures ByteSum(w + [a, b, c, d]) == ByteSum(w) + (Signed(a) + Signed(b) + Signed(c) + Signed(d))
    ensures WeightedSum(w + [a, b, c, d])
         == WeightedSum(w) + (4 * (ByteSum(w) + Signed(a)) + 3 * Signed(b) + 2 * Signed(c) + Signed(d))
  {
    SumsAppend(w, a);
    SumsAppend(w + [a], b);
    SumsAppend(w + [a] + [b], c);
    SumsAppend(w + [a] + [b] + [c], d);
    assert w + [a] + [b] + [c] + [d] == w + [a, b, c, d];
  }

  lemma AddMod(x: int, y: int, s: nat)
    requires s == x % TWO_TO_THE_32
    ensures (s + y) % TWO_TO_THE_32 == (x + y) % TWO_TO_THE_32
  {
    SameRemainder(x + y, s + y, x / TWO_TO_THE_32, TWO_TO_THE_32);
  }

  lemma AddFourMod(w1: int, w2: int, s1: nat, s2: nat, y: int)
    requires s1 == w1 % TWO_TO_THE_32 && s2 == w2 % TWO_TO_THE_32
    ensures (s2 + (4 * s1 + y)) % TWO_TO_THE_32 == (w2 + (4 * w1 + y)) % TWO_TO_THE_32
  {
    SameRemainder(w2 + (4 * w1 + y), s2 + (4 * s1 + y),
                  w2 / TWO_TO_THE_32 + 4 * (w1 / TWO_TO_THE_32), TWO_TO_THE_32);
  }

  /** Four bytes of the unrolled loop, in 32-bit arithmetic. */
  method AddFour(s1: nat, s2: nat, a: byte, b: byte, c: byte, d: byte, ghost w: bytes)
    returns (t1: nat, t2: nat)
    requires s1 == ByteSum(w) % TWO_TO_THE_32 && s2 == WeightedSum(w) % TWO_TO_THE_32
    ensures t1 == ByteSum(w + [a, b, c, d]) % TWO_TO_THE_32
    ensures t2 == WeightedSum(w + [a, b, c, d]) % TWO_TO_THE_32
  {
    SumsAppendFour(w, a, b, c, d);
    var y1 := Signed(a) + Signed(b) + Signed(c) + Signed(d);
    AddMod(ByteSum(w), y1, s1);
    var y2 := 4 * Signed(a) + 3 * Signed(b) + 2 * Signed(c) + Signed(d);
    AddFourMod(ByteSum(w), WeightedSum(w), s1, s2, y2);
    t2 := (s2 + (4 * (s1 + Signed(a)) + 3 * Signed(b) + 2 * Signed(c) + Signed(d))) % TWO_TO_THE_32;
    t1 := (s1 + (Signed(a) + Signed(b) + Signed(c) + Signed(d))) % TWO_TO_THE_32;
  }

  /** One byte of the closing loop, in 32-bit arithmetic. */
  method AddOne(s1: nat, s2: nat, a: byte, ghost w: bytes) returns (t1: nat, t2: nat)
    requires s1 == ByteSum(w) % TWO_TO_THE_32 && s2 == WeightedSum(w) % TWO_TO_THE_32
    ensures t1 == ByteSum(w + [a]) % TWO_TO_THE_32
    ensures t2 == WeightedSum(w + [a]) % TWO_TO_THE_32
  {
    SumsAppend(w, a);
    AddMod(ByteSum(w), Signed(a), s1);
    t1 := (s1 + Signed(a)) % TWO_TO_THE_32;
    AddMod(WeightedSum(w), t1, s2);
    AddMod(ByteSum(w + [a]), WeightedSum(w), t1);
    t2 := (s2 + t1) % TWO_TO_THE_32;
  }

  /** The weak sum of a buffer, four bytes a step and then one at a time. */
  method GetChecksum1(buf: bytes) returns (sum: nat)
    ensures sum == Weak(buf)
  {
    assert buf[..0] == [];
    assert ByteSum([]) == WeightedSum([]) == 0;
    var len := |buf|;
    var s1: nat, s2: nat := 0, 0;
    var i := 0;
    while i < len - 4
      invariant 0 <= i <= len
      invariant s1 == ByteSum(buf[..i]) % TWO_TO_THE_32
      invariant s2 == WeightedSum(buf[..i]) % TWO_TO_THE_32
    {
      hide ByteSum, WeightedSum;
      s1, s2 := AddFour(s1, s2, buf[i], buf[i + 1], buf[i + 2], buf[i + 3], buf[..i]);
      assert buf[..i + 4] == buf[..i] + [buf[i], buf[i + 1], buf[i + 2], buf[i + 3]];
      i := i + 4;
    }
    while i < len
      invariant 0 <= i <= len
      invariant s1 == ByteSum(buf[..i]) % TWO_TO_THE_32
      invariant s2 == WeightedSum(buf[..i]) % TWO_TO_THE_32
    {
      hide ByteSum, WeightedSum;
      s1, s2 := AddOne(s1, s2, buf[i], buf[..i]);
      assert buf[..i + 1] == buf[..i] + [buf[i]];
      i := i + 1;
    }
    assert buf[..len] == buf;
    LowBits(ByteSum(buf));
    LowBits(WeightedSum(buf));
    CombineSums(s1, s2, buf);
    sum := s1 % TWO_TO_THE_16 + s2 * TWO_TO_THE_16 % TWO_TO_THE_32;
  }

  /** The two halves of a weak sum are running sums of its window. */
  lemma SplitWeak(w: bytes)
    ensures RunningSums(Weak(w) % TWO_TO_THE_16, Weak(w) / TWO_TO_THE_16, w)
  {
    var a, b := ByteSum(w) % TWO_TO_THE_16, WeightedSum(w) % TWO_TO_THE_16;
    assert Weak(w) == b * TWO_TO_THE_16 + a;
    QuotientUnique(Weak(w), b, a, TWO_TO_THE_16);
  }

  // ----- the rolling window

  /** Two running 32-bit sums whose low halves are those of the window. */
  ghost predicate RunningSums(s1: nat, s2: nat, w: bytes) {
    && s1 % TWO_TO_THE_16 == ByteSum(w) % TWO_TO_THE_16
    && s2 % TWO_TO_THE_16 == WeightedSum(w) % TWO_TO_THE_16
  }

  /** A 32-bit addition keeps agreement in the low 16 bits. */
  lemma AddLow(x: int, s: nat, y: int, z: int)
    requires s % TWO_TO_THE_16 == x % TWO_TO_THE_16 && y % TWO_TO_THE_16 == z % TWO_TO_THE_16
    ensures (s + y) % TWO_TO_THE_32 % TWO_TO_THE_16 == (x + z) % TWO_TO_THE_16
  {
    LowBits(s + y);
    var q1 := Quotient(s, x, TWO_TO_THE_16);
    var q2 := Quotient(y, z, TWO_TO_THE_16);
    SameRemainder(s + y, x + z, q1 + q2, TWO_TO_THE_16);
  }

  /** Trims the first byte of a window of length k off the sums and adds the byte after it, if any. */
  method Roll(s1: nat, s2: nat, w: bytes, next: Option<byte>) returns (t1: nat, t2: nat)
    requires w != [] && RunningSums(s1, s2, w)
    ensures next.None? ==> RunningSums(t1, t2, w[1..])
    ensures next.Some? ==> RunningSums(t1, t2, w[1..] + [next.value])
  {
    var k := |w|;
    SumsDropFirst(w);
    AddLow(ByteSum(w), s1, -Signed(w[0]), -Signed(w[0]));
    AddLow(WeightedSum(w), s2, -(k * Signed(w[0])), -(k * Signed(w[0])));
    t1 := (s1 - Signed(w[0])) % TWO_TO_THE_32;
    t2 := (s2 - k * Signed(w[0])) % TWO_TO_THE_32;
    if next.Some? {
      SumsAppend(w[1..], next.value);
      AddLow(ByteSum(w[1..]), t1, Signed(next.value), Signed(next.value));
      t1 := (t1 + Signed(next.value)) % TWO_TO_THE_32;
      AddLow(WeightedSum(w[1..]), t2, t1, ByteSum(w[1..] + [next.value]));
      t2 := (t2 + t1) % TWO_TO_THE_32;
    }
  }

  const CSUM_CHUNK: nat := 64

  /** The static `md` context: full chunks already hashed, and a residue that waits in its buffer. */
  class Accumulator {
    var hashed: seq<bytes>
    var residue: nat
    const buffer: array<byte>

    ghost predicate Valid()
      reads this, buffer
    {
      && buffer.Length == CSUM_CHUNK
      && residue < CSUM_CHUNK
      && forall k :: 0 <= k < |hashed| ==> |hashed[k]| == CSUM_CHUNK
    }

    /** Every byte given so far, in order. */
    ghost function Fed(): bytes
      requires Valid()
      reads this, buffer
    {
      Flatten(hashed) + buffer[..residue]
    }

    constructor ()
      ensures Valid() && Fed() == [] && fresh(buffer)
    {
      hashed, residue := [], 0;
      buffer := new byte[CSUM_CHUNK];
    }

    /** Copies `p` into the buffer from position `at` on. */
    method CopyIn(at: nat, p: bytes)
      requires at + |p| <= buffer.Length
      modifies buffer
      ensures buffer[..at] == old(buffer[..at])
      ensures buffer[at..at + |p|] == p
    {
      var i := 0;
      while i < |p|
        invariant 0 <= i <= |p|
        invariant buffer[..at] == old(buffer[..at])
        invariant buffer[at..at + i] == p[..i]
      {
        buffer[at + i] := p[i];
        i := i + 1;
      }
    }

    /** `mdfour_update` on one whole chunk. */
    method HashChunk(chunk: bytes)
      requires |chunk| == CSUM_CHUNK
      requires forall k :: 0 <= k < |hashed| ==> |hashed[k]| == CSUM_CHUNK
      modifies this`hashed
      ensures Flatten(hashed) == old(Flatten(hashed)) + chunk
      ensures forall k :: 0 <= k < |hashed| ==> |hashed[k]| == CSUM_CHUNK
    {
      FlattenAppend(hashed, chunk);
      hashed := hashed + [chunk];
    }

    /** Feeds `data`, hashing every chunk that fills up; nothing is lost, repeated or reordered. */
    method SumUpdate(data: bytes)
      requires Valid()
      modifies this, buffer
      ensures Valid() && Fed() == old(Fed()) + data
    {
      hide Flatten;
      if |data| + residue < CSUM_CHUNK {
        CopyIn(residue, data);
        ghost var kept := old(buffer[..residue]);
        residue := residue + |data|;
        assert buffer[..residue] == kept + data;
        AppendAssoc(Flatten(hashed), kept, data);
        return;
      }
      var p := data;
      ghost var head: bytes := [];
      if residue != 0 {
        var i := CSUM_CHUNK - residue;
        CopyIn(residue, p[..i]);
        assert buffer[..] == old(buffer[..residue]) + data[..i];
        HashChunk(buffer[..]);
        head := data[..i];
        p := p[i..];
      }
      assert Flatten(hashed) == old(Fed()) + head;
      while |p| >= CSUM_CHUNK
        invariant buffer.Length == CSUM_CHUNK
        invariant forall k :: 0 <= k < |hashed| ==> |hashed[k]| == CSUM_CHUNK
        invariant head + p == data
        invariant Flatten(hashed) == old(Fed()) + head
      {
        HashChunk(p[..CSUM_CHUNK]);
        AppendAssoc(old(Fed()), head, p[..CSUM_CHUNK]);
        head := head + p[..CSUM_CHUNK];
        p := p[CSUM_CHUNK..];
      }
      residue := |p|;
      if residue != 0 {
        CopyIn(0, p);
      }
      assert buffer[..residue] == p;
      AppendAssoc(old(Fed()), head, p);
    }

    /** The message the digest is taken of: whole chunks, then what is left over. */
    method SumEnd() returns (message: bytes)
      requires Valid()
      ensures message == Fed()
    {
      message := Flatten(hashed + [buffer[..residue]]);
      FlattenAppend(hashed, buffer[..residue]);
    }
  }
}
