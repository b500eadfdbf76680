/** Little-endian numbers as they stand in a byte stream. */
module Wire {
  import opened Basics

  function Power256(n: nat): (p: nat)
    ensures p > 0
  {
    if n == 0 then 1 else 256 * Power256(n - 1)
  }

  /** The n bytes of x, least significant first (SIVAL, SIVAL64). */
  function LittleEndian(x: nat, n: nat): (b: bytes)
    ensures |b| == n
  {
    if n == 0 then [] else [x % 256] + LittleEndian(x / 256, n - 1)
  }

  /** The number that bytes stand for (IVAL, IVAL64). */
  function Number(b: bytes): nat {
    if b == [] then 0 else b[0] + 256 * Number(b[1..])
  }

  /** The four bytes of a 32-bit number. */
  lemma FourBytes(x: nat)
    ensures LittleEndian(x, 4) == [x % 0x100, x / 0x100 % 0x100, x / 0x1_0000 % 0x100, x / 0x100_0000 % 0x100]
  {
    assert LittleEndian(x, 4) == [x % 0x100] + LittleEndian(x / 0x100, 3);
    assert LittleEndian(x / 0x100, 3) == [x / 0x100 % 0x100] + LittleEndian(x / 0x100 / 0x100, 2);
    assert LittleEndian(x / 0x1_0000, 2) == [x / 0x1_0000 % 0x100] + LittleEndian(x / 0x1_0000 / 0x100, 1);
    assert LittleEndian(x / 0x100_0000, 1) == [x / 0x100_0000 % 0x100] + LittleEndian(x / 0x100_0000 / 0x100, 0);
  }

  lemma {:induction false} NumberOfBytes(x: nat, n: nat)
    requires x < Power256(n)
    ensures Number(LittleEndian(x, n)) == x
  {
    if n > 0 {
      NumberOfBytes(x / 256, n - 1);
    }
  }

  lemma {:induction false} BytesOfNumber(b: bytes)
    ensures Number(b) < Power256(|b|) && LittleEndian(Number(b), |b|) == b
  {
    if b != [] {
      BytesOfNumber(b[1..]);
      assert Number(b) % 256 == b[0] && Number(b) / 256 == Number(b[1..]);
    }
  }
}
