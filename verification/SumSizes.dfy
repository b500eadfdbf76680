/** generator.c, sender.c and io.c: how long the blocks of a basis file are, and the table of their sums. */
module SumSizes {
  import opened Basics
  import opened Wire
  import opened Varint
  import opened Checksum
  import opened Tokens
  import opened DeltaJob

  const BLOCK_SIZE: nat := 700
  const MAX_BLOCK_SIZE: nat := 0x2_0000
  const SUM_LENGTH: nat := 16
  const MAX_DIGEST_LEN: nat := 16
  const BLOCKSUM_BIAS: nat := 10
  const INT32_MAX: nat := 0x7FFF_FFFF

  /** The head of a sum table. */
  datatype SumHead = SumHead(count: int, blength: nat, s2length: nat, remainder: nat, flength: nat)

  function MaxBlength(protocol: nat): nat {
    if protocol < 30 then OLD_MAX_BLOCK_SIZE else MAX_BLOCK_SIZE
  }

  // ----- the block length

  /** The largest multiple of 8, from r on, whose square is not greater than len. */
  function Root8From(r: nat, len: nat): (root: nat)
    requires r % 8 == 0 && r * r <= len
    ensures root % 8 == 0 && root >= r && root * root <= len < (root + 8) * (root + 8)
    decreases len - r
  {
    if (r + 8) * (r + 8) <= len then
      assert (r + 8) * (r + 8) >= r + 8;
      Root8From(r + 8, len)
    else r
  }

  function Root8(len: nat): (root: nat)
    ensures root % 8 == 0 && root * root <= len < (root + 8) * (root + 8)
  {
    Root8From(0, len)
  }

  lemma SquareLess(a: nat, b: nat)
    ensures a < b ==> a * a < b * b
    ensures a <= b ==> a * a <= b * b
  {
    if a <= b {
      assert a * a <= a * b <= b * b;
    }
    if a < b {
      assert a * a <= a * b && a * b < b * b;
    }
  }

  /** There is only one such multiple of 8. */
  lemma RootIs(r: nat, len: nat)
    requires r % 8 == 0 && r * r <= len
    ensures r <= Root8(len)
    ensures len < (r + 8) * (r + 8) ==> r == Root8(len)
  {
    var root := Root8(len);
    SquareLess(root + 8, r);
    SquareLess(r + 8, root);
    assert r > root ==> r >= root + 8;
    assert root > r ==> root >= r + 8;
  }

  lemma {:induction false} PowersApart(a: nat, b: nat)
    requires PowerOfTwo(a) && PowerOfTwo(b) && a < b
    ensures 2 * a <= b
    decreases b
  {
    if a > 1 {
      PowersApart(a / 2, b / 2);
    }
  }

  lemma DivDiv(a: nat, b: nat)
    requires b > 0
    ensures a / (4 * b) == a / b / 4
  {
    var q := a / b;
    var x, y := q / 4, q % 4;
    assert a == q * b + a % b && q == 4 * x + y;
    assert q * b == x * (4 * b) + y * b by {
      assert (4 * x) * b == x * (4 * b);
      assert (4 * x + y) * b == (4 * x) * b + y * b;
    }
    assert y * b <= 3 * b by {
      SmallMultiple(y, b);
    }
    QuotientUnique(a, x, y * b + a % b, 4 * b);
  }

  lemma SmallMultiple(y: nat, b: nat)
    requires y <= 3
    ensures y * b <= 3 * b
  {
  }

  /** c is no greater than the root, and l is what is left of len divided by (2c)^2. */
  ghost predicate Dividing(len: nat, c: nat, l: nat) {
    c > 0 && c * c <= len && l == len / (4 * (c * c))
  }

  lemma DivideMore(len: nat, c: nat, l: nat)
    requires Dividing(len, c, l)
    ensures l != 0 ==> Dividing(len, 2 * c, l / 4)
    ensures l == 0 ==> c * c <= len < 4 * (c * c)
  {
    TwiceSquare(c);
    var d := 4 * (c * c);
    NotZero(len, d);
    DivDiv(len, d);
  }

  /** A power of 2 with c <= sqrt(len) < 2c, found by dividing the length by 4. */
  method TopBit(len: nat) returns (c: nat)
    requires len > 0
    ensures PowerOfTwo(c) && c * c <= len < 4 * (c * c)
  {
    hide Dividing;
    c := 1;
    var l: nat := len / 4;
    FirstDivision(len);
    while l != 0
      invariant PowerOfTwo(c) && Dividing(len, c, l)
      decreases l
    {
      DivideMore(len, c, l);
      assert 2 * c / 2 == c;
      c := 2 * c;
      l := l / 4;
    }
    DivideMore(len, c, l);
  }

  lemma FirstDivision(len: nat)
    requires len > 0
    ensures Dividing(len, 1, len / 4)
  {
  }

  lemma TwiceSquare(c: nat)
    ensures (2 * c) * (2 * c) == 4 * (c * c)
  {
  }

  lemma NotZero(a: nat, d: nat)
    requires d > 0
    ensures a / d != 0 <==> d <= a
  {
    if a < d {
      QuotientUnique(a, 0, a, d);
    }
  }

  /** b is a lower bound for the root, and at most w too low. */
  ghost predicate Within(len: nat, b: nat, w: nat) {
    b * b <= len < (b + w) * (b + w)
  }

  lemma StartWithin(len: nat, top: nat)
    requires len < 4 * (top * top)
    ensures Within(len, 0, 2 * top)
  {
    TwiceSquare(top);
  }

  lemma BitStep(len: nat, b: nat, c: nat)
    requires Within(len, b, 2 * c)
    ensures if len < (b + c) * (b + c) then Within(len, b, c) else Within(len, b + c, c)
  {
    assert b + c + c == b + 2 * c;
  }

  lemma RootBelow(len: nat, b: nat, top: nat)
    requires Within(len, b, 8) && len < 4 * (top * top) && b % 8 == 0
    ensures b == Root8(len) < 2 * top
  {
    RootIs(b, len);
    TwiceSquare(top);
    SquareLess(2 * top, b);
  }

  lemma OnlyFour(c: nat)
    requires PowerOfTwo(c) && 4 <= c < 8
    ensures c == 4
  {
    assert !PowerOfTwo(3);
  }

  /** Builds the root bit by bit, from the top bit down to 8. */
  method BitRoot(len: nat, top: nat) returns (blength: nat)
    requires PowerOfTwo(top) && 8 <= top && len < 4 * (top * top)
    ensures blength == Root8(len) < 2 * top
  {
    hide Within, Root8;
    blength := 0;
    var c := top;
    StartWithin(len, top);
    while true
      invariant PowerOfTwo(c) && c >= 8
      invariant blength % (2 * c) == 0 && Within(len, blength, 2 * c)
      decreases c
    {
      // blength has no bit below 2c, so that setting bit c is adding c
      HalfStep(blength, c);
      BitStep(len, blength, c);
      blength := blength + c;
      if len < blength * blength {
        blength := blength - c;
      }
      assert PowerOfTwo(c / 2) && c / 2 >= 4;
      c := c / 2;
      if c < 8 {
        OnlyFour(c);
        break;
      }
    }
    RootBelow(len, blength, top);
  }

  lemma HalfStep(b: nat, c: nat)
    requires c > 0 && c % 2 == 0 && b % (2 * c) == 0
    ensures b % c == 0 && (b + c) % c == 0 && 2 * (c / 2) == c
  {
    var q := b / (2 * c);
    assert b == q * (2 * c) + 0;
    assert q * (2 * c) == (2 * q) * c;
    QuotientUnique(b, 2 * q, 0, c);
    assert (2 * q + 1) * c == (2 * q) * c + c;
    QuotientUnique(b + c, 2 * q + 1, 0, c);
  }

  // ----- the sizes

  /** Signed division in C, which rounds toward zero. */
  function CDiv(a: int, b: nat): int
    requires b > 0
  {
    if a >= 0 then a / b else -(-a / b)
  }

  /** How many times a number can be halved before it is 0, less one. */
  function Log2(n: nat): nat {
    if n / 2 == 0 then 0 else 1 + Log2(n / 2)
  }

  /** The bits a strong sum needs: BLOCKSUM_BIAS + 2 log2(file length) - log2(block length), not below 0. */
  function SumBits(len: nat, blength: nat): nat {
    var bits := BLOCKSUM_BIAS + 2 * Log2(len) - Log2(blength);
    if bits < 0 then 0 else bits
  }

  lemma {:induction false} Log2Is(n: nat)
    requires n > 0
    ensures Power2(Log2(n)) <= n < Power2(Log2(n) + 1)
  {
    if n / 2 > 0 {
      Log2Is(n / 2);
      assert Power2(Log2(n)) == 2 * Power2(Log2(n / 2));
      assert Power2(Log2(n) + 1) == 2 * Power2(Log2(n / 2) + 1);
    }
  }

  lemma {:induction false} Power2Sum(a: nat, b: nat)
    ensures Power2(a + b) == Power2(a) * Power2(b)
  {
    if a > 0 {
      Power2Sum(a - 1, b);
      DoubleProduct(Power2(a - 1), Power2(b));
      assert Power2(a + b) == 2 * Power2(a - 1 + b);
    }
  }

  lemma DoubleProduct(x: nat, y: nat)
    ensures 2 * (x * y) == (2 * x) * y
  {
  }

  lemma {:induction false} Power2More(a: nat, b: nat)
    requires a <= b
    ensures Power2(a) <= Power2(b)
  {
    if a < b {
      Power2More(a, b - 1);
    }
  }

  lemma ProductLess(a: nat, b: nat, c: nat, d: nat)
    ensures a <= c && b <= d ==> a * b <= c * d
    ensures a <= c && b < d && c > 0 ==> a * b < c * d
  {
    if a <= c && b <= d {
      assert a * b <= c * b <= c * d;
    }
    if a <= c && b < d && c > 0 {
      assert a * b <= c * b < c * d;
    }
  }

  /** Two bits for each doubling of the file's length, and one less for each of the block's: the number of bits is
      that of 0x400 times the square of the length, in blocks, to within a factor of four below and two above. */
  lemma BitsBound(len: nat, blength: nat)
    requires len > 0 && blength > 0
    ensures Power2(SumBits(len, blength) + 2) * blength > 0x400 * (len * len)
    ensures SumBits(len, blength) > 0 ==> Power2(SumBits(len, blength)) * blength < 0x800 * (len * len)
  {
    hide Log2, Power2;
    var l, k, b := Log2(len), Log2(blength), SumBits(len, blength);
    var p, q, r := Power2(l), Power2(k), Power2(b);
    Log2Is(len);
    Log2Is(blength);
    Small();
    Power2Sum(l, 1);
    Power2Sum(k, 1);
    Power2Sum(b, 2);
    Power2Sum(l, l);
    Power2Sum(10, l + l);
    assert Power2(10 + (l + l)) == 0x400 * (p * p);
    Power2Sum(b, k);
    Power2More(10 + (l + l), b + k);
    assert r * q >= 0x400 * (p * p);
    SquareLess(len, 2 * p);
    assert (2 * p) * (2 * p) == 4 * (p * p);
    ProductLess(4 * r, q, 4 * r, blength);
    assert (4 * r) * q == 4 * (r * q);
    if b > 0 {
      assert b + k == 10 + (l + l);
      SquareLess(p, len);
      assert r * blength < r * (2 * q) by { ProductLess(r, blength, r, 2 * q); }
      assert r * (2 * q) == 2 * (r * q);
    }
  }

  lemma Small()
    ensures Power2(1) == 2 && Power2(2) == 4 && Power2(10) == 0x400
  {
    assert Power2(5) == 32;
  }

  /** What that means for the length of a strong sum in bytes, which has four bytes of weak sum beside it. */
  ghost predicate FitsLength(n: nat, csumLength: nat, len: nat, blength: nat) {
    && csumLength <= n <= SUM_LENGTH
    && (len == 0 ==> n == csumLength)
    && (len > 0 && n < SUM_LENGTH ==> Power2(8 * n + 33) * blength > 0x400 * (len * len))
    && (len > 0 && n > csumLength ==> Power2(8 * n + 24) * blength < 0x800 * (len * len))
  }

  lemma LengthFits(len: nat, blength: nat, csumLength: nat)
    requires blength > 0 && csumLength <= SUM_LENGTH
    ensures FitsLength(SumLength(SumBits(len, blength), csumLength), csumLength, len, blength)
  {
    hide Power2, Log2;
    var b, n := SumBits(len, blength), SumLength(SumBits(len, blength), csumLength);
    SumLengthIs(b, csumLength);
    if len == 0 {
      Log2Zero();
    } else {
      BitsBound(len, blength);
      if n < SUM_LENGTH {
        Power2More(b + 2, 8 * n + 33);
        ProductLess(Power2(b + 2), blength, Power2(8 * n + 33), blength);
      }
      if n > csumLength {
        Power2More(8 * n + 24, b);
        ProductLess(Power2(8 * n + 24), blength, Power2(b), blength);
      }
    }
  }

  lemma Log2Zero()
    ensures Log2(0) == 0
  {
  }

  method CountBits(len: nat, blength: nat) returns (b: nat)
    ensures b == SumBits(len, blength)
    ensures len > 0 && blength > 0 ==>
      && Power2(b + 2) * blength > 0x400 * (len * len)
      && (b > 0 ==> Power2(b) * blength < 0x800 * (len * len))
  {
    hide Power2;
    b := BLOCKSUM_BIAS;
    var l: nat := len / 2;
    while l != 0
      invariant b + 2 * (if l == 0 then 0 else 1 + Log2(l)) == BLOCKSUM_BIAS + 2 * Log2(len)
      decreases l
    {
      b := b + 2;
      l := l / 2;
    }
    var c: nat := blength / 2;
    while c != 0 && b != 0
      invariant SumBits(len, blength)
        == (var left := b - (if c == 0 then 0 else 1 + Log2(c)); if left < 0 then 0 else left)
      decreases c
    {
      b := b - 1;
      c := c / 2;
    }
    if len > 0 && blength > 0 {
      BitsBound(len, blength);
    }
  }

  /** The length of a strong sum: enough bytes for its bits less those of the rolling sum, but no fewer than
      asked for, and no more than there are. */
  function SumLength(bits: nat, csumLength: nat): nat
    requires csumLength <= SUM_LENGTH
  {
    Min(SUM_LENGTH, Max(csumLength, CDiv(bits as int + 1 - 32 + 7, 8)))
  }

  lemma SumLengthIs(bits: nat, csumLength: nat)
    requires csumLength <= SUM_LENGTH
    ensures var n := SumLength(bits, csumLength);
      && csumLength <= n <= SUM_LENGTH
      && (8 * n + 32 >= bits + 1 || n == SUM_LENGTH)
      && (n == csumLength || 8 * (n - 1) + 32 < bits + 1)
  {
  }

  /** The block length the heuristic is to give. */
  function BlockLength(len: nat, blockSize: nat, max: nat): nat {
    if blockSize != 0 then blockSize
    else if len <= BLOCK_SIZE * BLOCK_SIZE then BLOCK_SIZE
    else Min(max, Max(BLOCK_SIZE, Root8(len)))
  }

  /** How many blocks there are, and how long the last one is if it is short. */
  ghost predicate Counted(len: nat, h: SumHead) {
    && h.blength > 0 && h.remainder < h.blength && h.flength == len
    && if h.count == -1 then len > INT32_MAX * h.blength
       else 0 <= h.count <= INT32_MAX
            && len == (if h.remainder == 0 then h.count else h.count - 1) * h.blength + h.remainder
            && (h.remainder != 0 ==> h.count > 0)
  }

  /** Sizes for a file of a given length. A negative length, or more blocks than can be counted, is told by
      a count of -1. */
  method SumSizesSqroot(len: int, blockSize: nat, csumLength: nat, protocol: nat) returns (h: SumHead)
    requires blockSize <= MaxBlength(protocol) && csumLength <= SUM_LENGTH
    ensures len < 0 ==> h.count == -1
    ensures len >= 0 ==> h.blength == BlockLength(len, blockSize, MaxBlength(protocol)) <= MaxBlength(protocol)
    ensures len >= 0 ==> Counted(len, h)
    ensures len >= 0 ==>
      && h.blength <= (if protocol < 30 then 0x2000_0000 else 0x2_0000)
      && (blockSize != 0 ==> h.blength == blockSize)
      && (blockSize == 0 ==> BLOCK_SIZE <= h.blength)
      && (blockSize == 0 && h.blength > BLOCK_SIZE ==> h.blength % 8 == 0 && h.blength * h.blength <= len)
      && (blockSize == 0 && h.blength < MaxBlength(protocol) && len > BLOCK_SIZE * BLOCK_SIZE ==>
            len < (h.blength + 8) * (h.blength + 8))
    ensures len >= 0 ==>
      if protocol < 27 then h.s2length == csumLength else FitsLength(h.s2length, csumLength, len, h.blength)
  {
    hide Root8, SumBits, PowerOfTwo, FitsLength;
    h := SumHead(-1, 0, 0, 0, 0);
    if len < 0 {
      return;
    }
    var blength: nat;
    if blockSize != 0 {
      blength := blockSize;
    } else if len <= BLOCK_SIZE * BLOCK_SIZE {
      blength := BLOCK_SIZE;
    } else {
      blength := Heuristic(len, MaxBlength(protocol));
    }
    var s2length;
    if protocol < 27 {
      s2length := csumLength;
    } else if csumLength == SUM_LENGTH {
      s2length := SUM_LENGTH;
    } else {
      var b := CountBits(len, blength);
      s2length := CDiv(b as int + 1 - 32 + 7, 8);
      s2length := Max(s2length, csumLength);
      s2length := Min(s2length, SUM_LENGTH);
    }
    LengthFits(len, blength, csumLength);
    BlockBounds(len, MaxBlength(protocol));
    var remainder := len % blength;
    var l := len / blength + if remainder != 0 then 1 else 0;
    // the count is stored in 32 bits and compared with what was stored
    var count := if l <= INT32_MAX then l else -1;
    h := SumHead(count, blength, s2length, remainder, len);
    CountedOk(len, blength, h);
  }

  /** What the heuristic's block length is, without the root. */
  lemma BlockBounds(len: nat, max: nat)
    requires max in {MAX_BLOCK_SIZE, OLD_MAX_BLOCK_SIZE}
    ensures var b := BlockLength(len, 0, max);
      && BLOCK_SIZE <= b <= max
      && (b > BLOCK_SIZE ==> b % 8 == 0 && b * b <= len)
      && (b < max && len > BLOCK_SIZE * BLOCK_SIZE ==> len < (b + 8) * (b + 8))
  {
    hide Root8;
    var root, b := Root8(len), BlockLength(len, 0, max);
    SquareLess(b, root);
    SquareLess(root + 8, b + 8);
    SquareLess(root, b);
  }

  lemma CountedOk(len: nat, blength: nat, h: SumHead)
    requires blength > 0 && h.blength == blength && h.flength == len && h.remainder == len % blength
    requires var l := len / blength + if len % blength != 0 then 1 else 0;
      h.count == if l <= INT32_MAX then l else -1
    ensures Counted(len, h)
  {
    var q := len / blength;
    assert len == q * blength + len % blength;
    if q > INT32_MAX {
      MoreBlocks(q, blength);
    }
  }

  lemma MoreBlocks(q: nat, blength: nat)
    requires q > INT32_MAX && blength > 0
    ensures q * blength > INT32_MAX * blength
  {
  }

  /** The root, rounded down to a multiple of 8, between BLOCK_SIZE and the protocol's maximum. */
  method Heuristic(len: nat, maxBlength: nat) returns (blength: nat)
    requires len > BLOCK_SIZE * BLOCK_SIZE
    requires maxBlength in {MAX_BLOCK_SIZE, OLD_MAX_BLOCK_SIZE}
    ensures blength == Min(maxBlength, Max(BLOCK_SIZE, Root8(len)))
  {
    hide Root8, PowerOfTwo;
    var c := TopBit(len);
    MaxIsPower(maxBlength);
    if c >= maxBlength {
      blength := maxBlength;
      SquareLess(maxBlength, c);
      RootIs(maxBlength, len);
    } else {
      PowersApart(c, maxBlength);
      LargeTop(len, c);
      blength := BitRoot(len, c);
      blength := Max(blength, BLOCK_SIZE);
    }
  }

  lemma LargeTop(len: nat, c: nat)
    requires len > BLOCK_SIZE * BLOCK_SIZE && len < 4 * (c * c)
    ensures c >= 8
  {
    SquareLess(c, 350);
  }

  lemma MaxIsPower(max: nat)
    requires max in {MAX_BLOCK_SIZE, OLD_MAX_BLOCK_SIZE}
    ensures PowerOfTwo(max) && max % 8 == 0 && max >= BLOCK_SIZE
  {
    PowerPowers(17);
    PowerPowers(29);
    PowerValues();
  }

  lemma {:induction false} PowerPowers(n: nat)
    ensures PowerOfTwo(Power2(n))
  {
    if n > 0 {
      PowerPowers(n - 1);
      assert 2 * Power2(n - 1) / 2 == Power2(n - 1);
    }
  }

  lemma PowerValues()
    ensures Power2(17) == MAX_BLOCK_SIZE && Power2(29) == OLD_MAX_BLOCK_SIZE
  {
    assert Power2(5) == 32;
    assert Power2(10) == 0x400;
    assert Power2(15) == 0x8000;
    assert Power2(20) == 0x10_0000;
    assert Power2(25) == 0x200_0000;
  }

  // ----- the head on the wire

  function WriteInt(x: int): bytes
    requires Varint.Signed(x, 4)
  {
    LittleEndian(ToUnsigned(x, 4), 4)
  }

  function ReadInt(s: bytes): Read<int> {
    if |s| < 4 then Fail else Got(ToSigned(Number(s[..4]), 4), s[4..])
  }

  lemma ReadWriteInt(x: int, rest: bytes)
    requires Varint.Signed(x, 4)
    ensures ReadInt(WriteInt(x) + rest) == Got(x, rest)
  {
    var b := WriteInt(x);
    assert (b + rest)[..4] == b && (b + rest)[4..] == rest;
    NumberOfBytes(ToUnsigned(x, 4), 4);
    SignedRoundTrip(x, 4);
  }

  ghost predicate HeadFits(h: SumHead) {
    0 <= h.count <= INT32_MAX && h.blength <= INT32_MAX && h.s2length <= INT32_MAX && h.remainder <= INT32_MAX
  }

  lemma PositivesSigned(x: int)
    requires 0 <= x <= INT32_MAX
    ensures Varint.Signed(x, 4)
  {
    assert Power256(4) == 0x1_0000_0000;
  }

  function WriteSumHead(h: SumHead, protocol: nat): bytes
    requires HeadFits(h)
  {
    PositivesSigned(h.count);
    PositivesSigned(h.blength);
    PositivesSigned(h.s2length);
    PositivesSigned(h.remainder);
    WriteInt(h.count)
    + (WriteInt(h.blength)
       + ((if protocol >= 27 then WriteInt(h.s2length) else [])
          + WriteInt(h.remainder)))
  }

  /** Refuses a negative count, a block length beyond the protocol's maximum, a sum length beyond the
      longest digest, and a remainder beyond the block length. */
  function ReadSumHead(s: bytes, protocol: nat, csumLength: nat): (r: Read<SumHead>)
    ensures r.Got? ==> 0 <= r.value.count && r.value.blength <= MaxBlength(protocol)
    ensures r.Got? ==> r.value.s2length <= MAX_DIGEST_LEN && r.value.remainder <= r.value.blength
  {
    var (count, s1) :- ReadInt(s);
    if count < 0 then Fail
    else
      var (blength, s2) :- ReadInt(s1);
      if blength < 0 || blength > MaxBlength(protocol) then Fail
      else
        var (s2length, s3) :- if protocol < 27 then Got(csumLength as int, s2) else ReadInt(s2);
        if s2length < 0 || s2length > MAX_DIGEST_LEN then Fail
        else
          var (remainder, s4) :- ReadInt(s3);
          if remainder < 0 || remainder > blength then Fail
          else Got(SumHead(count, blength, s2length, remainder, 0), s4)
  }

  /** The other end accepts every head that sum_sizes_sqroot gives, unless the blocks cannot be counted. */
  lemma HeadAccepted(h: SumHead, len: nat, protocol: nat, csumLength: nat, rest: bytes)
    requires Counted(len, h) && h.count >= 0 && h.blength <= MaxBlength(protocol)
    requires h.s2length <= SUM_LENGTH && (protocol < 27 ==> h.s2length == csumLength)
    ensures HeadFits(h)
    ensures ReadSumHead(WriteSumHead(h, protocol) + rest, protocol, csumLength) == Got(h.(flength := 0), rest)
  {
    hide ReadInt, WriteInt, Varint.Signed;
    PositivesSigned(h.count);
    PositivesSigned(h.blength);
    PositivesSigned(h.s2length);
    PositivesSigned(h.remainder);
    var a, b, d := WriteInt(h.count), WriteInt(h.blength), WriteInt(h.remainder);
    var c := if protocol >= 27 then WriteInt(h.s2length) else [];
    AppendAssoc(c, d, rest);
    AppendAssoc(b, c + d, rest);
    AppendAssoc(a, b + (c + d), rest);
    ReadWriteInt(h.count, b + (c + (d + rest)));
    ReadWriteInt(h.blength, c + (d + rest));
    ReadWriteInt(h.s2length, d + rest);
    ReadWriteInt(h.remainder, rest);
    assert [] + (d + rest) == d + rest;
  }

  // ----- the blocks and their sums

  /** The i-th block of a file. */
  function BlockOf(basis: bytes, blength: nat, i: nat): bytes {
    var from := i * blength;
    if from >= |basis| then [] else basis[from..Min(from + blength, |basis|)]
  }

  /** The sums that are sent for a file. */
  ghost predicate SumsOf(sent: seq<(nat, bytes)>, basis: bytes, h: SumHead, strong: bytes -> bytes) {
    && |sent| == h.count
    && forall i :: 0 <= i < |sent| ==>
         sent[i] == (Weak(BlockOf(basis, h.blength, i)), Truncate(strong(BlockOf(basis, h.blength, i)), h.s2length))
  }

  /** Where the i-th block lies, and how long it is. */
  lemma BlockPlace(len: nat, h: SumHead, i: nat)
    requires Counted(len, h) && i < h.count
    ensures i * h.blength < len
    ensures Min(len - i * h.blength, h.blength) ==
      if i == h.count - 1 && h.remainder != 0 then h.remainder else h.blength
    ensures i < h.count - 1 ==> (i + 1) * h.blength < len
    ensures i == h.count - 1 ==> len - i * h.blength <= h.blength
  {
    var b := h.blength;
    var full := if h.remainder == 0 then h.count else h.count - 1;
    assert full * b == i * b + (full - i) * b;
    assert (i + 1) * b == i * b + b;
    MultipleBounds(full - i, b);
    MultipleBounds(full - i - 1, b);
    assert (full - i) * b == (full - i - 1) * b + b;
  }

  /** The generator's loop: one block after the other, the last one perhaps shorter. */
  method GenerateSums(basis: bytes, h: SumHead, strong: bytes -> bytes) returns (sent: seq<(nat, bytes)>)
    requires Counted(|basis|, h) && h.count >= 0
    ensures SumsOf(sent, basis, h, strong)
  {
    hide Counted, Weak, Truncate;
    sent := [];
    var len, offset, i := |basis|, 0, 0;
    while i < h.count
      invariant 0 <= i <= h.count && |sent| == i
      invariant i < h.count ==> offset == i * h.blength && len == |basis| - offset
      invariant forall k :: 0 <= k < i ==>
        sent[k] == (Weak(BlockOf(basis, h.blength, k)), Truncate(strong(BlockOf(basis, h.blength, k)), h.s2length))
    {
      BlockPlace(|basis|, h, i);
      var n1 := Min(len, h.blength);
      var buf := basis[offset..offset + n1];
      assert buf == BlockOf(basis, h.blength, i);
      len := len - n1;
      offset := offset + n1;
      assert (i + 1) * h.blength == i * h.blength + h.blength;
      var sum1 := GetChecksum1(buf);
      sent := sent + [(sum1, Truncate(strong(buf), h.s2length))];
      i := i + 1;
    }
  }

  /** How long a file is whose table has this head. */
  function TableLength(h: SumHead): int {
    if h.count <= 0 then 0
    else if h.remainder != 0 then (h.count - 1) * h.blength + h.remainder
    else h.count * h.blength
  }

  /** The i-th row of the table. */
  function Row(h: SumHead, sent: seq<(nat, bytes)>, i: nat): SumBuf
    requires i < |sent|
  {
    SumBuf(i * h.blength, if i == h.count - 1 && h.remainder != 0 then h.remainder else h.blength,
           sent[i].0, sent[i].1)
  }

  ghost predicate TableOf(sums: seq<SumBuf>, h: SumHead, sent: seq<(nat, bytes)>) {
    |sums| == |sent| == h.count && forall i :: 0 <= i < |sums| ==> sums[i] == Row(h, sent, i)
  }

  /** Where the next row begins, or the file ends. */
  function NextOffset(h: SumHead, i: nat): int {
    if i == h.count then TableLength(h) else i * h.blength
  }

  lemma RowFits(h: SumHead, sent: seq<(nat, bytes)>, i: nat)
    requires i < h.count == |sent|
    ensures Row(h, sent, i) == SumBuf(NextOffset(h, i),
                                      if i == h.count - 1 && h.remainder != 0 then h.remainder else h.blength,
                                      sent[i].0, sent[i].1)
    ensures NextOffset(h, i + 1) == NextOffset(h, i) + Row(h, sent, i).len
  {
    assert (i + 1) * h.blength == i * h.blength + h.blength;
  }

  /** receive_sums: the table is built from the head and the sums alone. */
  method ReceiveSums(h: SumHead, sent: seq<(nat, bytes)>) returns (sums: seq<SumBuf>, flength: int)
    requires |sent| == h.count
    ensures TableOf(sums, h, sent) && flength == TableLength(h)
  {
    hide NextOffset, Row, TableLength;
    sums, flength := [], 0;
    var i := 0;
    FirstOffset(h);
    while i < h.count
      invariant 0 <= i <= h.count && |sums| == i && flength == NextOffset(h, i) >= 0
      invariant forall k :: 0 <= k < i ==> sums[k] == Row(h, sent, k)
    {
      RowFits(h, sent, i);
      var len := if i == h.count - 1 && h.remainder != 0 then h.remainder else h.blength;
      sums := sums + [SumBuf(flength, len, sent[i].0, sent[i].1)];
      flength := flength + len;
      i := i + 1;
    }
    LastOffset(h);
  }

  lemma FirstOffset(h: SumHead)
    requires h.count >= 0
    ensures NextOffset(h, 0) == 0
  {
  }

  lemma LastOffset(h: SumHead)
    requires h.count >= 0
    ensures NextOffset(h, h.count) == TableLength(h)
  {
  }

  /** The blocks of the table lie end to end and make up the whole basis file, and each has the sums of its
      own bytes. */
  lemma BlocksTile(basis: bytes, h: SumHead, sent: seq<(nat, bytes)>, sums: seq<SumBuf>, strong: bytes -> bytes)
    requires Counted(|basis|, h) && h.count >= 0 && SumsOf(sent, basis, h, strong) && TableOf(sums, h, sent)
    ensures Tiled(sums, h.blength) && TableLength(h) == |basis|
    ensures forall i :: 0 <= i < |sums| ==> sums[i].offset + sums[i].len <= |basis|
    ensures Flatten(Blocks(sums, basis)) == basis
    ensures forall i :: 0 <= i < |sums| ==>
      && sums[i].sum1 == Weak(Blocks(sums, basis)[i])
      && sums[i].sum2 == Truncate(strong(Blocks(sums, basis)[i]), h.s2length)
  {
    hide Weak, Truncate, Flatten, Counted, SumsOf, TableOf, Tiled, BlockOf, TableLength;
    RowsTile(basis, h, sent, sums);
    RowsSums(basis, h, sent, sums, strong);
    WholeLength(|basis|, h);
    FlattenTiles(basis, h.blength, sums, |sums|);
    assert Blocks(sums, basis)[..|sums|] == Blocks(sums, basis);
    if |sums| > 0 {
      RowIs(h, sent, sums, |sums| - 1);
      BlockPlace(|basis|, h, |sums| - 1);
    } else {
      NoRows(|basis|, h, sent, sums);
    }
    assert basis[..|basis|] == basis;
  }

  lemma RowIs(h: SumHead, sent: seq<(nat, bytes)>, sums: seq<SumBuf>, i: nat)
    requires TableOf(sums, h, sent) && i < |sums|
    ensures |sums| == |sent| == h.count && sums[i] == Row(h, sent, i)
  {
  }

  lemma NoRows(len: nat, h: SumHead, sent: seq<(nat, bytes)>, sums: seq<SumBuf>)
    requires TableOf(sums, h, sent) && Counted(len, h) && |sums| == 0
    ensures len == 0
  {
  }

  lemma WholeLength(len: nat, h: SumHead)
    requires Counted(len, h) && h.count >= 0
    ensures TableLength(h) == len
  {
  }

  lemma RowsTile(basis: bytes, h: SumHead, sent: seq<(nat, bytes)>, sums: seq<SumBuf>)
    requires Counted(|basis|, h) && h.count >= 0 && TableOf(sums, h, sent)
    ensures Tiled(sums, h.blength)
    ensures forall i :: 0 <= i < |sums| ==> sums[i].offset + sums[i].len <= |basis|
    ensures forall i :: 0 <= i < |sums| ==>
      basis[sums[i].offset..sums[i].offset + sums[i].len] == BlockOf(basis, h.blength, i)
  {
    hide Counted, TableOf;
    CountedPositive(|basis|, h);
    forall i | 0 <= i < |sums|
      ensures sums[i].offset + sums[i].len <= |basis| && 0 < sums[i].len <= h.blength
      ensures sums[i].offset == i * h.blength && (i < |sums| - 1 ==> sums[i].len == h.blength)
      ensures basis[sums[i].offset..sums[i].offset + sums[i].len] == BlockOf(basis, h.blength, i)
    {
      RowIs(h, sent, sums, i);
      BlockPlace(|basis|, h, i);
    }
  }

  lemma CountedPositive(len: nat, h: SumHead)
    requires Counted(len, h)
    ensures 0 < h.blength && h.remainder < h.blength
  {
  }

  lemma RowsSums(basis: bytes, h: SumHead, sent: seq<(nat, bytes)>, sums: seq<SumBuf>, strong: bytes -> bytes)
    requires SumsOf(sent, basis, h, strong) && TableOf(sums, h, sent)
    ensures forall i :: 0 <= i < |sums| ==>
      && sums[i].sum1 == Weak(BlockOf(basis, h.blength, i))
      && sums[i].sum2 == Truncate(strong(BlockOf(basis, h.blength, i)), h.s2length)
  {
    hide Weak, Truncate, BlockOf;
  }

  /** Tiles end to end make up what they cover. */
  lemma {:induction false} FlattenTiles(basis: bytes, blength: nat, sums: seq<SumBuf>, n: nat)
    requires n <= |sums| && Tiled(sums, blength)
    requires forall i :: 0 <= i < |sums| ==> sums[i].offset + sums[i].len <= |basis|
    ensures Flatten(Blocks(sums, basis)[..n]) ==
      basis[..if n == 0 then 0 else sums[n - 1].offset + sums[n - 1].len]
  {
    var blocks := Blocks(sums, basis);
    if n > 0 {
      hide Tiled;
      FlattenTiles(basis, blength, sums, n - 1);
      EndToEnd(blength, sums, n - 1);
      FlattenNext(blocks, n - 1);
      var last := sums[n - 1];
      SplitSlice(basis, 0, last.offset, last.offset + last.len);
    }
  }

  lemma FlattenNext(blocks: seq<bytes>, n: nat)
    requires n < |blocks|
    ensures Flatten(blocks[..n + 1]) == Flatten(blocks[..n]) + blocks[n]
  {
    assert blocks[..n + 1] == blocks[..n] + [blocks[n]];
    FlattenAppend(blocks[..n], blocks[n]);
  }

  lemma EndToEnd(blength: nat, sums: seq<SumBuf>, n: nat)
    requires Tiled(sums, blength) && n < |sums|
    ensures sums[n].offset == if n == 0 then 0 else sums[n - 1].offset + sums[n - 1].len
  {
    if n > 0 {
      assert (n - 1) * blength + blength == n * blength;
    }
  }

  /** So the delta scan finds its setting: a table that tiles the basis, with the sums of its blocks. */
  lemma SumsMakeSetting(basis: bytes, h: SumHead, sent: seq<(nat, bytes)>, job: Job)
    requires Counted(|basis|, h) && h.count >= 0 && 0 < h.blength <= OLD_MAX_BLOCK_SIZE
    requires SumsOf(sent, basis, h, job.strong) && TableOf(job.sums, h, sent)
    requires job.blength == h.blength && job.s2length == h.s2length
    requires forall i :: 0 <= i < |job.sums| ==> job.sums[i].offset + job.sums[i].len <= |basis|
    ensures job.Setting(Blocks(job.sums, basis)) && job.Honest(Blocks(job.sums, basis))
  {
    hide Counted, SumsOf, TableOf;
    BlocksTile(basis, h, sent, job.sums, job.strong);
  }
}
