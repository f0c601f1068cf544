/**
 * HashBucket.CountBits: the population count of a 32-bit word, computed by
 * summing bits in parallel inside the word (pairs, then nibbles, then bytes)
 * and adding the four byte counts with one multiplication.
 *
 * The proof goes byte by byte: each byte of the third stage holds the number
 * of set bits of the matching byte of the input (a bit-vector fact), that
 * number is turned into an integer count (PopBelow over eight bits), and the
 * four counts add up to the count of the whole word.
 */
module HashBucketBits {
  import opened Bits

  lemma ShiftBit8(v: bv32, j: bv5)
    requires j < 24
    ensures IsSet(v >> 8, j) == IsSet(v, j + 8)
  {}

  lemma {:induction false} PopShift8(v: bv32, j: bv6)
    requires j <= 24
    ensures PopBelow(v, 8 + j) == PopBelow(v, 8) + PopBelow(v >> 8, j)
    decreases j
  {
    if j != 0 {
      PopShift8(v, j - 1);
      ShiftBit8(v, (j - 1) as bv5);
    }
  }

  function ByteSum(w: bv32): bv32 {
    0 + ((w >> 0) & 1) + ((w >> 1) & 1) + ((w >> 2) & 1) + ((w >> 3) & 1) + ((w >> 4) & 1) + ((w >> 5) & 1) + ((w >> 6) & 1) + ((w >> 7) & 1)
  }

  /** Bit-vector sum of the low `n` bits, the bridge between ByteSum and PopBelow. */
  function SumBits(w: bv32, n: bv6): bv32
    requires n <= 8
    decreases n
  {
    if n == 0 then 0 else SumBits(w, n - 1) + ((w >> (n - 1) as bv5) & 1)
  }

  lemma SmallInc(a: bv32, b: bv32)
    requires a < 8 && b <= 1
    ensures (a + b) as int == a as int + b as int
  {}

  lemma {:induction false} SumBitsCount(w: bv32, n: bv6)
    requires n <= 8
    ensures SumBits(w, n) <= n as bv32
    ensures SumBits(w, n) as int == PopBelow(w, n)
    decreases n
  {
    if n != 0 {
      SumBitsCount(w, n - 1);
      SmallInc(SumBits(w, n - 1), (w >> (n - 1) as bv5) & 1);
    }
  }

  lemma ByteSumBits(w: bv32) ensures ByteSum(w) == SumBits(w, 8) {
    assert SumBits(w, 1) == 0 + ((w >> 0) & 1);
    assert SumBits(w, 2) == SumBits(w, 1) + ((w >> 1) & 1);
    assert SumBits(w, 3) == SumBits(w, 2) + ((w >> 2) & 1);
    assert SumBits(w, 4) == SumBits(w, 3) + ((w >> 3) & 1);
    assert SumBits(w, 5) == SumBits(w, 4) + ((w >> 4) & 1);
    assert SumBits(w, 6) == SumBits(w, 5) + ((w >> 5) & 1);
    assert SumBits(w, 7) == SumBits(w, 6) + ((w >> 6) & 1);
    assert SumBits(w, 8) == SumBits(w, 7) + ((w >> 7) & 1);
  }


  lemma Split(v: bv32, w: bv32, j: bv6)
    requires w == v >> 8 && j <= 24
    ensures PopBelow(v, 8 + j) == PopBelow(v, 8) + PopBelow(w, j)
  { PopShift8(v, j); }

  lemma PopSplit32(v: bv32, w1: bv32, w2: bv32, w3: bv32)
    requires w1 == v >> 8 && w2 == w1 >> 8 && w3 == w2 >> 8
    ensures PopBelow(v, 32) == PopBelow(v, 8) + PopBelow(w1, 8) + PopBelow(w2, 8) + PopBelow(w3, 8)
  { Split(v, w1, 24); Split(w1, w2, 16); Split(w2, w3, 8); }
  /** A bit-vector byte count `s` of `w` has the integer value PopBelow(w, 8). */
  lemma ByteCount(w: bv32, s: bv32)
    requires s == ByteSum(w)
    ensures s <= 8
    ensures s as int == PopBelow(w, 8)
  {
    ByteSumBits(w);
    SumBitsCount(w, 8);
  }

  lemma Add2(a: bv32, b: bv32, s: bv32, pa: nat, pb: nat)
    requires s == a + b && a <= 16 && b <= 16
    requires a as int == pa && b as int == pb
    ensures s as int == pa + pb
    ensures s <= 32
  {}

  lemma SumOfBytes(p: bv32, s0: bv32, s1: bv32, s2: bv32, s3: bv32, q0: nat, q1: nat, q2: nat, q3: nat)
    requires p == (s0 + s1) + (s2 + s3)
    requires s0 <= 8 && s1 <= 8 && s2 <= 8 && s3 <= 8
    requires s0 as int == q0 && s1 as int == q1 && s2 as int == q2 && s3 as int == q3
    ensures p as int == q0 + q1 + q2 + q3
  {
    Add2(s0, s1, s0 + s1, q0, q1);
    Add2(s2, s3, s2 + s3, q2, q3);
    Add2(s0 + s1, s2 + s3, p, q0 + q1, q2 + q3);
  }


  function Pairs(v: bv32): bv32 { v - ((v >> 1) & 0x5555_5555) }
  function Quads(v: bv32): bv32 { (v & 0x3333_3333) + ((v >> 2) & 0x3333_3333) }
  function Octets(v: bv32): bv32 { (v + (v >> 4)) & 0x0F0F_0F0F }
  function Stage3(v: bv32): bv32 { Octets(Quads(Pairs(v))) }

  lemma Byte0(v: bv32) ensures Stage3(v) & 0xFF == ByteSum(v) {}
  lemma Byte1(v: bv32) ensures (Stage3(v) >> 8) & 0xFF == ByteSum(v >> 8) {}
  lemma Byte2(v: bv32) ensures ((Stage3(v) >> 8) >> 8) & 0xFF == ByteSum((v >> 8) >> 8) {}
  lemma Byte3(v: bv32) ensures ((Stage3(v) >> 8) >> 8) >> 8 == ByteSum(((v >> 8) >> 8) >> 8) {}
  lemma NibblesClear(v: bv32) ensures Stage3(v) & 0xF0F0_F0F0 == 0 {}

  /** The sum of the four bytes of x. */
  function ByteTotal(x: bv32): bv32 {
    ((x & 0xFF) + ((x >> 8) & 0xFF)) + ((((x >> 8) >> 8) & 0xFF) + (((x >> 8) >> 8) >> 8))
  }
  lemma MultShifts(x: bv32)
    ensures (x * 0x0101_0101) >> 24 == (x + (x << 8) + (x << 16) + (x << 24)) >> 24
  {}
  lemma ShiftsTotal(x: bv32)
    requires x & 0xF0F0_F0F0 == 0
    ensures (x + (x << 8) + (x << 16) + (x << 24)) >> 24 == ByteTotal(x)
  {}
  lemma Mult(x: bv32)
    requires x & 0xF0F0_F0F0 == 0
    ensures (x * 0x0101_0101) >> 24 == ByteTotal(x)
  { MultShifts(x); ShiftsTotal(x); }

  lemma Count0(v: bv32, b: bv32)
    requires b == Stage3(v) & 0xFF
    ensures b <= 8 && b as int == PopBelow(v, 8)
  { Byte0(v); ByteCount(v, b); }
  lemma Count1(v: bv32, b: bv32)
    requires b == (Stage3(v) >> 8) & 0xFF
    ensures b <= 8 && b as int == PopBelow(v >> 8, 8)
  { Byte1(v); ByteCount(v >> 8, b); }
  lemma Count2(v: bv32, b: bv32)
    requires b == ((Stage3(v) >> 8) >> 8) & 0xFF
    ensures b <= 8 && b as int == PopBelow((v >> 8) >> 8, 8)
  { Byte2(v); ByteCount((v >> 8) >> 8, b); }
  lemma Count3(v: bv32, b: bv32)
    requires b == ((Stage3(v) >> 8) >> 8) >> 8
    ensures b <= 8 && b as int == PopBelow(((v >> 8) >> 8) >> 8, 8)
  { Byte3(v); ByteCount(((v >> 8) >> 8) >> 8, b); }

  /** b0..b3 are the numbers of set bits in the low bytes of w0..w3. */
  predicate ByteCounts(w0: bv32, w1: bv32, w2: bv32, w3: bv32, b0: bv32, b1: bv32, b2: bv32, b3: bv32) {
    && b0 <= 8 && b0 as int == PopBelow(w0, 8)
    && b1 <= 8 && b1 as int == PopBelow(w1, 8)
    && b2 <= 8 && b2 as int == PopBelow(w2, 8)
    && b3 <= 8 && b3 as int == PopBelow(w3, 8)
  }

  lemma StageCounts(v: bv32, x: bv32)
    requires x == Stage3(v)
    ensures ByteCounts(v, v >> 8, (v >> 8) >> 8, ((v >> 8) >> 8) >> 8,
      x & 0xFF, (x >> 8) & 0xFF, ((x >> 8) >> 8) & 0xFF, ((x >> 8) >> 8) >> 8)
  {
    Count0(v, x & 0xFF);
    Count1(v, (x >> 8) & 0xFF);
    Count2(v, ((x >> 8) >> 8) & 0xFF);
    Count3(v, ((x >> 8) >> 8) >> 8);
  }

  lemma TotalCount(v: bv32, w1: bv32, w2: bv32, w3: bv32, b0: bv32, b1: bv32, b2: bv32, b3: bv32)
    requires w1 == v >> 8 && w2 == w1 >> 8 && w3 == w2 >> 8
    requires ByteCounts(v, w1, w2, w3, b0, b1, b2, b3)
    ensures ((b0 + b1) + (b2 + b3)) as int == Popcount(v)
  {
    SumOfBytes((b0 + b1) + (b2 + b3), b0, b1, b2, b3, PopBelow(v, 8), PopBelow(w1, 8), PopBelow(w2, 8), PopBelow(w3, 8));
    PopSplit32(v, w1, w2, w3);
  }

  lemma TotalOf(v: bv32, w1: bv32, w2: bv32, w3: bv32, x: bv32)
    requires w1 == v >> 8 && w2 == w1 >> 8 && w3 == w2 >> 8
    requires ByteCounts(v, w1, w2, w3, x & 0xFF, (x >> 8) & 0xFF, ((x >> 8) >> 8) & 0xFF, ((x >> 8) >> 8) >> 8)
    ensures ByteTotal(x) as int == Popcount(v)
  {
    TotalCount(v, w1, w2, w3, x & 0xFF, (x >> 8) & 0xFF, ((x >> 8) >> 8) & 0xFF, ((x >> 8) >> 8) >> 8);
  }

  lemma SwarBytes(v: bv32, x: bv32, top: bv32)
    requires x == Stage3(v) && top == (x * 0x0101_0101) >> 24
    ensures top == ByteTotal(x)
    ensures ByteCounts(v, v >> 8, (v >> 8) >> 8, ((v >> 8) >> 8) >> 8,
      x & 0xFF, (x >> 8) & 0xFF, ((x >> 8) >> 8) & 0xFF, ((x >> 8) >> 8) >> 8)
  {
    NibblesClear(v);
    Mult(x);
    StageCounts(v, x);
  }

  lemma SwarTotal(v: bv32, x: bv32, top: bv32)
    requires top == ByteTotal(x)
    requires ByteCounts(v, v >> 8, (v >> 8) >> 8, ((v >> 8) >> 8) >> 8,
      x & 0xFF, (x >> 8) & 0xFF, ((x >> 8) >> 8) & 0xFF, ((x >> 8) >> 8) >> 8)
    ensures top as int == Popcount(v)
  {
    TotalOf(v, v >> 8, (v >> 8) >> 8, ((v >> 8) >> 8) >> 8, x);
  }

  lemma SwarCount(v: bv32, x: bv32, top: bv32)
    requires x == Stage3(v) && top == (x * 0x0101_0101) >> 24
    ensures top as int == Popcount(v)
  {
    SwarBytes(v, x, top);
    SwarTotal(v, x, top);
  }

  method CountBits(v0: bv32) returns (r: int)
    ensures r == Popcount(v0)
  {
    var v := v0;
    v := v - ((v >> 1) & 0x5555_5555);
    v := (v & 0x3333_3333) + ((v >> 2) & 0x3333_3333);
    v := (v + (v >> 4)) & 0x0F0F_0F0F;
    var top := (v * 0x0101_0101) >> 24;
    SwarCount(v0, v, top);
    r := top as int;
  }

  /**
   * ComputePhysicalSlot: a full node is indexed by the logical slot itself;
   * otherwise the physical slot is the number of used slots below it.
   */
  method ComputePhysicalSlot(used: bv32, length: nat, s: bv5) returns (r: int)
    ensures r == PhysicalSlot(used, length, s)
  {
    if length == 32 {
      return s as int;
    }
    if s == 0 {
      return 0;
    }
    var mask := 0xFFFF_FFFF >> (32 - s as bv32);
    r := CountBits(used & mask);
  }
}
