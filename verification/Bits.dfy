/**
 * The bit operations of src/base/base64.cc on bytes, and the arithmetic they amount to.  An OR whose operands
 * share no bit is a sum, and a shift to the left that is cast to uint8_t drops what goes beyond eight bits.
 */
module Bits {
  import opened Wrappers

  lemma SameValue(b: int)
    requires 0 <= b < 256
    ensures (b as bv8) as int == b
  {
    assert b % 256 == b;
  }

  // ----- a byte is its high bits and its low bits

  lemma SplitAt2(a: bv8)
    ensures a as int == (a >> 2) as int * 4 + (a & 0x03) as int && (a & 0x03) as int < 4
  {
  }

  lemma SplitAt4(a: bv8)
    ensures a as int == (a >> 4) as int * 16 + (a & 0x0f) as int && (a & 0x0f) as int < 16
  {
  }

  lemma SplitAt6(a: bv8)
    ensures a as int == (a >> 6) as int * 64 + (a & 0x3f) as int && (a & 0x3f) as int < 64
  {
  }

  lemma ShiftLow(a: bv8)
    ensures ((a & 0x03) << 4) as int == (a & 0x03) as int * 16
    ensures ((a & 0x0f) << 2) as int == (a & 0x0f) as int * 4
    ensures (a << 2) as int == (a & 0x3f) as int * 4
    ensures (a << 4) as int == (a & 0x0f) as int * 16
    ensures (a << 6) as int == (a & 0x03) as int * 64
  {
  }

  lemma OrAt2(a: bv8, b: bv8)
    requires a & 0x03 == 0 && b & 0xfc == 0
    ensures (a | b) as int == a as int + b as int
  {
    SplitAt2(a | b);
    SplitAt2(a);
    assert (a | b) >> 2 == a >> 2 && (a | b) & 0x03 == b;
  }

  lemma OrAt4(a: bv8, b: bv8)
    requires a & 0x0f == 0 && b & 0xf0 == 0
    ensures (a | b) as int == a as int + b as int
  {
    SplitAt4(a | b);
    SplitAt4(a);
    assert (a | b) >> 4 == a >> 4 && (a | b) & 0x0f == b;
  }

  lemma OrAt6(a: bv8, b: bv8)
    requires a & 0x3f == 0 && b & 0xc0 == 0
    ensures (a | b) as int == a as int + b as int
  {
    SplitAt6(a | b);
    SplitAt6(a);
    assert (a | b) >> 6 == a >> 6 && (a | b) & 0x3f == b;
  }

  /** Quotient and remainder are determined by their equation. */
  lemma Divided(n: int, q: int, r: int)
    ensures n == q * 4 + r && 0 <= r < 4 ==> q == n / 4 && r == n % 4
    ensures n == q * 16 + r && 0 <= r < 16 ==> q == n / 16 && r == n % 16
    ensures n == q * 64 + r && 0 <= r < 64 ==> q == n / 64 && r == n % 64
  {
  }

  lemma Parts(a: bv8)
    ensures (a >> 2) as int == a as int / 4 && (a & 0x03) as int == a as int % 4
    ensures (a >> 4) as int == a as int / 16 && (a & 0x0f) as int == a as int % 16
    ensures (a >> 6) as int == a as int / 64 && (a & 0x3f) as int == a as int % 64
  {
    SplitAt2(a);
    SplitAt4(a);
    SplitAt6(a);
    Divided(a as int, (a >> 2) as int, (a & 0x03) as int);
    Divided(a as int, (a >> 4) as int, (a & 0x0f) as int);
    Divided(a as int, (a >> 6) as int, (a & 0x3f) as int);
  }

  // ----- from bytes to digits

  /** `carry0 | (s[1] >> 4)` */
  lemma SecondDigit(a: bv8, b: bv8)
    ensures (((a & 0x03) << 4) | (b >> 4)) as int == a as int % 4 * 16 + b as int / 16
  {
    OrAt4((a & 0x03) << 4, b >> 4);
    ShiftLow(a);
    Parts(a);
    Parts(b);
  }

  /** `carry1 | (s[2] >> 6)` */
  lemma ThirdDigit(b: bv8, c: bv8)
    ensures (((b & 0x0f) << 2) | (c >> 6)) as int == b as int % 16 * 4 + c as int / 64
  {
    OrAt2((b & 0x0f) << 2, c >> 6);
    ShiftLow(b);
    Parts(b);
    Parts(c);
  }

  // ----- from digits to bytes

  /** `(d[0] << 2) | (d[1] >> 4)` */
  lemma FirstByte(d0: bv8, d1: bv8)
    requires d0 < 0x40 && d1 < 0x40
    ensures ((d0 << 2) | (d1 >> 4)) as int == d0 as int * 4 + d1 as int / 16
  {
    OrAt2(d0 << 2, d1 >> 4);
    ShiftLow(d0);
    assert d0 & 0x3f == d0;
    Parts(d1);
  }

  /** `(d[1] << 4) | (d[2] >> 2)` */
  lemma SecondByte(d1: bv8, d2: bv8)
    requires d2 < 0x40
    ensures ((d1 << 4) | (d2 >> 2)) as int == d1 as int % 16 * 16 + d2 as int / 4
  {
    OrAt4(d1 << 4, d2 >> 2);
    ShiftLow(d1);
    Parts(d1);
    Parts(d2);
  }

  /** `(d[2] << 6) | d[3]` */
  lemma ThirdByte(d2: bv8, d3: bv8)
    requires d3 < 0x40
    ensures ((d2 << 6) | d3) as int == d2 as int % 4 * 64 + d3 as int
  {
    OrAt6(d2 << 6, d3);
    ShiftLow(d2);
    Parts(d2);
  }
}
