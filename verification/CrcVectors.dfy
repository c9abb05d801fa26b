/** Values of the CRC-32C that are published or stand in the source: they tie the
    polynomial, the order of the bits and the initial value.  Registers are computed
    here as 32-bit vectors. */
module CrcVectors {
  import opened Bits
  import opened Crc32c
  import opened KeyHash

  // ---- the register as a bit vector --------------------------------------------------------------

  function Low(z: bv32): nat { if z & 1 == 1 then 1 else 0 }

  function Number(z: bv32): nat
    decreases z
  {
    if z == 0 then 0 else Low(z) + 2 * Number(z >> 1)
  }

  lemma NumberParts(z: bv32)
    ensures Number(z) == Low(z) + 2 * Number(z >> 1)
  {}

  lemma {:induction false} NumberPositive(z: bv32)
    requires z != 0
    ensures Number(z) > 0
    decreases z
  {
    if z & 1 == 0 {
      assert z >> 1 != 0;
      NumberPositive(z >> 1);
    }
  }

  lemma XorDigits(x: bv32, y: bv32)
    ensures (x ^ y) >> 1 == (x >> 1) ^ (y >> 1) && Low(x ^ y) == if Low(x) != Low(y) then 1 else 0
  {}

  lemma {:induction false} XorNumbers(x: bv32, y: bv32, z: bv32)
    requires z == x ^ y
    ensures Xor(Number(x), Number(y)) == Number(z)
    decreases Number(x) + Number(y)
  {
    if x != 0 || y != 0 {
      Smaller(x, y);
      XorDigits(x, y);
      XorNumbers(x >> 1, y >> 1, z >> 1);
      NumberParts(x);
      NumberParts(y);
      NumberParts(z);
      XorJoin(Number(x), Number(y), Number(z), Low(x), Number(x >> 1), Low(y), Number(y >> 1), Number(z >> 1));
    }
  }

  lemma Smaller(x: bv32, y: bv32)
    requires x != 0 || y != 0
    ensures Number(x >> 1) + Number(y >> 1) < Number(x) + Number(y)
  {
    if x != 0 { NumberPositive(x); }
    if y != 0 { NumberPositive(y); }
    NumberParts(x);
    NumberParts(y);
  }

  lemma XorJoin(m: nat, n: nat, r: nat, a: nat, x: nat, b: nat, y: nat, z: nat)
    requires a <= 1 && b <= 1 && Xor(x, y) == z && m == a + 2 * x && n == b + 2 * y
    requires r == (if a != b then 1 else 0) + 2 * z
    ensures Xor(m, n) == r
  {
    assert m / 2 == x && m % 2 == a && n / 2 == y && n % 2 == b;
    XorHalf(m, n);
  }

  function ShiftOne(c: bv32): bv32 {
    if c & 1 == 1 then (c >> 1) ^ 0x82f63b78 else c >> 1
  }

  function ShiftByte(c: bv32): bv32 {
    ShiftOne(ShiftOne(ShiftOne(ShiftOne(ShiftOne(ShiftOne(ShiftOne(ShiftOne(c))))))))
  }

  function ShiftWord(c: bv32): bv32 {
    ShiftByte(ShiftByte(ShiftByte(ShiftByte(c))))
  }

  lemma ShiftOneIs(c: bv32)
    ensures Step(Number(c)) == Number(ShiftOne(c))
  {
    NumberParts(c);
    assert Number(c) / 2 == Number(c >> 1) && Number(c) % 2 == Low(c);
    PolyIs();
    XorNumbers(c >> 1, 0x82f63b78, (c >> 1) ^ 0x82f63b78);
  }

  lemma ShiftByteIs(c: bv32)
    ensures Steps(8, Number(c)) == Number(ShiftByte(c))
  {
    ShiftFourIs(c);
    ShiftFourIs(ShiftFour(c));
    StepsAdd(4, 4, Number(c));
  }

  function ShiftFour(c: bv32): bv32 { ShiftOne(ShiftOne(ShiftOne(ShiftOne(c)))) }

  lemma ShiftFourIs(c: bv32)
    ensures Steps(4, Number(c)) == Number(ShiftFour(c))
  {
    var d := ShiftOne(c);
    var e := ShiftOne(d);
    ShiftOneIs(c);
    ShiftOneIs(d);
    ShiftOneIs(e);
    ShiftOneIs(ShiftOne(e));
    assert Steps(4, Number(c)) == Steps(3, Number(d)) == Steps(2, Number(e)) == Steps(1, Number(ShiftOne(e)));
  }

  lemma ShiftWordIs(c: bv32)
    ensures Steps(32, Number(c)) == Number(ShiftWord(c))
  {
    var d := ShiftByte(ShiftByte(c));
    ShiftByteIs(c);
    ShiftByteIs(ShiftByte(c));
    ShiftByteIs(d);
    ShiftByteIs(ShiftByte(d));
    StepsAdd(8, 8, Number(c));
    StepsAdd(8, 8, Number(d));
    StepsAdd(16, 16, Number(c));
  }

  // ---- numerals ----------------------------------------------------------------------------------

  function Pair(z: bv32): nat { Low(z) + if z & 2 == 2 then 2 else 0 }

  function Digit(z: bv32): nat { Pair(z) + 4 * Pair(z >> 2) }

  function Byte(z: bv32): nat { Digit(z) + 16 * Digit(z >> 4) }

  lemma PairIs(z: bv32, y: bv32)
    requires y == z >> 2
    ensures Number(z) == Pair(z) + 4 * Number(y)
  {
    var x := z >> 1;
    PairBits(z, x, y);
    NumberParts(z);
    NumberParts(x);
  }

  lemma PairBits(z: bv32, x: bv32, y: bv32)
    requires x == z >> 1 && y == z >> 2
    ensures x >> 1 == y && 2 * Low(x) == if z & 2 == 2 then 2 else 0
  {}

  lemma DigitIs(z: bv32, x: bv32, y: bv32)
    requires x == z >> 2 && y == z >> 4
    ensures Number(z) == Digit(z) + 16 * Number(y)
  {
    PairIs(z, x);
    PairIs(x, y);
  }

  lemma ByteIs(z: bv32, x: bv32, y: bv32)
    requires x == z >> 4 && y == z >> 8
    ensures Number(z) == Byte(z) + 256 * Number(y)
  {
    DigitIs(z, z >> 2, x);
    DigitIs(x, x >> 2, y);
  }

  lemma HalfIs(z: bv32, x: bv32, y: bv32)
    requires x == z >> 8 && y == z >> 16
    ensures Number(z) == Byte(z) + 0x100 * Byte(x) + 0x1_0000 * Number(y)
  {
    ByteIs(z, z >> 4, x);
    ByteIs(x, x >> 4, y);
  }

  function Value(z: bv32): nat {
    Byte(z) + 0x100 * Byte(z >> 8) + 0x1_0000 * Byte(z >> 16) + 0x100_0000 * Byte(z >> 24)
  }

  /** The value of a 32-bit numeral. */
  lemma NumeralIs(z: bv32)
    ensures Number(z) == Value(z)
  {
    var y := z >> 16;
    HalfIs(z, z >> 8, y);
    HalfIs(y, z >> 24, 0);
  }

  lemma PolyIs()
    ensures Number(0x82f63b78) == POLY
  {
    NumeralIs(0x82f63b78);
  }

  // ---- the polynomial ----------------------------------------------------------------------------

  /** The k low bits of x in reverse, in front of acc. */
  function Reverse(x: nat, k: nat, acc: nat): nat
    decreases k
  {
    if k == 0 then acc else Reverse(x / 2, k - 1, 2 * acc + x % 2)
  }

  lemma {:induction false} ReverseBits(x: nat, k: nat, acc: nat, i: nat)
    ensures Bit(Reverse(x, k, acc), i) <==> if i < k then Bit(x, k - 1 - i) else Bit(acc, i - k)
    decreases k
  {
    if k > 0 {
      ReverseBits(x / 2, k - 1, 2 * acc + x % 2, i);
      assert (2 * acc + x % 2) / 2 == acc && (2 * acc + x % 2) % 2 == x % 2;
    }
  }

  lemma ReverseOne(q: nat, b: nat, k: nat, acc: nat)
    requires b < 2
    ensures Reverse(2 * q + b, k + 1, acc) == Reverse(q, k, 2 * acc + b)
  {}

  lemma ReverseDigit(x: nat, q: nat, d: nat, c: nat, b: nat, a: nat, k: nat, acc: nat, acc': nat)
    requires a < 2 && b < 2 && c < 2 && d < 2 && x == 16 * q + 8 * d + 4 * c + 2 * b + a
    requires acc' == 16 * acc + 8 * a + 4 * b + 2 * c + d
    ensures Reverse(x, k + 4, acc) == Reverse(q, k, acc')
  {
    ReverseOne(8 * q + 4 * d + 2 * c + b, a, k + 3, acc);
    ReverseOne(4 * q + 2 * d + c, b, k + 2, 2 * acc + a);
    ReverseOne(2 * q + d, c, k + 1, 4 * acc + 2 * a + b);
    ReverseOne(q, d, k, 8 * acc + 4 * a + 2 * b + c);
  }

  lemma PolyReversed(k: nat)
    ensures Reverse(0x1edc6f41, k + 32, 0) == Reverse(0, k, 0x82f63b78)
  {
    ReverseDigit(0x1edc6f41, 0x1edc6f4, 0, 0, 0, 1, k + 28, 0x0, 0x8);
    ReverseDigit(0x1edc6f4, 0x1edc6f, 0, 1, 0, 0, k + 24, 0x8, 0x82);
    ReverseDigit(0x1edc6f, 0x1edc6, 1, 1, 1, 1, k + 20, 0x82, 0x82f);
    ReverseDigit(0x1edc6, 0x1edc, 0, 1, 1, 0, k + 16, 0x82f, 0x82f6);
    ReverseDigit(0x1edc, 0x1ed, 1, 1, 0, 0, k + 12, 0x82f6, 0x82f63);
    ReverseDigit(0x1ed, 0x1e, 1, 1, 0, 1, k + 8, 0x82f63, 0x82f63b);
    ReverseDigit(0x1e, 0x1, 1, 1, 1, 0, k + 4, 0x82f63b, 0x82f63b7);
    ReverseDigit(0x1, 0x0, 0, 0, 0, 1, k + 0, 0x82f63b7, 0x82f63b78);
  }

  lemma FeedbackBits(x: nat, k: nat, i: nat)
    requires x == 0x1edc6f41 && i < 32
    ensures Bit(0x82f63b78, i) <==> Bit(x, 31 - i)
  {
    PolyReversed(k);
    ReverseBits(x, k + 32, 0, i + k);
    ReverseBits(0, k, 0x82f63b78, i + k);
  }

  /** What a one shifted out feeds back is the polynomial of section 12.1 of RFC 3720,
      its highest power in the lowest bit. */
  lemma Feedback(i: nat)
    requires i < 32
    ensures Bit(Steps(1, 1), i) <==> Bit(0x1edc6f41, 31 - i)
  {
    assert Steps(1, 1) == Steps(0, Step(1)) == Xor(0, POLY);
    XorZero(POLY);
    FeedbackBits(0x1edc6f41, 0, i);
  }

  // ---- values ------------------------------------------------------------------------------------

  /** The second entry of the first table. */
  lemma FirstEntry()
    ensures Table(0, 1) == 0xF26B8303
  {
    NumeralIs(1);
    ShiftByteIs(1);
    assert ShiftByte(1) == 0xF26B8303;
    NumeralIs(0xF26B8303);
  }

  /** The hash of a key of four zero bytes, started at 7. */
  lemma ZeroKey()
    ensures KeyHash.KeyHash([0, 0, 0, 0]) == 0x1900b8ca
  {
    assert [0, 0, 0, 0] == Zeros(4) && Padded(Zeros(4)) == Zeros(4);
    ZeroBytes(4, 7);
    FourShifted();
  }

  lemma FourShifted()
    ensures Steps(32, 7) == 0x1900b8ca
  {
    ShiftWordIs(7);
    Seven();
  }

  lemma Seven()
    ensures Number(7) == 7 && Number(ShiftWord(7)) == 0x1900b8ca
  {
    NumeralIs(7);
    assert ShiftWord(7) == 0x1900b8ca;
    NumeralIs(0x1900b8ca);
  }

  /** The register, started with ones, after 32 zero bytes: the inverse of the value
      printed in appendix B.4 of RFC 3720. */
  lemma ZeroVector()
    ensures BitSerial(Zeros(32), 0xffffffff) == 0x756ec955
  {
    ZeroBytes(32, 0xffffffff);
    EightShifted(0xffffffff);
    Ones();
    EightValues();
  }

  lemma Ones()
    ensures Number(0xffffffff) == 0xffffffff && Number(0x756ec955) == 0x756ec955
  {
    NumeralIs(0xffffffff);
    NumeralIs(0x756ec955);
  }

  function ShiftEight(c: bv32): bv32 {
    ShiftWord(ShiftWord(ShiftWord(ShiftWord(ShiftWord(ShiftWord(ShiftWord(ShiftWord(c))))))))
  }

  lemma EightShifted(c: bv32)
    ensures Steps(256, Number(c)) == Number(ShiftEight(c))
  {
    FourWordsShifted(c);
    FourWordsShifted(ShiftWord(ShiftWord(ShiftWord(ShiftWord(c)))));
    StepsAdd(128, 128, Number(c));
  }

  lemma FourWordsShifted(c: bv32)
    ensures Steps(128, Number(c)) == Number(ShiftWord(ShiftWord(ShiftWord(ShiftWord(c)))))
  {
    TwoWordsShifted(c);
    TwoWordsShifted(ShiftWord(ShiftWord(c)));
    StepsAdd(64, 64, Number(c));
  }

  lemma TwoWordsShifted(c: bv32)
    ensures Steps(64, Number(c)) == Number(ShiftWord(ShiftWord(c)))
  {
    ShiftWordIs(c);
    ShiftWordIs(ShiftWord(c));
    StepsAdd(32, 32, Number(c));
  }

  lemma EightValues()
    ensures ShiftEight(0xffffffff) == 0x756ec955
  {
    assert ShiftWord(0xffffffff) == 0xb798b438;
    assert ShiftWord(0xb798b438) == 0x73d74d75;
    assert ShiftWord(0x73d74d75) == 0xd49f4aa2;
    assert ShiftWord(0xd49f4aa2) == 0xbd8f6515;
    assert ShiftWord(0xbd8f6515) == 0x433aa9c1;
    assert ShiftWord(0x433aa9c1) == 0x7b041311;
    assert ShiftWord(0x7b041311) == 0x08363896;
    assert ShiftWord(0x08363896) == 0x756ec955;
  }

  // ---- a message that is not zero ----------------------------------------------------------------

  /** Four bytes of a message go through as one word. */
  lemma WordThrough(data: seq<byte>, at: nat, c: nat, w: nat, c': nat)
    requires at + 4 <= |data| && WordOf(data[at..at + 4]) == w && Steps(32, Xor(c, w)) == c'
    requires BitSerial(data[..at], 0xffffffff) == c
    ensures BitSerial(data[..at + 4], 0xffffffff) == c'
  {
    var word := data[at..at + 4];
    assert data[..at + 4] == data[..at] + word;
    SerialAppend(data[..at], word, 0xffffffff);
    SerialIsSteps(word, c);
  }

  lemma WordShifted(c: bv32, w: bv32, z: bv32, c': bv32)
    requires z == c ^ w && ShiftWord(z) == c'
    ensures Steps(32, Xor(Number(c), Number(w))) == Number(c')
  {
    XorNumbers(c, w, z);
    ShiftWordIs(z);
  }

  function Rising(): seq<byte> { seq(32, i requires 0 <= i < 32 => i) }

  lemma WordOfFour(a: byte, b: byte, c: byte, d: byte)
    ensures WordOf([a, b, c, d]) == a + 0x100 * b + 0x1_0000 * c + 0x100_0000 * d
  {
    assert [a, b, c, d][1..] == [b, c, d] && [b, c, d][1..] == [c, d] && [c, d][1..] == [d] && [d][1..] == [];
    assert WordOf([d]) == d + 0x100 * WordOf([]) == d;
    assert WordOf([c, d]) == c + 0x100 * WordOf([d]);
    assert WordOf([b, c, d]) == b + 0x100 * WordOf([c, d]);
  }

  predicate IsRising(j: nat, w: nat) {
    w == 4 * j + 0x100 * (4 * j + 1) + 0x1_0000 * (4 * j + 2) + 0x100_0000 * (4 * j + 3)
  }

  lemma RisingWord(j: nat, c: bv32, w: bv32, c': bv32)
    requires j < 8 && ShiftWord(c ^ w) == c' && IsRising(j, Value(w))
    requires BitSerial(Rising()[..4 * j], 0xffffffff) == Number(c)
    ensures BitSerial(Rising()[..4 * j + 4], 0xffffffff) == Number(c')
  {
    NumeralIs(w);
    WordShifted(c, w, c ^ w, c');
    RisingThrough(j, Number(c), Number(w), Number(c'));
  }

  lemma RisingThrough(j: nat, c: nat, w: nat, c': nat)
    requires j < 8 && IsRising(j, w) && Steps(32, Xor(c, w)) == c'
    requires BitSerial(Rising()[..4 * j], 0xffffffff) == c
    ensures BitSerial(Rising()[..4 * j + 4], 0xffffffff) == c'
  {
    RisingBytes(4 * j);
    WordThrough(Rising(), 4 * j, c, w, c');
  }

  lemma RisingBytes(at: nat)
    requires at + 4 <= 32
    ensures WordOf(Rising()[at..at + 4]) == at + 0x100 * (at + 1) + 0x1_0000 * (at + 2) + 0x100_0000 * (at + 3)
  {
    assert Rising()[at..at + 4] == [at, at + 1, at + 2, at + 3];
    WordOfFour(at, at + 1, at + 2, at + 3);
  }

  lemma RisingNone(n: nat)
    requires n == 0
    ensures BitSerial(Rising()[..n], 0xffffffff) == Number(0xffffffff)
  {
    Ones();
    assert Rising()[..n] == [];
  }

  lemma RisingFirst()
    ensures BitSerial(Rising()[..8], 0xffffffff) == Number(0x75d343c4)
  {
    RisingNone(0);
    RisingWord(0, 0xffffffff, 0x03020100, 0x26cce55c);
    RisingWord(1, 0x26cce55c, 0x07060504, 0x75d343c4);
  }

  lemma RisingSecond()
    ensures BitSerial(Rising()[..16], 0xffffffff) == Number(0x2636f714)
  {
    RisingFirst();
    RisingWord(2, 0x75d343c4, 0x0b0a0908, 0xac7c5545);
    RisingWord(3, 0xac7c5545, 0x0f0e0d0c, 0x2636f714);
  }

  lemma RisingThird()
    ensures BitSerial(Rising()[..24], 0xffffffff) == Number(0xd643786a)
  {
    RisingSecond();
    RisingWord(4, 0x2636f714, 0x13121110, 0x33861419);
    RisingWord(5, 0x33861419, 0x17161514, 0xd643786a);
  }

  lemma RisingFourth()
    ensures BitSerial(Rising()[..32], 0xffffffff) == Number(0xb92286b1)
  {
    RisingThird();
    RisingWord(6, 0xd643786a, 0x1b1a1918, 0x9b21363e);
    RisingWord(7, 0x9b21363e, 0x1f1e1d1c, 0xb92286b1);
  }

  /** The register, started with ones, after the bytes 0 to 31: the inverse of another
      value printed there. */
  lemma RisingVector()
    ensures BitSerial(Rising(), 0xffffffff) == 0xb92286b1
  {
    RisingFourth();
    Whole(Rising());
    RisingLast();
  }

  lemma RisingLast()
    ensures Number(0xb92286b1) == 0xb92286b1
  {
    NumeralIs(0xb92286b1);
  }

  lemma Whole(data: seq<byte>)
    ensures data[..|data|] == data
  {}
}
