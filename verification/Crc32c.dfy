/** The CRC-32C of tools/hash.c: slicing by eight tables, against the register of
    the reflected polynomial shifted one bit at a time. */
module Crc32c {
  import opened Bits

  // ---- reference: the bit-serial register ----------------------------------------------

  /** The polynomial 0x1edc6f41 of section 12.1 of RFC 3720, bits reversed. */
  const POLY: nat := 0x82f63b78

  function Step(c: nat): nat {
    if c % 2 == 1 then Xor(c / 2, POLY) else c / 2
  }

  /** Shift one message bit into the register. */
  function Feed(c: nat, bit: bool): nat {
    Step(Xor(c, if bit then 1 else 0))
  }

  /** The k low bits of b, least significant first. */
  function LowBits(b: nat, k: nat): seq<bool> {
    if k == 0 then [] else [b % 2 == 1] + LowBits(b / 2, k - 1)
  }

  function MessageBits(data: seq<byte>): seq<bool> {
    if data == [] then [] else LowBits(data[0], 8) + MessageBits(data[1..])
  }

  function Register(c: nat, bits: seq<bool>): nat
    decreases |bits|
  {
    if bits == [] then c else Register(Feed(c, bits[0]), bits[1..])
  }

  /** The register after a whole message, with no final inversion. */
  function BitSerial(data: seq<byte>, init: nat): nat {
    Register(init, MessageBits(data))
  }

  // ---- shifting is linear and invertible ---------------------------------------------------

  function Steps(n: nat, c: nat): nat {
    if n == 0 then c else Steps(n - 1, Step(c))
  }

  lemma StepLinear(a: nat, b: nat)
    ensures Step(Xor(a, b)) == Xor(Step(a), Step(b))
  {
    XorHalf(a, b);
    XorCancel(a / 2, b / 2, POLY);
    XorSwap(a / 2, POLY, b / 2);
    XorAssoc(a / 2, b / 2, POLY);
  }

  lemma {:induction false} StepsLinear(n: nat, a: nat, b: nat)
    ensures Steps(n, Xor(a, b)) == Xor(Steps(n, a), Steps(n, b))
    decreases n
  {
    if n > 0 {
      StepLinear(a, b);
      StepsLinear(n - 1, Step(a), Step(b));
    }
  }

  lemma {:induction false} StepsAdd(m: nat, n: nat, c: nat)
    ensures Steps(m + n, c) == Steps(n, Steps(m, c))
    decreases m
  {
    if m > 0 { StepsAdd(m - 1, n, Step(c)); }
  }

  lemma StepBound(c: uint32)
    ensures Step(c) < 0x1_0000_0000
  {
    Pow2At32();
    XorBound(c / 2, POLY, 32);
  }

  lemma {:induction false} StepsBound(n: nat, c: uint32)
    ensures Steps(n, c) < 0x1_0000_0000
    decreases n
  {
    if n > 0 {
      StepBound(c);
      StepsBound(n - 1, Step(c));
    }
  }

  lemma StepInjective(a: uint32, b: uint32)
    requires Step(a) == Step(b)
    ensures a == b
  {
    Pow2At32();
    if a % 2 == 1 && b % 2 == 1 {
      XorInjective(a / 2, b / 2, POLY);
    } else if a % 2 == 1 {
      TopBit(a / 2);
    } else if b % 2 == 1 {
      TopBit(b / 2);
    }
  }

  /** The polynomial's highest bit shows whether it was added. */
  lemma TopBit(x: nat)
    requires x < 0x8000_0000
    ensures Xor(x, POLY) >= 0x8000_0000
  {
    Pow2At32();
    if Xor(x, POLY) < 0x8000_0000 {
      XorBound(x, Xor(x, POLY), 31);
      XorAssoc(x, x, POLY);
      XorZero(x);
      XorZero(POLY);
    }
  }

  lemma {:induction false} StepsInjective(n: nat, a: uint32, b: uint32)
    requires Steps(n, a) == Steps(n, b)
    ensures a == b
    decreases n
  {
    if n > 0 {
      StepBound(a);
      StepBound(b);
      StepsInjective(n - 1, Step(a), Step(b));
      StepInjective(a, b);
    }
  }

  /** The register one step before. */
  function BackStep(c: uint32): uint32 {
    if c < 0x8000_0000 then 2 * c
    else
      TopCancels(c);
      2 * Xor(c, POLY) + 1
  }

  lemma TopSplit(c: uint32)
    requires c >= 0x8000_0000
    ensures Xor(c - 0x8000_0000, 0x8000_0000) == c
  {
    Pow2At32();
    DisjointSum(c - 0x8000_0000, 1, 31);
  }

  lemma TopCancels(c: uint32)
    requires c >= 0x8000_0000
    ensures Xor(c, POLY) < 0x8000_0000
  {
    TopSplit(c);
    TopSplit(POLY);
    XorCancel(c - 0x8000_0000, POLY - 0x8000_0000, 0x8000_0000);
    Pow2At32();
    XorBound(c - 0x8000_0000, POLY - 0x8000_0000, 31);
  }

  lemma StepBack(c: uint32)
    ensures Step(BackStep(c)) == c
  {
    if c >= 0x8000_0000 {
      TopCancels(c);
      var v := Xor(c, POLY);
      assert (2 * v + 1) / 2 == v && (2 * v + 1) % 2 == 1;
      XorTwice(c, POLY);
    }
  }

  function Back(n: nat, c: uint32): uint32 {
    if n == 0 then c else BackStep(Back(n - 1, c))
  }

  lemma {:induction false} StepsBack(n: nat, c: uint32)
    ensures Steps(n, Back(n, c)) == c
    decreases n
  {
    if n > 0 {
      StepBack(Back(n - 1, c));
      StepsBack(n - 1, c);
    }
  }

  /** n steps take n low zeros away and change nothing else. */
  lemma StepsOfShifted(n: nat, x: nat)
    ensures Steps(n, x * Pow2(n)) == x
  {
    ShlIs(x, n);
    StepsOfShl(n, x);
  }

  lemma {:induction false} StepsOfShl(n: nat, x: nat)
    ensures Steps(n, Shl(x, n)) == x
    decreases n
  {
    if n > 0 {
      assert Step(Shl(x, n)) == Shl(x, n - 1);
      StepsOfShl(n - 1, x);
    }
  }

  /** The effect of m steps on low and high parts of a number. */
  lemma StepsSplit(m: nat, n: nat, lo: nat, hi: nat)
    requires lo < Pow2(n)
    ensures Steps(n + m, lo + hi * Pow2(n)) == Xor(Steps(n + m, lo), Steps(m, hi))
  {
    DisjointSum(lo, hi, n);
    StepsLinear(n + m, lo, hi * Pow2(n));
    StepsAdd(n, m, hi * Pow2(n));
    StepsOfShifted(n, hi);
  }

  // ---- the tables ------------------------------------------------------------------------------

  /** crc32c_tables[n][i]: the first by shifting a byte out, each next one by
      shifting a further zero byte in. */
  function Table(n: nat, i: byte): (t: uint32)
    ensures t == Steps(8 * (n + 1), i)
  {
    if n == 0 then
      StepsBound(8, i);
      Steps(8, i)
    else
      var t := Table(n - 1, i);
      TableStep(n, i, t);
      Xor(t / 256, Table(0, t % 256))
  }

  lemma TableStep(n: nat, i: byte, t: uint32)
    requires n > 0 && t == Steps(8 * n, i)
    ensures Xor(t / 256, Steps(8, t % 256)) == Steps(8 * (n + 1), i) < 0x1_0000_0000
  {
    StepsAdd(8 * n, 8, i);
    ByteOut(0, t);
    XorComm(t / 256, Steps(8, t % 256));
    StepsBound(8 * (n + 1), i);
  }

  /** Shifting a number's low byte out, with m more steps to go. */
  lemma ByteOut(m: nat, x: nat)
    ensures Steps(m + 8, x) == Xor(Steps(m + 8, x % 256), Steps(m, x / 256))
  {
    assert Pow2(8) == 256;
    StepsSplit(m, 8, x % 256, x / 256);
  }

  // ---- word steps ---------------------------------------------------------------------------------

  function LowByte(x: uint32): (b: byte) {
    AndMask(x, 8);
    assert Pow2(8) == 256;
    And(x, 0xff)
  }

  /** CRC32_UPD. */
  function TablePair(crc: uint32, n: nat): uint32
    requires n > 0
  {
    var x, y := Table(n, LowByte(crc)), Table(n - 1, LowByte(Shr(crc, 8)));
    Xor32(x, y)
  }

  function Xor32(x: uint32, y: uint32): uint32 {
    Pow2At32();
    XorBound(x, y, 32);
    Xor(x, y)
  }

  /** crc32c_u32. */
  function CrcU32(data: uint32, init: uint32): uint32 {
    var crc := Xor32(init, data);
    var term1 := TablePair(crc, 3);
    var term2: uint32 := Shr(crc, 16);
    Xor32(term1, TablePair(term2, 1))
  }

  type uint64 = x: nat | x < 0x1_0000_0000_0000_0000

  /** crc32c_u64: the two halves of the word go through separate tables. */
  function CrcU64(data: uint64, init: uint32): uint32 {
    CrcHalves(data % 0x1_0000_0000, data / 0x1_0000_0000, init)
  }

  function CrcHalves(lo: uint32, hi: uint32, init: uint32): uint32 {
    var crc := Xor32(init, lo);
    var crc := Xor32(TablePair(crc, 7), TablePair(Shr(crc, 16), 5));
    Xor32(crc, Xor32(TablePair(hi, 3), TablePair(Shr(hi, 16), 1)))
  }

  lemma ByteParts(x: uint32)
    ensures LowByte(x) == x % 256 && Shr(x, 8) == x / 256 && Shr(x, 16) == x / 65536
  {
    assert Pow2(8) == 256;
    Pow2Split(8, 16);
    AndMask(x, 8);
    ShrDivides(x, 8);
    ShrDivides(x, 16);
  }

  /** Two table lookups shift two bytes out. */
  lemma PairOut(x: uint32, n: nat)
    requires n > 0
    ensures Steps(8 * (n + 1), x) == Xor(TablePair(x, n), Steps(8 * (n - 1), x / 65536))
  {
    TablePairIs(x, n);
    TwoBytesOut(x, 8 * (n - 1));
    var t, u := Steps(8 * (n + 1), x % 256), Steps(8 * n, x / 256 % 256);
    XorAssoc(t, u, Steps(8 * (n - 1), x / 65536));
  }

  lemma TablePairIs(x: uint32, n: nat)
    requires n > 0
    ensures TablePair(x, n) == Xor(Steps(8 * (n + 1), x % 256), Steps(8 * n, x / 256 % 256))
  {
    ByteParts(x);
    ByteParts(x / 256);
  }

  lemma TwoBytesOut(x: uint32, m: nat)
    ensures Steps(m + 16, x) == Xor(Steps(m + 16, x % 256), Xor(Steps(m + 8, x / 256 % 256), Steps(m, x / 65536)))
  {
    ByteOut(m + 8, x);
    ByteOut(m, x / 256);
    assert x / 256 / 256 == x / 65536;
  }

  /** Four table lookups shift a whole word out. */
  lemma WordOut(x: uint32, n: nat)
    requires n >= 3
    ensures Steps(8 * (n + 1), x) == Xor(TablePair(x, n), TablePair(Shr(x, 16), n - 2))
  {
    PairOut(x, n);
    ByteParts(x);
    PairOut(x / 65536, n - 2);
    StepsOfZero(8 * (n - 3));
    XorZero(TablePair(x / 65536, n - 2));
  }

  lemma {:induction false} StepsOfZero(n: nat)
    ensures Steps(n, 0) == 0
  {
    if n > 0 { StepsOfZero(n - 1); }
  }

  /** A four-byte step is 32 one-bit steps of the register with the word added. */
  lemma CrcU32Correct(data: uint32, init: uint32)
    ensures CrcU32(data, init) == Steps(32, Xor(init, data))
  {
    WordOut(Xor32(init, data), 3);
  }

  /** An eight-byte step is 64 one-bit steps. */
  lemma CrcU64Correct(data: uint64, init: uint32)
    ensures CrcU64(data, init) == Steps(64, Xor(init, data))
  {
    var lo: uint32, hi: uint32 := data % 0x1_0000_0000, data / 0x1_0000_0000;
    Halves(data);
    HalvesOut(lo, hi, init);
    HighWord(lo, hi, init);
  }

  lemma Halves(data: nat)
    ensures data == data % 0x1_0000_0000 + data / 0x1_0000_0000 * 0x1_0000_0000
  {}

  lemma HalvesOut(lo: uint32, hi: uint32, init: uint32)
    ensures CrcHalves(lo, hi, init) == Xor(Steps(64, Xor(init, lo)), Steps(32, hi))
  {
    WordOut(Xor32(init, lo), 7);
    WordOut(hi, 3);
  }

  lemma HighWord(lo: uint32, hi: uint32, init: uint32)
    ensures Steps(64, Xor(init, lo + hi * 0x1_0000_0000)) == Xor(Steps(64, Xor(init, lo)), Steps(32, hi))
  {
    var n := 32;
    Pow2At32();
    DisjointSum(lo, hi, n);
    var high := hi * Pow2(n);
    XorAssoc(init, lo, high);
    StepsLinear(n + n, Xor(init, lo), high);
    StepsAdd(n, n, high);
    StepsOfShifted(n, hi);
  }

  // ---- from words to bytes and bits --------------------------------------------------------------

  /** The little-endian number in some bytes. */
  function WordOf(data: seq<byte>): nat {
    if data == [] then 0 else data[0] + 256 * WordOf(data[1..])
  }

  lemma {:induction false} RegisterAppend(c: nat, a: seq<bool>, b: seq<bool>)
    ensures Register(c, a + b) == Register(Register(c, a), b)
    decreases |a|
  {
    if a == [] {
      assert a + b == b;
    } else {
      assert (a + b)[1..] == a[1..] + b;
      RegisterAppend(Feed(c, a[0]), a[1..], b);
    }
  }

  /** Feeding k bits one by one is adding them at once and shifting k times. */
  lemma {:induction false} RegisterBits(c: nat, b: nat, k: nat)
    requires b < Pow2(k)
    ensures Register(c, LowBits(b, k)) == Steps(k, Xor(c, b))
    decreases k
  {
    if k == 0 {
      XorZero(c);
    } else {
      FeedStep(c, b);
      RegisterBits(Feed(c, b % 2 == 1), b / 2, k - 1);
      assert LowBits(b, k)[1..] == LowBits(b / 2, k - 1);
    }
  }

  /** Stepping with all of b added is feeding its low bit with the rest added. */
  lemma FeedStep(c: nat, b: nat)
    ensures Step(Xor(c, b)) == Xor(Feed(c, b % 2 == 1), b / 2)
  {
    var bit, rest := b % 2, b / 2;
    LowBit(b);
    XorAssoc(c, bit, 2 * rest);
    StepLinear(Xor(c, bit), 2 * rest);
  }

  lemma LowBit(b: nat)
    ensures Xor(b % 2, 2 * (b / 2)) == b && Step(2 * (b / 2)) == b / 2
  {
    XorHalf(b % 2, 2 * (b / 2));
    XorZero(b / 2);
  }

  /** The register after a message is the message added as one number and shifted
      through. */
  lemma {:induction false} SerialIsSteps(data: seq<byte>, c: nat)
    ensures BitSerial(data, c) == Steps(8 * |data|, Xor(c, WordOf(data)))
    decreases |data|
  {
    if data == [] {
      XorZero(c);
    } else {
      var b, rest := data[0], data[1..];
      SerialFirst(data, c);
      SerialIsSteps(rest, Steps(8, Xor(c, b)));
      ByteThenRest(8, b, WordOf(rest), 8 * |rest|, c, 8 * |data|, WordOf(data));
    }
  }

  lemma SerialFirst(data: seq<byte>, c: nat)
    requires data != []
    ensures BitSerial(data, c) == BitSerial(data[1..], Steps(8, Xor(c, data[0])))
  {
    assert Pow2(8) == 256;
    RegisterBits(c, data[0], 8);
    RegisterAppend(c, LowBits(data[0], 8), MessageBits(data[1..]));
  }

  /** Stepping a byte through, and then the rest, is stepping both through at once. */
  lemma ByteThenRest(k: nat, b: byte, w: nat, m: nat, c: nat, n: nat, v: nat)
    requires k == 8 && n == k + m && v == b + 256 * w
    ensures Steps(m, Xor(Steps(k, Xor(c, b)), w)) == Steps(n, Xor(c, v))
  {
    HighPart(k, b, w);
    XorAssoc(c, b, 256 * w);
    InTwoParts(k, m, Xor(c, b), 256 * w, w);
  }

  lemma InTwoParts(k: nat, m: nat, p: nat, h: nat, w: nat)
    requires Steps(k, h) == w
    ensures Steps(m, Xor(Steps(k, p), w)) == Steps(k + m, Xor(p, h))
  {
    StepsAdd(k, m, Xor(p, h));
    StepsLinear(k, p, h);
  }

  lemma HighPart(k: nat, b: byte, w: nat)
    requires k == 8
    ensures Xor(b, 256 * w) == b + 256 * w && Steps(k, 256 * w) == w
  {
    assert Pow2(k) == 256;
    ShlByte(w, 0);
    DisjointShl(b, w, k);
    StepsOfShl(k, w);
  }

  lemma SerialAppend(a: seq<byte>, b: seq<byte>, c: nat)
    ensures BitSerial(a + b, c) == BitSerial(b, BitSerial(a, c))
  {
    BitsAppend(a, b);
    RegisterAppend(c, MessageBits(a), MessageBits(b));
  }

  lemma {:induction false} BitsAppend(a: seq<byte>, b: seq<byte>)
    ensures MessageBits(a + b) == MessageBits(a) + MessageBits(b)
  {
    if a == [] {
      assert a + b == b;
    } else {
      assert (a + b)[1..] == a[1..] + b;
      BitsAppend(a[1..], b);
    }
  }

  // ---- hash_crc32c ---------------------------------------------------------------------------------

  function Zeros(n: nat): seq<byte> { seq(n, _ => 0) }

  /** The data with zero bytes up to a multiple of four. */
  function Padded(data: seq<byte>): (r: seq<byte>)
    ensures |r| % 4 == 0 && data <= r && |r| < |data| + 4 && forall i :: |data| <= i < |r| ==> r[i] == 0
  {
    data + Zeros((4 - |data| % 4) % 4)
  }

  /** What hash_crc32c computes. */
  function Hash(data: seq<byte>, init: uint32): (h: uint32) {
    SerialBound(Padded(data), init);
    BitSerial(Padded(data), init)
  }

  lemma SerialBound(data: seq<byte>, c: uint32)
    ensures BitSerial(data, c) < 0x1_0000_0000
  {
    BitsBound(MessageBits(data), c);
  }

  lemma {:induction false} BitsBound(bits: seq<bool>, c: uint32)
    ensures Register(c, bits) < 0x1_0000_0000
    decreases |bits|
  {
    if bits != [] {
      Pow2At32();
      XorBound(c, 1, 32);
      XorZero(c);
      var x: uint32 := Xor(c, if bits[0] then 1 else 0);
      StepBound(x);
      BitsBound(bits[1..], Feed(c, bits[0]));
    }
  }

  lemma {:induction false} WordOfZeros(data: seq<byte>, n: nat)
    ensures WordOf(data + Zeros(n)) == WordOf(data)
    decreases |data| + n
  {
    if data != [] {
      assert (data + Zeros(n))[1..] == data[1..] + Zeros(n);
      WordOfZeros(data[1..], n);
    } else if n > 0 {
      assert (data + Zeros(n))[1..] == data + Zeros(n - 1);
      WordOfZeros(data, n - 1);
    }
  }

  lemma {:induction false} WordBound(data: seq<byte>)
    ensures WordOf(data) < Pow2(8 * |data|)
    decreases |data|
  {
    if data != [] {
      WordBound(data[1..]);
      Pow2Byte(8 * |data[1..]|);
    }
  }

  lemma Pow2Byte(n: nat)
    ensures Pow2(n + 8) == 256 * Pow2(n)
  {
    assert Pow2(n + 2) == 4 * Pow2(n) && Pow2(n + 4) == 4 * Pow2(n + 2);
    assert Pow2(n + 6) == 4 * Pow2(n + 4) && Pow2(n + 8) == 4 * Pow2(n + 6);
  }

  /** An aligned load of the bytes from pd on. */
  function Load(data: seq<byte>, pd: nat, n: nat): nat
    requires pd + n <= |data|
  {
    WordOf(data[pd..pd + n])
  }

  /** The value in the register after the first pd bytes, pd a multiple of eight. */
  lemma EightBytes(data: seq<byte>, pd: nat, init: uint32, c: uint32)
    requires pd + 8 <= |data| && c == BitSerial(data[..pd], init)
    ensures Load(data, pd, 8) < 0x1_0000_0000_0000_0000
    ensures CrcU64(Load(data, pd, 8), c) == BitSerial(data[..pd + 8], init)
  {
    var word := data[pd..pd + 8];
    FitsLong(word);
    CrcU64Correct(Load(data, pd, 8), c);
    SerialIsSteps(word, c);
    SerialAppend(data[..pd], word, init);
    assert data[..pd] + word == data[..pd + 8];
  }

  /** The number of padding bytes after whole words and a last word of n bytes. */
  lemma PadCount(len: nat, i: nat, n: nat)
    requires (n == 4 || n == 8) && 8 * i < len <= 8 * i + n < len + 4
    ensures (4 - len % 4) % 4 == 8 * i + n - len
  {
    var r := 8 * i + n - len;
    assert len == 4 * (2 * i + n / 4) - r;
  }

  /** The last bytes, at most eight, as one padded word of n bytes. */
  lemma LastBytes(data: seq<byte>, i: nat, n: nat, init: uint32, c: uint32, w: nat, h: nat)
    requires (n == 4 || n == 8) && 8 * i < |data| <= 8 * i + n < |data| + 4
    requires c == BitSerial(data[..8 * i], init) && w == WordOf(data[8 * i..])
    requires h == Steps(8 * n, Xor(c, w))
    ensures h == Hash(data, init)
  {
    var pd, last, k := 8 * i, data[8 * i..], 8 * i + n - |data|;
    PaddedLast(data, i, n);
    SerialAppend(data[..pd], last + Zeros(k), init);
    SerialIsSteps(last + Zeros(k), c);
    WordOfZeros(last, k);
  }

  lemma PaddedLast(data: seq<byte>, i: nat, n: nat)
    requires (n == 4 || n == 8) && 8 * i < |data| <= 8 * i + n < |data| + 4
    ensures Padded(data) == data[..8 * i] + (data[8 * i..] + Zeros(8 * i + n - |data|))
  {
    PadCount(|data|, i, n);
  }

  lemma PaddedAligned(data: seq<byte>)
    requires |data| % 4 == 0
    ensures Padded(data) == data
  {
    assert (4 - |data| % 4) % 4 == 0;
    assert Padded(data) == data + Zeros(0) == data;
  }

  lemma NoLastBytes(data: seq<byte>, i: nat, init: uint32)
    requires |data| == 8 * i
    ensures Hash(data, init) == BitSerial(data, init)
  {
    assert |data| == 4 * (2 * i);
    PaddedAligned(data);
  }

  // ---- assembling the last word -----------------------------------------------------------------------

  lemma {:induction false} OrCommutes(x: nat, y: nat)
    ensures Or(x, y) == Or(y, x)
    decreases x + y
  {
    if x + y > 0 { OrCommutes(x / 2, y / 2); }
  }

  lemma OrDouble(x: nat, y: nat)
    ensures Or(2 * x, 2 * y) == 2 * Or(x, y)
  {}

  lemma {:induction false} OrShl(x: nat, y: nat, k: nat)
    ensures Or(Shl(x, k), Shl(y, k)) == Shl(Or(x, y), k)
    decreases k
  {
    if k > 0 {
      OrShl(x, y, k - 1);
      OrDouble(Shl(x, k - 1), Shl(y, k - 1));
    }
  }

  /** temp | (b << 8 * k). */
  function OrByte(temp: nat, b: byte, k: nat): nat {
    Or(temp, Shl(b, 8 * k))
  }

  /** Or-ing one more byte in below those already shifted into place. */
  lemma AddByte(data: seq<byte>, i: nat, k: nat, temp: nat)
    requires i < |data| && temp == Shl(WordOf(data[i + 1..]), 8 * (k + 1))
    ensures OrByte(temp, data[i], k) == Shl(WordOf(data[i..]), 8 * k)
  {
    assert data[i..][1..] == data[i + 1..];
    AddLow(WordOf(data[i + 1..]), data[i], 8 * k, 8 * (k + 1), WordOf(data[i..]));
  }

  lemma AddLow(w: nat, b: byte, n: nat, m: nat, v: nat)
    requires m == 8 + n && v == b + 256 * w
    ensures Or(Shl(w, m), Shl(b, n)) == Shl(v, n)
  {
    ShlTwice(w, 8, n);
    OrShl(Shl(w, 8), b, n);
    OrLowByte(w, b);
  }

  lemma {:induction false} ShlTwice(x: nat, m: nat, n: nat)
    ensures Shl(x, m + n) == Shl(Shl(x, m), n)
    decreases n
  {
    if n > 0 { ShlTwice(x, m, n - 1); }
  }

  lemma OrLowByte(w: nat, b: byte)
    ensures Or(Shl(w, 8), b) == b + 256 * w
  {
    assert Pow2(8) == 256;
    OrCommutes(Shl(w, 8), b);
    DisjointShl(b, w, 8);
    ShlByte(w, 0);
  }

  lemma {:induction false} AppendShl(a: seq<byte>, b: seq<byte>)
    ensures WordOf(a + b) == WordOf(a) + Shl(WordOf(b), 8 * |a|)
    decreases |a|
  {
    if a == [] {
      assert a + b == b;
    } else {
      assert (a + b)[1..] == a[1..] + b;
      AppendShl(a[1..], b);
      ShlByte(WordOf(b), 8 * |a[1..]|);
    }
  }

  lemma ShlByte(w: nat, n: nat)
    ensures Shl(w, n + 8) == 256 * Shl(w, n)
  {
    assert Shl(w, n + 2) == 4 * Shl(w, n) && Shl(w, n + 4) == 4 * Shl(w, n + 2);
    assert Shl(w, n + 6) == 4 * Shl(w, n + 4) && Shl(w, n + 8) == 4 * Shl(w, n + 6);
  }

  /** Or-ing four bytes in at once. */
  lemma AddWord(data: seq<byte>, pd: nat, temp: nat)
    requires pd + 4 <= |data| && temp == Shl(WordOf(data[pd + 4..]), 8 * 4)
    ensures OrWord(temp, Load(data, pd, 4)) == WordOf(data[pd..])
  {
    var low := data[pd..pd + 4];
    assert data[pd..] == low + data[pd + 4..];
    AppendShl(low, data[pd + 4..]);
    WordBound(low);
    DisjointShl(WordOf(low), WordOf(data[pd + 4..]), 8 * 4);
    OrCommutes(temp, Load(data, pd, 4));
  }

  function OrWord(temp: nat, w: nat): nat { Or(temp, w) }

  // ---- hash_crc32c ---------------------------------------------------------------------------------

  lemma FinishLong(data: seq<byte>, i: nat, pd: nat, init: uint32, c: uint32, w: uint64, h: uint32)
    requires pd == 8 * i && 5 <= |data| - pd <= 8 && c == BitSerial(data[..pd], init) && w == WordOf(data[pd..])
    requires h == CrcU64(w, c)
    ensures h == Hash(data, init)
  {
    assert h == Steps(8 * 8, Xor(c, w)) by { CrcU64Correct(w, c); }
    LastBytes(data, i, 8, init, c, w, h);
  }

  lemma FinishShort(data: seq<byte>, i: nat, pd: nat, init: uint32, c: uint32, w: nat)
    requires pd == 8 * i && 1 <= |data| - pd <= 4 && c == BitSerial(data[..pd], init) && w == WordOf(data[pd..])
    ensures w < 0x1_0000_0000 && CrcU32(w, c) == Hash(data, init)
  {
    FitsShort(data[pd..]);
    CrcU32Correct(w, c);
    var n := 4;
    LastBytes(data, i, n, init, c, w, CrcU32(w, c));
  }

  /** Cases 0 to 2 of the switch: five to seven bytes are left, `which` being 7 less
      their number; the cases fall through from the highest byte down. */
  method LongWord(data: seq<byte>, pd: nat, which: nat) returns (temp: nat)
    requires which <= 2 && |data| - pd == 7 - which
    ensures temp == WordOf(data[pd..])
  {
    temp := 0;
    ZeroWord(data, 7 - which);
    if which <= 0 {
      AddByte(data, pd + 6, 6, temp);
      temp := OrByte(temp, data[pd + 6], 6);
    }
    if which <= 1 {
      AddByte(data, pd + 5, 5, temp);
      temp := OrByte(temp, data[pd + 5], 5);
    }
    AddByte(data, pd + 4, 4, temp);
    temp := OrByte(temp, data[pd + 4], 4);
    AddWord(data, pd, temp);
    temp := OrWord(temp, Load(data, pd, 4));
  }

  /** Cases 4 to 6: one to three bytes are left. */
  method ShortWord(data: seq<byte>, pd: nat, which: nat) returns (temp: nat)
    requires 4 <= which <= 6 && |data| - pd == 7 - which
    ensures temp == WordOf(data[pd..])
  {
    temp := 0;
    ZeroWord(data, 7 - which);
    if which <= 4 {
      AddByte(data, pd + 2, 2, temp);
      temp := OrByte(temp, data[pd + 2], 2);
    }
    if which <= 5 {
      AddByte(data, pd + 1, 1, temp);
      temp := OrByte(temp, data[pd + 1], 1);
    }
    AddByte(data, pd, 0, temp);
    temp := OrByte(temp, data[pd], 0);
  }

  method LongTail(data: seq<byte>, init: uint32, i: nat, pd: nat, c: uint32, which: nat) returns (crc: uint32)
    requires pd == 8 * i && which <= 2 && |data| - pd == 7 - which && c == BitSerial(data[..pd], init)
    ensures crc == Hash(data, init)
  {
    var temp := LongWord(data, pd, which);
    FitsLong(data[pd..]);
    crc := CrcU64(temp, c);
    FinishLong(data, i, pd, init, c, temp, crc);
  }

  method WordTail(data: seq<byte>, init: uint32, i: nat, pd: nat, c: uint32) returns (crc: uint32)
    requires pd == 8 * i && |data| - pd == 4 && c == BitSerial(data[..pd], init)
    ensures crc == Hash(data, init)
  {
    assert data[pd..] == data[pd..pd + 4];
    FinishShort(data, i, pd, init, c, Load(data, pd, 4));
    crc := CrcU32(Load(data, pd, 4), c);
  }

  method ShortTail(data: seq<byte>, init: uint32, i: nat, pd: nat, c: uint32, which: nat) returns (crc: uint32)
    requires pd == 8 * i && 4 <= which <= 6 && |data| - pd == 7 - which && c == BitSerial(data[..pd], init)
    ensures crc == Hash(data, init)
  {
    var temp := ShortWord(data, pd, which);
    FinishShort(data, i, pd, init, c, temp);
    crc := CrcU32(temp, c);
  }

  lemma LeftOver(len: nat, i: nat)
    requires 8 * i <= len < 8 * i + 8
    ensures len % 8 == len - 8 * i
  {}

  /** The switch over the number of bytes left after i words of eight. */
  method Tail(data: seq<byte>, init: uint32, i: nat, pd: nat, c: uint32) returns (crc: uint32)
    requires pd == 8 * i <= |data| < pd + 8 && c == BitSerial(data[..pd], init)
    ensures crc == Hash(data, init)
  {
    LeftOver(|data|, i);
    var which := 7 - |data| % 8;
    if which <= 2 {
      crc := LongTail(data, init, i, pd, c, which);
    } else if which == 3 {
      crc := WordTail(data, init, i, pd, c);
    } else if which <= 6 {
      crc := ShortTail(data, init, i, pd, c, which);
    } else {
      NoLastBytes(data, i, init);
      assert data[..pd] == data;
      crc := c;
    }
  }

  /** hash_crc32c: eight bytes at a time, then what is left. */
  method HashCrc32c(data: seq<byte>, init: uint32) returns (crc: uint32)
    ensures crc == Hash(data, init)
  {
    crc := init;
    var pd, i := 0, 0;
    while i < |data| / 8
      invariant 0 <= i <= |data| / 8 && pd == 8 * i
      invariant crc == BitSerial(data[..pd], init)
    {
      EightBytes(data, pd, init, crc);
      crc := CrcU64(Load(data, pd, 8), crc);
      pd := pd + 8;
      i := i + 1;
    }
    crc := Tail(data, init, i, pd, crc);
  }

  lemma ZeroWord(data: seq<byte>, k: nat)
    ensures 0 == Shl(WordOf(data[|data|..]), 8 * k)
  {
    ZeroShl(8 * k);
  }

  lemma {:induction false} ZeroShl(n: nat)
    ensures Shl(0, n) == 0
  {
    if n > 0 { ZeroShl(n - 1); }
  }

  lemma FitsLong(data: seq<byte>)
    requires |data| <= 8
    ensures WordOf(data) < 0x1_0000_0000_0000_0000
  {
    WordBound(data);
    Pow2At32();
    Pow2Split(32, 64);
    if |data| < 8 { Pow2Mono(8 * |data|, 64); }
  }

  lemma FitsShort(data: seq<byte>)
    requires |data| <= 4
    ensures WordOf(data) < 0x1_0000_0000
  {
    WordBound(data);
    Pow2At32();
    if |data| < 4 { Pow2Mono(8 * |data|, 32); }
  }

  // ---- what the hash tells apart ---------------------------------------------------------------------

  /** Two inputs of one length that differ only inside one aligned four-byte word
      have different hashes. */
  lemma WordChangesShow(a: seq<byte>, x: seq<byte>, y: seq<byte>, b: seq<byte>, init: uint32)
    requires |a| % 4 == 0 && |x| == |y| <= 4 && x != y && (|x| == 4 || b == [])
    ensures Hash(a + x + b, init) != Hash(a + y + b, init)
  {
    var n := (4 - |a + x + b| % 4) % 4;
    var tail := b + Zeros(n);
    assert Padded(a + x + b) == a + (x + tail) && Padded(a + y + b) == a + (y + tail);
    SerialAppend(a, x + tail, init);
    SerialAppend(a, y + tail, init);
    SerialBound(a, init);
    var c := BitSerial(a, init);
    SerialAppend(x, tail, c);
    SerialAppend(y, tail, c);
    SerialBound(x, c);
    SerialBound(y, c);
    WordsDiffer(x, y, c);
    SerialInjective(tail, BitSerial(x, c), BitSerial(y, c));
  }

  /** The register from which some data lead to h. */
  lemma SerialReaches(data: seq<byte>, h: uint32) returns (c: uint32)
    ensures BitSerial(data, c) == h
  {
    var n, w := 8 * |data|, WordOf(data);
    SerialBound(data, 0);
    var z := BitSerial(data, 0);
    c := Back(n, Xor32(h, z));
    SerialIsSteps(data, 0);
    XorZero(w);
    SerialIsSteps(data, c);
    StepsLinear(n, c, w);
    StepsBack(n, Xor32(h, z));
    XorTwice(h, z);
  }

  /** Every value is the hash of some choice of an aligned word between any data before
      and after it; by WordChangesShow, of one choice only. */
  lemma WordReaches(a: seq<byte>, b: seq<byte>, init: uint32, h: uint32) returns (x: seq<byte>)
    requires |a| % 4 == 0
    ensures |x| == 4 && Hash(a + x + b, init) == h
  {
    var tail := b + Zeros((4 - |b| % 4) % 4);
    var c' := SerialReaches(tail, h);
    SerialBound(a, init);
    x := WordBetween(BitSerial(a, init), c');
    PaddedAround(a, x, b);
    SerialAround(a, x, tail, init);
  }

  lemma PaddedAround(a: seq<byte>, x: seq<byte>, b: seq<byte>)
    requires |a| % 4 == 0 && |x| == 4
    ensures Padded(a + x + b) == a + (x + (b + Zeros((4 - |b| % 4) % 4)))
  {
    assert |a + x + b| % 4 == |b| % 4;
  }

  lemma SerialAround(a: seq<byte>, x: seq<byte>, tail: seq<byte>, init: uint32)
    ensures BitSerial(a + (x + tail), init) == BitSerial(tail, BitSerial(x, BitSerial(a, init)))
  {
    SerialAppend(a, x + tail, init);
    SerialAppend(x, tail, BitSerial(a, init));
  }

  lemma WordBetween(c: uint32, c': uint32) returns (x: seq<byte>)
    ensures |x| == 4 && BitSerial(x, c) == c'
  {
    var v := Back(32, c');
    var w := Xor32(v, c);
    x := BytesOf(w, 4);
    Pow2At32();
    WordOfBytes(w, 4);
    SerialIsSteps(x, c);
    XorComm(c, w);
    XorTwice(v, c);
    StepsBack(32, c');
  }

  /** The n low bytes of w, the lowest first. */
  function BytesOf(w: nat, n: nat): (b: seq<byte>)
    ensures |b| == n
  {
    if n == 0 then [] else [w % 256] + BytesOf(w / 256, n - 1)
  }

  lemma {:induction false} WordOfBytes(w: nat, n: nat)
    requires w < Pow2(8 * n)
    ensures WordOf(BytesOf(w, n)) == w
    decreases n
  {
    if n > 0 {
      Pow2Byte(8 * (n - 1));
      WordOfBytes(w / 256, n - 1);
      assert BytesOf(w, n)[1..] == BytesOf(w / 256, n - 1);
    }
  }

  lemma {:induction false} BytesOfWord(x: seq<byte>)
    ensures BytesOf(WordOf(x), |x|) == x
    decreases |x|
  {
    if x != [] {
      LowestByte(x[0], WordOf(x[1..]));
      BytesOfWord(x[1..]);
      assert x == [x[0]] + x[1..];
    }
  }

  lemma LowestByte(b: byte, w: nat)
    ensures (b + 256 * w) % 256 == b && (b + 256 * w) / 256 == w
  {}

  lemma SerialInjective(data: seq<byte>, c: uint32, c': uint32)
    requires c != c'
    ensures BitSerial(data, c) != BitSerial(data, c')
  {
    SerialIsSteps(data, c);
    SerialIsSteps(data, c');
    var n, w := 8 * |data|, WordOf(data);
    StepsLinear(n, c, w);
    StepsLinear(n, c', w);
    if BitSerial(data, c) == BitSerial(data, c') {
      XorInjective(Steps(n, c), Steps(n, c'), Steps(n, w));
      StepsInjective(n, c, c');
    }
  }

  lemma WordsDiffer(x: seq<byte>, y: seq<byte>, c: uint32)
    requires |x| == |y| <= 4 && x != y
    ensures BitSerial(x, c) != BitSerial(y, c)
  {
    SerialIsSteps(x, c);
    SerialIsSteps(y, c);
    FitsShort(x);
    FitsShort(y);
    var n := 8 * |x|;
    Pow2At32();
    XorBound(c, WordOf(x), 32);
    XorBound(c, WordOf(y), 32);
    if BitSerial(x, c) == BitSerial(y, c) {
      StepsInjective(n, Xor(c, WordOf(x)), Xor(c, WordOf(y)));
      XorComm(c, WordOf(x));
      XorComm(c, WordOf(y));
      XorInjective(WordOf(x), WordOf(y), c);
      WordOfInjective(x, y);
    }
  }

  lemma {:induction false} WordOfInjective(x: seq<byte>, y: seq<byte>)
    requires |x| == |y| && WordOf(x) == WordOf(y)
    ensures x == y
  {
    if x != [] {
      LowestByte(x[0], WordOf(x[1..]));
      LowestByte(y[0], WordOf(y[1..]));
      WordOfInjective(x[1..], y[1..]);
      assert x == [x[0]] + x[1..] && y == [y[0]] + y[1..];
    }
  }

  // ---- the padding ---------------------------------------------------------------------------------------

  lemma {:induction false} ZeroBytes(n: nat, c: nat)
    ensures BitSerial(Zeros(n), c) == Steps(8 * n, c)
  {
    SerialIsSteps(Zeros(n), c);
    WordOfZeros([], n);
    assert [] + Zeros(n) == Zeros(n);
    XorZero(c);
  }

  /** For every length that is no multiple of four some input has a hash that is not
      its CRC: the padding counts as data. */
  lemma PaddingShows(n: nat) returns (init: uint32)
    requires n % 4 != 0
    ensures Hash(Zeros(n), init) != BitSerial(Zeros(n), init)
  {
    var z := 4 - n % 4;
    init := OneBehind(z);
    PaddedZeros(n, z);
    SerialAppend(Zeros(z), Zeros(n), init);
    SerialInjective(Zeros(n), 1, init);
  }

  /** A register that z zero bytes shift down to 1. */
  lemma OneBehind(z: nat) returns (init: uint32)
    requires 1 <= z <= 3
    ensures init != 1 && BitSerial(Zeros(z), init) == 1
  {
    Pow2At32();
    Pow2Mono(8 * z, 32);
    Pow2Mono(0, 8 * z);
    init := Pow2(8 * z);
    ZeroBytes(z, init);
    StepsOfShifted(8 * z, 1);
  }

  lemma PaddedZeros(n: nat, z: nat)
    requires n % 4 != 0 && z == 4 - n % 4
    ensures Padded(Zeros(n)) == Zeros(z) + Zeros(n)
  {
  }

  /** The hash of every input of n bytes is its CRC-32C register, with no padding,
      exactly when n is a multiple of four. */
  lemma IsCrcExactly(n: nat)
    ensures (forall data: seq<byte>, init: uint32 ::
              |data| == n ==> Hash(data, init) == BitSerial(data, init)) <==> n % 4 == 0
  {
    if n % 4 == 0 {
      forall data: seq<byte>, init: uint32 | |data| == n ensures Hash(data, init) == BitSerial(data, init) {
        assert Padded(data) == data;
      }
    } else {
      var init := PaddingShows(n);
      assert |Zeros(n)| == n;
    }
  }
}
