/** Unsigned 32-bit arithmetic and the bitwise operators the C code applies to it.

    A `uint32` is a natural number below 2^32; the operators are written bit by
    bit on natural numbers, so that masks, remainders and powers of two can be
    related by induction. */
module Bits {

  type uint32 = x: nat | x < 0x1_0000_0000

  type byte = x: nat | x < 256

  function Pow2(n: nat): (r: nat)
    ensures r > 0
  {
    if n == 0 then 1 else 2 * Pow2(n - 1)
  }

  function And(x: nat, y: nat): (r: nat)
    ensures r <= x && r <= y
  {
    if x == 0 || y == 0 then 0
    else 2 * And(x / 2, y / 2) + if x % 2 == 1 && y % 2 == 1 then 1 else 0
  }

  function Or(x: nat, y: nat): nat
    decreases x + y
  {
    if x == 0 && y == 0 then 0
    else 2 * Or(x / 2, y / 2) + if x % 2 == 1 || y % 2 == 1 then 1 else 0
  }

  function Xor(x: nat, y: nat): nat
    decreases x + y
  {
    if x == 0 && y == 0 then 0
    else 2 * Xor(x / 2, y / 2) + if x % 2 != y % 2 then 1 else 0
  }

  function Shr(x: nat, k: nat): (r: nat)
    ensures r <= x
  {
    if k == 0 then x else Shr(x / 2, k - 1)
  }

  /** Bit i of x. */
  predicate Bit(x: nat, i: nat) {
    if i == 0 then x % 2 == 1 else Bit(x / 2, i - 1)
  }

  function Add32(x: uint32, y: uint32): uint32 { (x + y) % 0x1_0000_0000 }

  function Sub32(x: uint32, y: uint32): uint32 { (x - y) % 0x1_0000_0000 }

  function Mul32(x: uint32, y: uint32): uint32 { (x * y) % 0x1_0000_0000 }

  ghost predicate IsPow2(n: nat) {
    exists k: nat :: n == Pow2(k)
  }

  // ---- masks and remainders -------------------------------------------------

  lemma {:induction false} AndMask(x: nat, k: nat)
    ensures And(x, Pow2(k) - 1) == x % Pow2(k)
  {
    var q := MaskQuotient(x, k);
    ModUnique(x, q, And(x, Pow2(k) - 1), Pow2(k));
  }

  lemma {:induction false} MaskQuotient(x: nat, k: nat) returns (q: nat)
    ensures And(x, Pow2(k) - 1) < Pow2(k)
    ensures x == q * Pow2(k) + And(x, Pow2(k) - 1)
  {
    if k == 0 || x == 0 {
      q := x;
    } else {
      q := MaskQuotient(x / 2, k - 1);
      var p := Pow2(k - 1);
      assert Pow2(k) == 2 * p && Pow2(k) - 1 == 2 * (p - 1) + 1;
      AndOdd(x, p - 1);
      QuotientStep(x, q, p, And(x / 2, p - 1));
    }
  }

  lemma AndOdd(x: nat, m: nat)
    requires x > 0
    ensures And(x, 2 * m + 1) == 2 * And(x / 2, m) + x % 2
  {}

  lemma QuotientStep(x: nat, q: nat, p: nat, a: nat)
    requires x / 2 == q * p + a && a < p
    ensures x == q * (2 * p) + (2 * a + x % 2) && 2 * a + x % 2 < 2 * p
  {}

  /** Division with remainder is unique. */
  lemma ModUnique(x: int, q: int, r: nat, n: nat)
    requires 0 < n && r < n && x == q * n + r
    ensures x % n == r && x / n == q
  {
    var q', r' := x / n, x % n;
    assert (q' - q) * n == r - r';
    if q' > q {
      MulMono(1, q' - q, n);
    } else if q' < q {
      MulMono(1, q - q', n);
    }
  }

  lemma MulMono(a: int, b: int, n: nat)
    requires a <= b
    ensures a * n <= b * n
  {}

  lemma {:induction false} Pow2Split(k: nat, n: nat)
    requires k <= n
    ensures Pow2(n) == Pow2(n - k) * Pow2(k)
  {
    if k == 0 {
    } else {
      Pow2Split(k - 1, n - 1);
    }
  }

  lemma {:induction false} Pow2Mono(k: nat, n: nat)
    requires k < n
    ensures 2 * Pow2(k) <= Pow2(n)
  {
    if n > k + 1 { Pow2Mono(k, n - 1); }
  }

  lemma Pow2At32()
    ensures Pow2(31) == 0x8000_0000 && Pow2(32) == 0x1_0000_0000
  {
    assert Pow2(8) == 256;
    Pow2Split(8, 16);
    Pow2Split(16, 32);
  }

  /** The masks of powers of two representable in 32 bits. */
  lemma Pow2Divides32(size: uint32) returns (k: nat, c: nat)
    requires IsPow2(size)
    ensures k < 32 && size == Pow2(k) && c * size == 0x1_0000_0000 && 2 <= c
  {
    k :| size == Pow2(k);
    Pow2At32();
    if k > 32 { Pow2Mono(32, k); }
    Pow2Split(k, 32);
    c := Pow2(32 - k);
    assert c == 2 * Pow2(31 - k);
  }

  lemma Wrap32(x: int)
    ensures 0 <= x < 0x1_0000_0000 ==> x % 0x1_0000_0000 == x
    ensures -0x1_0000_0000 <= x < 0 ==> x % 0x1_0000_0000 == x + 0x1_0000_0000
    ensures 0x1_0000_0000 <= x < 0x2_0000_0000 ==> x % 0x1_0000_0000 == x - 0x1_0000_0000
  {}

  /** The difference of two masked positions, taken in 32-bit arithmetic and
      masked again, is their distance around a ring of `size` places. */
  lemma MaskedDifference(w: nat, r: nat, size: uint32)
    requires IsPow2(size) && w < size && r < size
    ensures And(Sub32(w, r), Sub32(size, 1)) == if r <= w then w - r else w - r + size
  {
    var k, c := Pow2Divides32(size);
    var d, m := Sub32(w, r), Sub32(size, 1);
    assert m == size - 1 && d == if r <= w then w - r else w - r + 0x1_0000_0000 by {
      Wrap32(size - 1);
      Wrap32(w - r);
    }
    MulPred(c, size);
    MaskWithin(d, if r <= w then 0 else c - 1, if r <= w then w - r else w - r + size, size, k);
  }

  lemma MaskWithin(d: nat, q: nat, r: nat, size: nat, k: nat)
    requires size == Pow2(k) && r < size && d == q * size + r
    ensures And(d, size - 1) == r
  {
    AndMask(d, k);
    ModUnique(d, q, r, size);
  }

  lemma MulPred(c: nat, n: nat)
    ensures (c - 1) * n == c * n - n
  {}

  /** Advancing a masked position by at most a full turn. */
  lemma MaskedSum(w: nat, n: nat, size: uint32)
    requires IsPow2(size) && w < size && n <= size
    ensures And(Add32(w, n), Sub32(size, 1)) == if w + n < size then w + n else w + n - size
  {
    var k, c := Pow2Divides32(size);
    MulMono(2, c, size);
    var d, m := Add32(w, n), Sub32(size, 1);
    assert m == size - 1 && d == w + n by {
      Wrap32(size - 1);
      Wrap32(w + n);
    }
    MaskWithin(d, if w + n < size then 0 else 1, if w + n < size then w + n else w + n - size, size, k);
  }

  // ---- is_power_of_2 and __roundup_2 ----------------------------------------

  predicate IsPowerOf2(n: uint32) {
    n != 0 && And(n, n - 1) == 0
  }

  lemma {:induction false} AndSelf(n: nat)
    ensures And(n, n) == n
  {
    if n > 0 { AndSelf(n / 2); }
  }

  /** The test `n & (n - 1)` recognises exactly the powers of two. */
  lemma {:induction false} IsPowerOf2Correct(n: uint32)
    ensures IsPowerOf2(n) <==> IsPow2(n)
  {
    if n <= 1 {
      assert Pow2(0) == 1;
    } else if n % 2 == 1 {
      assert (n - 1) / 2 == n / 2;
      AndSelf(n / 2);
      forall k: nat ensures n != Pow2(k) {
        assert k > 0 ==> Pow2(k) % 2 == 0;
      }
    } else {
      assert (n - 1) / 2 == n / 2 - 1;
      assert And(n, n - 1) == 2 * And(n / 2, n / 2 - 1);
      IsPowerOf2Correct(n / 2);
      if IsPow2(n) {
        var k: nat :| n == Pow2(k);
        assert n / 2 == Pow2(k - 1);
      }
      if IsPow2(n / 2) {
        var k: nat :| n / 2 == Pow2(k);
        assert n == Pow2(k + 1);
      }
    }
  }

  function Smear(x: nat, m: nat): nat { Or(x, Shr(x, m)) }

  function SmearAll(x: nat): nat { Smear(Smear(Smear(Smear(Smear(x, 1), 2), 4), 8), 16) }

  function RoundUp2(num: uint32): uint32 {
    (SmearAll(Sub32(num, 1)) + 1) % 0x1_0000_0000
  }

  lemma {:induction false} OrBit(x: nat, y: nat, i: nat)
    ensures Bit(Or(x, y), i) == (Bit(x, i) || Bit(y, i))
    decreases i
  {
    if x == 0 && y == 0 {
    } else if i > 0 {
      OrBit(x / 2, y / 2, i - 1);
    }
  }

  lemma {:induction false} ShrBit(x: nat, m: nat, i: nat)
    ensures Bit(Shr(x, m), i) == Bit(x, m + i)
  {
    if m > 0 { ShrBit(x / 2, m - 1, i); }
  }

  lemma {:induction false} OrBound(x: nat, y: nat, l: nat)
    requires x < Pow2(l) && y < Pow2(l)
    ensures Or(x, y) < Pow2(l)
  {
    if l > 0 && x + y > 0 { OrBound(x / 2, y / 2, l - 1); }
  }

  lemma {:induction false} AllOnes(x: nat, l: nat)
    requires x < Pow2(l) && forall i: nat :: i < l ==> Bit(x, i)
    ensures x == Pow2(l) - 1
  {
    if l > 0 {
      forall i: nat | i < l - 1 ensures Bit(x / 2, i) { assert Bit(x, i + 1); }
      AllOnes(x / 2, l - 1);
      assert Bit(x, 0);
    }
  }

  /** x has exactly l significant bits, the top m of which (or all) are ones. */
  ghost predicate TopOnes(x: nat, l: nat, m: nat) {
    x < Pow2(l) && forall i: nat :: l - m <= i < l ==> Bit(x, i)
  }

  lemma SmearTopOnes(x: nat, l: nat, m: nat)
    requires TopOnes(x, l, m)
    ensures TopOnes(Smear(x, m), l, 2 * m)
  {
    var y := Smear(x, m);
    OrBound(x, Shr(x, m), l);
    forall i: nat | l - 2 * m <= i < l ensures Bit(y, i) {
      OrBit(x, Shr(x, m), i);
      ShrBit(x, m, i);
      if i < l - m { assert Bit(x, m + i); }
    }
  }

  lemma {:induction false} SignificantBits(x: nat, w: nat) returns (l: nat)
    requires 0 < x < Pow2(w)
    ensures 0 < l <= w && Pow2(l - 1) <= x && TopOnes(x, l, 1)
  {
    if x == 1 {
      l := 1;
    } else {
      var h := SignificantBits(x / 2, w - 1);
      l := h + 1;
      forall i: nat | l - 1 <= i < l ensures Bit(x, i) { assert Bit(x / 2, i - 1); }
    }
  }

  lemma SmearFully(x: nat, l: nat)
    requires l <= 32 && TopOnes(x, l, 1)
    ensures SmearAll(x) == Pow2(l) - 1
  {
    SmearTopOnes(x, l, 1);
    var x1 := Smear(x, 1);
    SmearTopOnes(x1, l, 2);
    var x2 := Smear(x1, 2);
    SmearTopOnes(x2, l, 4);
    var x4 := Smear(x2, 4);
    SmearTopOnes(x4, l, 8);
    var x8 := Smear(x4, 8);
    SmearTopOnes(x8, l, 16);
    AllOnes(Smear(x8, 16), l);
  }

  lemma RoundUp2Width(n: uint32, l: nat, r: uint32)
    requires n != 1 && 0 < l <= 32 && Pow2(l - 1) <= Sub32(n, 1) < Pow2(l)
    requires r == Pow2(l) % 0x1_0000_0000
    ensures 1 <= n <= 0x8000_0000 ==>
              IsPow2(r) && n <= r <= 0x8000_0000 && (forall k: nat :: n <= Pow2(k) ==> r <= Pow2(k))
    ensures n == 0 || n > 0x8000_0000 ==> r == 0
  {
    Pow2At32();
    Wrap32(n - 1);
    if 1 <= n <= 0x8000_0000 {
      if l < 31 { Pow2Mono(l, 31); }
      assert r == Pow2(l);
      forall k: nat | n <= Pow2(k) ensures r <= Pow2(k) { LeastPow2(n, l, k); }
    } else {
      if l < 32 { Pow2Mono(l - 1, 31); }
      assert l == 32;
    }
  }

  lemma LeastPow2(n: nat, l: nat, k: nat)
    requires 0 < l && Pow2(l - 1) < n <= Pow2(k)
    ensures Pow2(l) <= Pow2(k)
  {
    if k < l - 1 { Pow2Mono(k, l - 1); }
    if l < k { Pow2Mono(l, k); }
  }

  /** `__roundup_2` returns the least power of two not below its argument, and 0
      for the arguments (0 and those above 2^31) for which that is no uint32. */
  lemma RoundUp2Correct(n: uint32)
    ensures 1 <= n <= 0x8000_0000 ==>
              && IsPow2(RoundUp2(n)) && n <= RoundUp2(n) <= 0x8000_0000
              && (forall k: nat :: n <= Pow2(k) ==> RoundUp2(n) <= Pow2(k))
    ensures n == 0 || n > 0x8000_0000 ==> RoundUp2(n) == 0
  {
    var l := RoundUp2Value(n);
    if n == 1 {
      forall k: nat ensures 1 <= Pow2(k) {}
    } else {
      RoundUp2Width(n, l, RoundUp2(n));
    }
  }

  lemma RoundUp2Value(n: uint32) returns (l: nat)
    ensures l <= 32 && RoundUp2(n) == Pow2(l) % 0x1_0000_0000
    ensures if n == 1 then l == 0 else l > 0 && Pow2(l - 1) <= Sub32(n, 1) < Pow2(l)
  {
    l := SmearWidth(Sub32(n, 1));
    Wrap32(n - 1);
    SmearedUp(n, Sub32(n, 1), l);
  }

  lemma SmearedUp(n: uint32, x: uint32, l: nat)
    requires x == Sub32(n, 1) && SmearAll(x) == Pow2(l) - 1
    ensures RoundUp2(n) == Pow2(l) % 0x1_0000_0000
  {
    RoundUpIs(n, x, SmearAll(x));
  }

  lemma RoundUpIs(n: uint32, x: uint32, y: nat)
    requires x == Sub32(n, 1) && y == SmearAll(x)
    ensures RoundUp2(n) == (y + 1) % 0x1_0000_0000
  {}

  lemma SmearWidth(x: uint32) returns (l: nat)
    ensures l <= 32 && SmearAll(x) == Pow2(l) - 1
    ensures if x == 0 then l == 0 else l > 0 && Pow2(l - 1) <= x < Pow2(l)
  {
    Pow2At32();
    if x == 0 {
      l := 0;
    } else {
      l := SignificantBits(x, 32);
    }
    SmearFully(x, l);
  }

  // ---- exclusive or ----------------------------------------------------------

  lemma {:induction false} XorBound(x: nat, y: nat, l: nat)
    requires x < Pow2(l) && y < Pow2(l)
    ensures Xor(x, y) < Pow2(l)
  {
    if l > 0 && x + y > 0 { XorBound(x / 2, y / 2, l - 1); }
  }

  lemma {:induction false} XorFixed(x: nat, y: nat)
    requires Xor(x, y) == x
    ensures y == 0
    decreases x + y
  {
    if x + y > 0 { XorFixed(x / 2, y / 2); }
  }

  lemma {:induction false} XorComm(x: nat, y: nat)
    ensures Xor(x, y) == Xor(y, x)
    decreases x + y
  {
    if x + y > 0 { XorComm(x / 2, y / 2); }
  }

  lemma {:induction false} XorAssoc(x: nat, y: nat, z: nat)
    ensures Xor(Xor(x, y), z) == Xor(x, Xor(y, z))
    decreases x + y + z
  {
    if x + y + z > 0 {
      XorParts(x, y);
      XorParts(y, z);
      XorParts(Xor(x, y), z);
      XorParts(x, Xor(y, z));
      XorAssoc(x / 2, y / 2, z / 2);
      SameDigits(Xor(Xor(x, y), z), Xor(x, Xor(y, z)));
    }
  }

  lemma XorHalf(x: nat, y: nat)
    ensures Xor(x, y) == 2 * Xor(x / 2, y / 2) + if x % 2 != y % 2 then 1 else 0
  {}

  /** The digits of an exclusive or, the last and the others. */
  lemma XorParts(x: nat, y: nat)
    ensures Xor(x, y) / 2 == Xor(x / 2, y / 2) && Xor(x, y) % 2 == if x % 2 != y % 2 then 1 else 0
  {
    XorHalf(x, y);
  }

  lemma SameDigits(a: nat, b: nat)
    requires a / 2 == b / 2 && a % 2 == b % 2
    ensures a == b
  {}

  lemma {:induction false} XorZero(x: nat)
    ensures Xor(x, 0) == x && Xor(0, x) == x && Xor(x, x) == 0
  {
    if x > 0 { XorZero(x / 2); }
  }

  lemma XorSwap(x: nat, y: nat, z: nat)
    ensures Xor(Xor(x, y), z) == Xor(Xor(x, z), y)
  {
    XorAssoc(x, y, z);
    XorComm(y, z);
    XorAssoc(x, z, y);
  }

  lemma XorTwice(x: nat, y: nat)
    ensures Xor(Xor(x, y), y) == x
  {
    XorAssoc(x, y, y);
    XorZero(y);
    XorZero(x);
  }

  lemma XorCancel(x: nat, y: nat, z: nat)
    ensures Xor(Xor(x, z), Xor(y, z)) == Xor(x, y)
  {
    XorComm(y, z);
    XorAssoc(Xor(x, z), z, y);
    XorTwice(x, z);
  }

  lemma XorInjective(x: nat, y: nat, z: nat)
    requires Xor(x, z) == Xor(y, z)
    ensures x == y
  {
    XorTwice(x, z);
    XorTwice(y, z);
  }

  /** x shifted left, place by place. */
  function Shl(x: nat, k: nat): nat {
    if k == 0 then x else 2 * Shl(x, k - 1)
  }

  lemma {:induction false} ShlIs(x: nat, k: nat)
    ensures Shl(x, k) == x * Pow2(k)
    decreases k
  {
    if k > 0 {
      ShlIs(x, k - 1);
      assert x * Pow2(k) == 2 * (x * Pow2(k - 1));
    }
  }

  /** Exclusive or and or of numbers without common bits are their sum. */
  lemma DisjointSum(x: nat, y: nat, k: nat)
    requires x < Pow2(k)
    ensures Xor(x, y * Pow2(k)) == Or(x, y * Pow2(k)) == x + y * Pow2(k)
  {
    DisjointShl(x, y, k);
    ShlIs(y, k);
  }

  lemma {:induction false} DisjointShl(x: nat, y: nat, k: nat)
    requires x < Pow2(k)
    ensures Xor(x, Shl(y, k)) == Or(x, Shl(y, k)) == x + Shl(y, k)
    decreases k
  {
    if k == 0 {
      XorZero(y);
      OrZero(y);
    } else {
      DisjointShl(x / 2, y, k - 1);
      assert Shl(y, k) / 2 == Shl(y, k - 1);
    }
  }

  lemma {:induction false} OrZero(x: nat)
    ensures Or(0, x) == x
  {
    if x > 0 { OrZero(x / 2); }
  }

  lemma {:induction false} ShrDivides(x: nat, k: nat)
    ensures Shr(x, k) == x / Pow2(k)
    decreases k
  {
    if k > 0 {
      ShrDivides(x / 2, k - 1);
      HalvesDivide(x, Pow2(k - 1));
    }
  }

  lemma HalvesDivide(x: nat, n: nat)
    requires n > 0
    ensures x / 2 / n == x / (2 * n)
  {
    var q, r := x / 2 / n, x / 2 % n;
    QuotientStep(x, q, n, r);
    ModUnique(x, q, 2 * r + x % 2, 2 * n);
  }
}
