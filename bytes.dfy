/** Fixed-width integers, powers of two, single bits and bitwise XOR, written out
    over the unbounded integers so that the C code's widths stay explicit. */
module Bytes {

  type byte = x: int | 0 <= x < 0x100
  type int8 = x: int | -0x80 <= x < 0x80
  type uint16 = x: int | 0 <= x < 0x1_0000
  type uint32 = x: int | 0 <= x < 0x1_0000_0000

  function Pow2(n: nat): (r: nat)
    ensures r >= 1
  {
    if n == 0 then 1 else 2 * Pow2(n - 1)
  }

  lemma {:induction false} Pow2Add(m: nat, n: nat)
    ensures Pow2(m + n) == Pow2(m) * Pow2(n)
  {
    if n > 0 {
      Pow2Add(m, n - 1);
      assert Pow2(m + n) == 2 * Pow2(m + n - 1);
    }
  }

  lemma {:induction false} Pow2Monotone(m: nat, n: nat)
    requires m <= n
    ensures Pow2(m) <= Pow2(n)
  {
    if m < n {
      Pow2Monotone(m, n - 1);
    }
  }

  lemma Pow2Byte()
    ensures Pow2(8) == 0x100
  {
    assert Pow2(4) == 0x10;
    Pow2Add(4, 4);
  }

  lemma Pow2Small()
    ensures Pow2(2) == 4 && Pow2(4) == 16 && Pow2(6) == 64
  {
    assert Pow2(2) == 4;
    assert Pow2(4) == 16;
    assert Pow2(6) == 64;
  }

  /** The powers of two the field layout and the integer widths use. */
  lemma Pow2Values()
    ensures Pow2(1) == 2 && Pow2(2) == 4 && Pow2(4) == 0x10 && Pow2(8) == 0x100
    ensures Pow2(10) == 0x400 && Pow2(15) == 0x8000 && Pow2(16) == 0x1_0000
    ensures Pow2(19) == 0x8_0000 && Pow2(20) == 0x10_0000
    ensures Pow2(21) == 0x20_0000 && Pow2(22) == 0x40_0000
    ensures Pow2(31) == 0x8000_0000 && Pow2(32) == 0x1_0000_0000
  {
    assert Pow2(4) == 0x10;
    Pow2Add(4, 4);
    Pow2Add(8, 2);
    Pow2Add(8, 7);
    Pow2Add(8, 8);
    Pow2Add(16, 3);
    Pow2Add(16, 4);
    Pow2Add(16, 5);
    Pow2Add(16, 6);
    Pow2Add(16, 15);
    Pow2Add(16, 16);
  }

  /** x shifted right by k bits. */
  function Shr(x: nat, k: nat): nat
  {
    DivIsNat(x, Pow2(k));
    x / Pow2(k)
  }

  /** Bit k (0 = least significant) of x. */
  function BitOf(x: nat, k: nat): nat
  {
    Shr(x, k) % 2
  }

  lemma DivIsNat(x: nat, p: nat)
    requires p > 0
    ensures x / p >= 0
  {
    var q := x / p;
    DivMod(x, p);
    NegativeMultiple(p, q);
  }

  lemma NegativeMultiple(p: int, q: int)
    requires p > 0
    ensures q < 0 ==> p * q <= -p
  {
    if q < 0 {
      MulAtLeast(p, -q);
      assert p * -q == -(p * q);
    }
  }

  /** Conversion of an int to int8_t (two's complement wrap-around). */
  function ToInt8(x: int): (r: int8)
    ensures (r - x) % 0x100 == 0
    ensures -0x80 <= x < 0x80 ==> r == x
  {
    var m := x % 0x100;
    if m < 0x80 then m else m - 0x100
  }

  /** Conversion of an int32_t to int16_t (two's complement wrap-around). */
  function ToInt16(x: int): (r: int)
    ensures -0x8000 <= r < 0x8000
    ensures (r - x) % 0x1_0000 == 0
    ensures -0x8000 <= x < 0x8000 ==> r == x
  {
    var m := x % 0x1_0000;
    if m < 0x8000 then m else m - 0x1_0000
  }

  /** Conversion of a uint32_t to int32_t (two's complement reinterpretation). */
  function ToInt32(x: uint32): (r: int)
    ensures -0x8000_0000 <= r < 0x8000_0000
    ensures (r - x) % 0x1_0000_0000 == 0
    ensures x < 0x8000_0000 <==> r == x
  {
    if x < 0x8000_0000 then x else x - 0x1_0000_0000
  }

  /** Little-endian 16-bit value `lo | (hi << 8)`: the two bytes occupy disjoint bits,
      so the OR is a sum. */
  function Le16(lo: byte, hi: byte): (r: uint16)
    ensures r % 0x100 == lo && r / 0x100 == hi
  {
    lo + 0x100 * hi
  }

  /** The low n bits of a XOR b, computed one bit at a time. */
  function XorBits(a: nat, b: nat, n: nat): (r: nat)
    ensures r < Pow2(n)
  {
    if n == 0 then 0 else (a % 2 + b % 2) % 2 + 2 * XorBits(a / 2, b / 2, n - 1)
  }

  /** a ^ b on bytes. */
  function Xor(a: byte, b: byte): byte
  {
    Pow2Byte();
    XorBits(a, b, 8)
  }

  /** Splitting x modulo 2^n into its lowest bit and the rest. */
  lemma ModPow2Step(x: nat, n: nat)
    requires n >= 1
    ensures x % Pow2(n) == x % 2 + 2 * ((x / 2) % Pow2(n - 1))
  {
    var p := Pow2(n - 1);
    var q := (x / 2) / p;
    var s := (x / 2) % p;
    assert x / 2 == p * q + s;
    assert x == 2 * p * q + (2 * s + x % 2);
    assert 0 <= 2 * s + x % 2 < 2 * p;
    DivModUnique(x, 2 * p, q, 2 * s + x % 2);
  }

  lemma DivMod(x: int, p: int)
    requires p > 0
    ensures x == p * (x / p) + x % p && 0 <= x % p < p
  {
  }

  lemma DivModUnique(x: int, m: int, q: int, r: int)
    requires m > 0 && 0 <= r < m && x == m * q + r
    ensures x / m == q && x % m == r
  {
    var q', r' := x / m, x % m;
    DivMod(x, m);
    if q' > q {
      assert m * q' - m * q == m * (q' - q);
      MulAtLeast(m, q' - q);
    } else if q' < q {
      assert m * q - m * q' == m * (q - q');
      MulAtLeast(m, q - q');
    }
  }

  lemma MulAtLeast(m: int, k: int)
    requires m > 0 && k >= 1
    ensures m * k >= m
  {
  }

  /** XOR with the same value twice returns the original low n bits. */
  lemma {:induction false} XorBitsInvolution(a: nat, b: nat, n: nat)
    ensures XorBits(XorBits(a, b, n), b, n) == a % Pow2(n)
  {
    if n > 0 {
      XorBitsTwiceStep(a, b, n);
      XorBitsInvolution(a / 2, b / 2, n - 1);
      ModPow2Step(a, n);
    }
  }

  /** Applying XorBits twice keeps the low bit of a and recurses on the rest. */
  lemma XorBitsTwiceStep(a: nat, b: nat, n: nat)
    requires n >= 1
    ensures XorBits(XorBits(a, b, n), b, n) == a % 2 + 2 * XorBits(XorBits(a / 2, b / 2, n - 1), b / 2, n - 1)
  {
    var c := XorBits(a, b, n);
    var t := XorBits(a / 2, b / 2, n - 1);
    var lowBit := (a % 2 + b % 2) % 2;
    assert c == 2 * t + lowBit;
    DivModUnique(c, 2, t, lowBit);
    assert (lowBit + b % 2) % 2 == a % 2;
  }

  lemma XorInvolution(a: byte, k: byte)
    ensures Xor(Xor(a, k), k) == a
  {
    Pow2Byte();
    XorBitsInvolution(a, k, 8);
    SmallMod(a, Pow2(8));
  }

  lemma SmallMod(x: int, m: int)
    requires 0 <= x < m
    ensures x % m == x
  {
    DivModUnique(x, m, 0, x);
  }
}
