/** The payload as a little-endian bit stream: `extractBits` and `signExtend`
    (src/victron_ble.cpp:132-154; identical copies at src/main.cpp:123-147). */
module BitFields {
  import opened Bytes

  type int32 = x: int | -0x8000_0000 <= x < 0x8000_0000

  /** Stream bit k: bit k % 8 of byte k / 8, so byte 1 bit 0 is stream bit 8. */
  function StreamBit(d: seq<byte>, k: nat): nat
    requires k < 8 * |d|
  {
    ByteBit(d[k / 8], k % 8)
  }

  /** Bit i of a byte, written with a constant divisor for each of the eight bits
      (ByteBitIsBitOf: it is BitOf(x, i)). */
  function ByteBit(x: byte, i: nat): nat
    requires i < 8
  {
    (if i == 0 then x else if i == 1 then x / 2 else if i == 2 then x / 4 else if i == 3 then x / 8
     else if i == 4 then x / 16 else if i == 5 then x / 32 else if i == 6 then x / 64 else x / 128) % 2
  }

  lemma ByteBitIsBitOf(x: byte, i: nat)
    requires i < 8
    ensures ByteBit(x, i) == BitOf(x, i)
  {
    if i == 0 {
      assert Pow2(i) == 1;
    } else if i == 1 {
      assert Pow2(i) == 2;
    } else if i == 2 {
      assert Pow2(i) == 4;
    } else if i == 3 {
      assert Pow2(i) == 8;
    } else if i == 4 {
      assert Pow2(i) == 16;
    } else if i == 5 {
      assert Pow2(i) == 32;
    } else if i == 6 {
      assert Pow2(i) == 64;
    } else {
      assert Pow2(i) == 128;
    }
  }

  /** The n-bit unsigned field at `start`: stream bit start + i becomes result bit i,
      i.e. the sum over i < n of StreamBit(d, start + i) * 2^i. */
  function FieldValue(d: seq<byte>, start: nat, n: nat): (r: nat)
    requires start + n <= 8 * |d|
    ensures r < Pow2(n)
  {
    if n == 0 then 0 else FieldValue(d, start, n - 1) + Pow2(n - 1) * StreamBit(d, start + n - 1)
  }

  /** extractBits: a loop over the n bits, setting result bit i when stream bit
      start + i is set. */
  method ExtractBits(data: array<byte>, startBit: nat, numBits: nat) returns (result: nat)
    requires numBits <= 31  // `1 << i` is an int shift
    requires startBit + numBits <= 8 * data.Length
    ensures result == FieldValue(data[..], startBit, numBits)
    ensures result < Pow2(numBits)
  {
    result := 0;
    var currentBit := startBit;
    for i := 0 to numBits
      invariant currentBit == startBit + i
      invariant result == FieldValue(data[..], startBit, i)
    {
      var byteIndex := currentBit / 8;
      var bitIndex := currentBit % 8;
      ByteBitIsBitOf(data[byteIndex], bitIndex);
      assert StreamBit(data[..], currentBit) == BitOf(data[byteIndex], bitIndex);
      var next := i + 1;
      FieldValueStep(data[..], startBit, i, next, currentBit);
      if BitOf(data[byteIndex], bitIndex) == 1 {
        // result < 2^i, so `result |= (1 << i)` adds 2^i
        result := result + Pow2(i);
      }
      currentBit := currentBit + 1;
    }
  }

  /** One more bit (stream bit at = start + i) adds 2^i exactly when that bit is set. */
  lemma FieldValueStep(d: seq<byte>, start: nat, i: nat, next: nat, at: nat)
    requires next == i + 1 && at == start + i && start + next <= 8 * |d|
    ensures FieldValue(d, start, next) == FieldValue(d, start, i) + if StreamBit(d, at) == 1 then Pow2(i) else 0
  {
    FieldValueUnfold(d, start, next, i, at);
    TimesBit(Pow2(i), StreamBit(d, at));
  }

  lemma TimesBit(p: int, b: nat)
    requires b < 2
    ensures p * b == if b == 1 then p else 0
  {
  }

  /** Splitting a k-bit field into a low part of n bits and a high part of m bits
      starting at bit `high`. */
  lemma {:induction false} FieldValueSplit(d: seq<byte>, start: nat, n: nat, m: nat, k: nat, high: nat)
    requires k == n + m && high == start + n && start + k <= 8 * |d|
    ensures FieldValue(d, start, k) == FieldValue(d, start, n) + Pow2(n) * FieldValue(d, high, m)
    decreases m
  {
    if m > 0 {
      var m1, j := m - 1, k - 1;
      var top := start + j;
      FieldValueSplit(d, start, n, m1, j, high);
      Pow2Add(n, m1);
      assert Pow2(j) == Pow2(n) * Pow2(m1);
      FieldValueUnfold(d, start, k, j, top);
      FieldValueUnfold(d, high, m, m1, top);
      SplitStep(FieldValue(d, start, k), FieldValue(d, start, j),
                FieldValue(d, start, n), FieldValue(d, high, m1), FieldValue(d, high, m),
                StreamBit(d, top), Pow2(n), Pow2(m1), Pow2(j));
    }
  }

  /** The last bit, at stream index `last`, of a k-bit field. */
  lemma FieldValueUnfold(d: seq<byte>, start: nat, k: nat, j: nat, last: nat)
    requires k == j + 1 && last == start + j && start + k <= 8 * |d|
    ensures FieldValue(d, start, k) == FieldValue(d, start, j) + Pow2(j) * StreamBit(d, last)
  {
    assert k - 1 == j && start + k - 1 == last;
  }

  lemma SplitStep(total: int, prev: int, lo: int, mid: int, top: int, b: int, p: int, q: int, pq: int)
    requires total == prev + pq * b && prev == lo + p * mid && pq == p * q && top == mid + q * b
    ensures total == lo + p * top
  {
    assert p * top == p * mid + (p * q) * b;
  }

  /** x mod 2^n is x mod 2^j plus bit j of x, for j = n - 1. */
  lemma ModPow2High(x: nat, n: nat, j: nat)
    requires n >= 1 && j == n - 1
    ensures x % Pow2(n) == x % Pow2(j) + Pow2(j) * BitOf(x, j)
  {
    var p := Pow2(j);
    Pow2Next(j, n);
    var a, s := x / p, x % p;
    DivMod(x, p);
    var h := a / 2;
    assert a == 2 * h + a % 2;
    var low := if a % 2 == 0 then s else p + s;
    MulHalves(p, a, h, a % 2);
    assert x == 2 * p * h + low;
    DivModUnique(x, 2 * p, h, low);
  }

  lemma MulHalves(p: int, a: int, h: int, r: int)
    requires a == 2 * h + r
    ensures p * a == 2 * p * h + p * r
  {
  }

  lemma Pow2Next(j: nat, n: nat)
    requires n == j + 1
    ensures Pow2(n) == 2 * Pow2(j)
  {
  }

  /** An n-bit field lying inside byte k, starting at bit o of it (stream bit
      at = 8 * k + o), is that byte shifted right by o and masked to n bits. */
  lemma {:induction false} FieldValueWithinByte(d: seq<byte>, k: nat, o: nat, n: nat, at: nat)
    requires k < |d| && o + n <= 8 && at == 8 * k + o
    ensures FieldValue(d, at, n) == Shr(d[k], o) % Pow2(n)
    decreases n
  {
    if n > 0 {
      var j := n - 1;
      var top := at + j;
      var y := Shr(d[k], o);
      FieldValueWithinByte(d, k, o, j, at);
      FieldValueUnfold(d, at, n, j, top);
      WithinByteTopBit(d, k, o, j, top);
      ModPow2High(y, n, j);
    }
  }

  /** Stream bit top = 8 * k + o + j is bit j of byte k shifted right by o. */
  lemma WithinByteTopBit(d: seq<byte>, k: nat, o: nat, j: nat, top: nat)
    requires k < |d| && o + j < 8 && top == 8 * k + o + j
    ensures StreamBit(d, top) == BitOf(Shr(d[k], o), j)
  {
    var b := o + j;
    assert top / 8 == k && top % 8 == b;
    ByteBitIsBitOf(d[k], b);
    BitOfShift(d[k], o, j, b);
  }

  /** Bit c = a + b of x is bit b of x shifted right by a. */
  lemma BitOfShift(x: nat, a: nat, b: nat, c: nat)
    requires c == a + b
    ensures BitOf(x, c) == BitOf(Shr(x, a), b)
  {
    ShrAdd(x, a, b);
  }

  /** Shifting right by a + b is shifting right by a, then by b. */
  lemma ShrAdd(x: nat, a: nat, b: nat)
    ensures Shr(x, a + b) == Shr(Shr(x, a), b)
  {
    Pow2Add(a, b);
    DivDiv(x, Pow2(a), Pow2(b));
  }

  lemma DivDiv(x: nat, p: nat, q: nat)
    requires p > 0 && q > 0
    ensures x / (p * q) == (x / p) / q
  {
    var q1, r1 := x / p, x % p;
    var q2, r2 := q1 / q, q1 % q;
    var low := p * r2 + r1;
    DivMod(x, p);
    DivMod(q1, q);
    DistributeProduct(p, q, q2, r2);
    assert x == (p * q) * q2 + low;
    MulLess(p, r2, q);
    assert low < p * q;
    DivModUnique(x, p * q, q2, low);
  }

  lemma DistributeProduct(p: int, q: int, q2: int, r2: int)
    ensures p * (q * q2 + r2) == (p * q) * q2 + p * r2
  {
  }

  lemma MulLess(p: nat, r: nat, q: nat)
    requires p > 0 && r < q
    ensures p * r <= p * q - p
  {
    assert p * q - p * r == p * (q - r);
    MulAtLeast(p, q - r);
  }

  /** The 8-bit field at bit `at` = 8 * k is byte k. */
  lemma FieldValueByte(d: seq<byte>, k: nat, at: nat)
    requires k < |d| && at == 8 * k
    ensures FieldValue(d, at, 8) == d[k]
  {
    FieldValueWithinByte(d, k, 0, 8, at);
    assert Pow2(0) == 1;
    Pow2Byte();
    SmallMod(d[k], Pow2(8));
  }

  /** The shifted and masked byte with the powers of two written out as numbers. */
  lemma ShrModNumerals(x: nat, o: nat, n: nat, p: nat, q: nat)
    requires Pow2(o) == p && Pow2(n) == q
    ensures Shr(x, o) % Pow2(n) == (x / p) % q
  {
  }

  /** A byte-aligned 16-bit field, at bit `at` = 8 * k, is the little-endian value of
      bytes k and k + 1. */
  lemma FieldValueLe16(d: seq<byte>, k: nat, at: nat)
    requires k + 1 < |d| && at == 8 * k
    ensures FieldValue(d, at, 16) == Le16(d[k], d[k + 1])
  {
    var k1, high := k + 1, at + 8;
    FieldValueSplit(d, at, 8, 8, 16, high);
    FieldValueByte(d, k, at);
    FieldValueByte(d, k1, high);
    Pow2Values();
  }

  /** Only bytes start / 8 through (start + n - 1) / 8 are read. */
  lemma {:induction false} FieldValueReads(d1: seq<byte>, d2: seq<byte>, start: nat, n: nat)
    requires start + n <= 8 * |d1| && start + n <= 8 * |d2|
    requires n > 0 ==> forall k :: start / 8 <= k <= (start + n - 1) / 8 ==> d1[k] == d2[k]
    ensures FieldValue(d1, start, n) == FieldValue(d2, start, n)
  {
    if n > 0 {
      FieldValueReads(d1, d2, start, n - 1);
      var k := (start + n - 1) / 8;
      assert d1[k] == d2[k];
    }
  }

  /** signExtend: when bit `bits - 1` is set, `value | (0xFFFFFFFF << bits)` keeps the
      low `bits` bits of value and sets all higher ones; read as int32_t that is
      value mod 2^bits minus 2^bits. Otherwise value is returned as int32_t. */
  function SignExtend(value: uint32, bits: nat): int32
    requires 1 <= bits <= 31
  {
    Pow2Monotone(bits, 31);
    Pow2Values();
    if BitOf(value, bits - 1) == 1 then value % Pow2(bits) - Pow2(bits) else ToInt32(value)
  }

  /** For a bits-wide raw value: the two's-complement reading of its bits. */
  lemma SignExtendValue(v: uint32, bits: nat)
    requires 1 <= bits <= 31 && v < Pow2(bits)
    ensures SignExtend(v, bits) == if v < Pow2(bits - 1) then v else v - Pow2(bits)
    ensures -(Pow2(bits - 1) as int) <= SignExtend(v, bits) < Pow2(bits - 1)
  {
    var p := Pow2(bits - 1);
    assert Pow2(bits) == 2 * p;
    Pow2Monotone(bits, 31);
    Pow2Values();
    DivModUnique(v, Pow2(bits), 0, v);
    if v < p {
      DivModUnique(v, p, 0, v);
    } else {
      DivModUnique(v, p, 1, v - p);
    }
  }

  /** Sign extension inverts two's-complement encoding in `bits` bits. */
  lemma SignExtendEncode(x: int, bits: nat)
    requires 1 <= bits <= 31 && -(Pow2(bits - 1) as int) <= x < Pow2(bits - 1)
    ensures 0 <= x % Pow2(bits) < 0x1_0000_0000
    ensures SignExtend(x % Pow2(bits), bits) == x
  {
    var p := Pow2(bits - 1);
    assert Pow2(bits) == 2 * p;
    Pow2Monotone(bits, 31);
    Pow2Values();
    if x >= 0 {
      DivModUnique(x, Pow2(bits), 0, x);
    } else {
      DivModUnique(x, Pow2(bits), -1, x + Pow2(bits));
    }
    SignExtendValue(x % Pow2(bits), bits);
  }

  /** The 22-bit value with only bit 21 set is the most negative 22-bit current. */
  lemma SignExtendExample()
    ensures SignExtend(0x20_0000, 22) == -2097152
  {
    Pow2Values();
    SignExtendValue(0x20_0000, 22);
  }
}
