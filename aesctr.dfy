/** AES-128 in counter mode (NIST SP 800-38A section 6.5), as used through
    `mbedtls_aes_crypt_ctr` with a zero stream offset. The AES block function itself
    (FIPS 197) is not modelled: it is a parameter of every member here. */
module AesCtr {
  import opened Bytes

  type Block = b: seq<byte> | |b| == 16 witness [0, 0, 0, 0, 0, 0, 0, 0, 0, 0, 0, 0, 0, 0, 0, 0]

  /** The forward block function CIPH_K under a 16-byte key K. */
  type BlockCipher = (seq<byte>, Block) -> Block

  /** A byte string read as a big-endian unsigned number. */
  function BigEndian(c: seq<byte>): (v: nat)
    ensures v < Pow2(8 * |c|)
  {
    if c == [] then 0
    else
      var p := c[..|c| - 1];
      Pow2Add(8 * |p|, 8);
      Pow2Byte();
      assert BigEndian(p) <= Pow2(8 * |p|) - 1;
      assert 0x100 * BigEndian(p) <= 0x100 * Pow2(8 * |p|) - 0x100;
      0x100 * BigEndian(p) + c[|c| - 1]
  }

  /** The standard incrementing function of SP 800-38A appendix B.1 over the whole
      block: add one to the last byte and carry toward byte 0, wrapping at the top. */
  function Increment(c: seq<byte>): (r: seq<byte>)
    ensures |r| == |c|
  {
    if c == [] then []
    else if c[|c| - 1] < 0xFF then c[..|c| - 1] + [c[|c| - 1] + 1]
    else Increment(c[..|c| - 1]) + [0]
  }

  lemma {:induction false} IncrementValue(c: seq<byte>)
    ensures BigEndian(Increment(c)) == (BigEndian(c) + 1) % Pow2(8 * |c|)
  {
    if c == [] {
    } else {
      var p, last := c[..|c| - 1], c[|c| - 1];
      var r := Increment(c);
      Pow2Add(8 * |p|, 8);
      Pow2Byte();
      var m, m' := Pow2(8 * |p|), Pow2(8 * |c|);
      assert m' == 0x100 * m;
      if last < 0xFF {
        assert r[..|r| - 1] == p;
        assert BigEndian(r) == BigEndian(c) + 1;
        assert BigEndian(p) <= m - 1;
        DivModUnique(BigEndian(c) + 1, m', 0, BigEndian(c) + 1);
      } else {
        assert r[..|r| - 1] == Increment(p);
        IncrementValue(p);
        var x := BigEndian(p) + 1;
        assert BigEndian(r) == 0x100 * (x % m);
        assert BigEndian(c) + 1 == 0x100 * x;
        ScaleMod(x, m, 0x100);
      }
    }
  }

  lemma ScaleMod(x: nat, m: nat, k: nat)
    requires m > 0 && k > 0
    ensures (k * x) % (k * m) == k * (x % m)
  {
    var q, s := x / m, x % m;
    assert x == m * q + s;
    assert k * x == (k * m) * q + k * s;
    assert k * s < k * m;
    DivModUnique(k * x, k * m, q, k * s);
  }

  lemma ModAddOne(a: nat, m: nat)
    requires m > 0
    ensures (a % m + 1) % m == (a + 1) % m
  {
    var q, s := a / m, a % m;
    assert a == m * q + s;
    if s + 1 < m {
      DivModUnique(a + 1, m, q, s + 1);
      DivModUnique(s + 1, m, 0, s + 1);
    } else {
      assert a + 1 == m * (q + 1) + 0;
      DivModUnique(a + 1, m, q + 1, 0);
      DivModUnique(s + 1, m, 1, 0);
    }
  }

  /** Counter block T_j: the initial block incremented j times. */
  function CounterBlock(ctr0: Block, j: nat): Block
  {
    if j == 0 then ctr0 else Increment(CounterBlock(ctr0, j - 1))
  }

  /** Counter block j is the initial block plus j, modulo 2^128. */
  lemma {:induction false} CounterBlockValue(ctr0: Block, j: nat)
    ensures BigEndian(CounterBlock(ctr0, j)) == (BigEndian(ctr0) + j) % Pow2(8 * |ctr0|)  // 2^128
  {
    if j == 0 {
      DivModUnique(BigEndian(ctr0), Pow2(8 * |ctr0|), 0, BigEndian(ctr0));
    } else {
      CounterBlockValue(ctr0, j - 1);
      IncrementValue(CounterBlock(ctr0, j - 1));
      ModAddOne(BigEndian(ctr0) + j - 1, Pow2(8 * |ctr0|));
    }
  }

  lemma {:induction false} CounterBlockShift(ctr0: Block, j: nat)
    ensures CounterBlock(ctr0, j + 1) == CounterBlock(Increment(ctr0), j)
  {
    if j > 0 {
      CounterBlockShift(ctr0, j - 1);
    }
  }

  /** Keystream byte i: byte i mod 16 of CIPH_K(T_(i / 16)). */
  function KeystreamByte(aes: BlockCipher, key: seq<byte>, ctr0: Block, i: nat): byte
  {
    aes(key, CounterBlock(ctr0, i / 16))[i % 16]
  }

  /** Counter-mode transform, byte by byte: input byte i XOR keystream byte i. */
  function CtrCrypt(aes: BlockCipher, key: seq<byte>, ctr0: Block, input: seq<byte>): seq<byte>
  {
    seq(|input|, i requires 0 <= i < |input| => Xor(input[i], KeystreamByte(aes, key, ctr0, i)))
  }

  function XorBytes(a: seq<byte>, b: seq<byte>): (r: seq<byte>)
    requires |a| == |b|
    ensures |r| == |a| && forall i :: 0 <= i < |a| ==> r[i] == Xor(a[i], b[i])
  {
    seq(|a|, i requires 0 <= i < |a| => Xor(a[i], b[i]))
  }

  /** Counter mode as SP 800-38A states it, block by block: C_j = P_j XOR CIPH_K(T_j),
      the last partial block using the leading bytes of its output block. */
  function CtrBlocks(aes: BlockCipher, key: seq<byte>, ctr: Block, input: seq<byte>): seq<byte>
    decreases |input|
  {
    var o := aes(key, ctr);
    if |input| <= 16 then XorBytes(input, o[..|input|])
    else XorBytes(input[..16], o) + CtrBlocks(aes, key, Increment(ctr), input[16..])
  }

  /** The byte-by-byte transform is standard block-wise counter mode. */
  lemma {:induction false} CtrCryptIsBlockwise(aes: BlockCipher, key: seq<byte>, ctr: Block, input: seq<byte>)
    ensures CtrCrypt(aes, key, ctr, input) == CtrBlocks(aes, key, ctr, input)
    decreases |input|
  {
    var o := aes(key, ctr);
    var l := CtrCrypt(aes, key, ctr, input);
    if |input| <= 16 {
      assert l == XorBytes(input, o[..|input|]);
    } else {
      var rest := input[16..];
      CtrCryptIsBlockwise(aes, key, Increment(ctr), rest);
      var tail := CtrCrypt(aes, key, Increment(ctr), rest);
      var r := XorBytes(input[..16], o) + tail;
      forall i | 0 <= i < |input| ensures l[i] == r[i] {
        if i >= 16 {
          CounterBlockShift(ctr, (i - 16) / 16);
          assert i / 16 == (i - 16) / 16 + 1 && i % 16 == (i - 16) % 16;
          assert tail[i - 16] == Xor(rest[i - 16], KeystreamByte(aes, key, Increment(ctr), i - 16));
        }
      }
      assert l == r;
    }
  }

  /** The transform is its own inverse: encryption and decryption are the same call. */
  lemma CtrInvolution(aes: BlockCipher, key: seq<byte>, ctr: Block, input: seq<byte>)
    ensures CtrCrypt(aes, key, ctr, CtrCrypt(aes, key, ctr, input)) == input
  {
    var once := CtrCrypt(aes, key, ctr, input);
    var twice := CtrCrypt(aes, key, ctr, once);
    forall i | 0 <= i < |input| ensures twice[i] == input[i] {
      XorInvolution(input[i], KeystreamByte(aes, key, ctr, i));
    }
  }

  /** `mbedtls_aes_crypt_ctr` started at stream offset 0: a new keystream block is
      encrypted from the counter, and the counter incremented, whenever the offset
      wraps to 0; output byte i is input byte i XOR stream byte (i mod 16). */
  method AesCryptCtr(aes: BlockCipher, key: seq<byte>, nonceCounter: Block, input: seq<byte>, output: array<byte>)
    requires |input| <= output.Length
    modifies output
    ensures output[..|input|] == CtrCrypt(aes, key, nonceCounter, input)
    ensures output[|input|..] == old(output[|input|..])
  {
    var ncOff: nat := 0;
    var counter: Block := nonceCounter;
    var streamBlock: Block := [0, 0, 0, 0, 0, 0, 0, 0, 0, 0, 0, 0, 0, 0, 0, 0];
    ghost var expected := CtrCrypt(aes, key, nonceCounter, input);
    var i := 0;
    while i < |input|
      invariant i <= |input|
      invariant StreamAt(aes, key, nonceCounter, i, ncOff, counter, streamBlock)
      invariant forall k :: 0 <= k < i ==> output[k] == expected[k]
      invariant forall k :: i <= k < output.Length ==> output[k] == old(output[k])
    {
      var next := i + 1;
      ghost var priorBlock, priorCounter := streamBlock, counter;
      if ncOff == 0 {
        streamBlock := aes(key, counter);
        counter := Increment(counter);
      }
      StreamStep(aes, key, nonceCounter, i, next, ncOff, priorCounter, priorBlock, counter, streamBlock);
      output[i] := Xor(input[i], streamBlock[ncOff]);
      assert output[i] == expected[i];
      ncOff := (ncOff + 1) % 16;
      i := next;
    }
    assert output[..|input|] == expected;
  }

  /** The state of the stream before byte i: the offset into the current block, the
      counter of the next block to encrypt, and the current keystream block. */
  ghost predicate StreamAt(aes: BlockCipher, key: seq<byte>, ctr0: Block, i: nat, ncOff: nat,
                           counter: Block, streamBlock: Block)
  {
    && ncOff == i % 16
    && counter == CounterBlock(ctr0, (i + 15) / 16)
    && (ncOff != 0 ==> streamBlock == aes(key, CounterBlock(ctr0, i / 16)))
  }

  /** One step of the stream loop: byte i is taken from the (possibly new) block, and
      the state moves on to byte i + 1. */
  lemma StreamStep(aes: BlockCipher, key: seq<byte>, ctr0: Block, i: nat, next: nat, ncOff: nat,
                   counter: Block, streamBlock: Block, counter': Block, streamBlock': Block)
    requires next == i + 1 && StreamAt(aes, key, ctr0, i, ncOff, counter, streamBlock)
    requires counter' == if ncOff == 0 then Increment(counter) else counter
    requires streamBlock' == if ncOff == 0 then aes(key, counter) else streamBlock
    ensures ncOff < 16 && streamBlock'[ncOff] == KeystreamByte(aes, key, ctr0, i)
    ensures StreamAt(aes, key, ctr0, next, (ncOff + 1) % 16, counter', streamBlock')
  {
    CounterIndexStep(i, next);
  }

  /** Index arithmetic of one step of the stream loop. */
  lemma CounterIndexStep(i: nat, next: nat)
    requires next == i + 1
    ensures i % 16 == 0 ==> (i + 15) / 16 == i / 16 && (next + 15) / 16 == i / 16 + 1
    ensures i % 16 != 0 ==> (i + 15) / 16 == i / 16 + 1 && (next + 15) / 16 == i / 16 + 1
    ensures next % 16 != 0 ==> next / 16 == i / 16
    ensures next % 16 == (i % 16 + 1) % 16
  {
  }
}
