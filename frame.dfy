/** The instant-readout frame: its 8-byte clear header, the accept/reject checks and
    the decryption of the rest (`decryptVictronData`, src/victron_ble.cpp:86-130 and
    src/main.cpp:30-120), and the manufacturer-id filter in front of it. */
module VictronFrame {
  import opened Bytes
  import opened Wrappers
  import opened AesCtr

  const RecordTag: byte := 0x10
  const BatteryMonitorRecordType: byte := 0x02
  const VictronManufacturerId: uint16 := 0x02E1
  const HeaderLength: nat := 8

  /** Bytes 0-7 of a frame; multi-byte fields are little-endian. */
  datatype Header = Header(
    recordTag: byte,     // byte 0, must be 0x10
    modelId: uint16,     // bytes 1-2, informational
    readoutType: byte,   // byte 3, informational
    recordType: byte,    // byte 4, 0x02 for a battery monitor; a mismatch is only a warning
    nonce: uint16,       // bytes 5-6, the counter-mode nonce
    keyCheck: byte)      // byte 7, must equal key[0]

  function ParseHeader(d: seq<byte>): Header
    requires |d| >= HeaderLength
  {
    Header(d[0], Le16(d[1], d[2]), d[3], d[4], Le16(d[5], d[6]), d[7])
  }

  /** The frame passes all three checks of decryptVictronData. */
  predicate Accepts(d: seq<byte>, key: seq<byte>)
    requires |key| > 0
  {
    |d| >= HeaderLength && d[0] == RecordTag && d[7] == key[0]
  }

  /** main.cpp warns, but goes on, when the record type is not a battery monitor. */
  predicate RecordTypeWarning(d: seq<byte>)
    requires |d| >= HeaderLength
  {
    ParseHeader(d).recordType != BatteryMonitorRecordType
  }

  /** The initial counter block: nonce low byte, nonce high byte, then fourteen zeros. */
  function InitialCounter(nonce: uint16): Block
  {
    [nonce % 0x100, nonce / 0x100, 0, 0, 0, 0, 0, 0, 0, 0, 0, 0, 0, 0, 0, 0]
  }

  /** The plaintext of an accepted frame: bytes 8.. under counter mode from the nonce. */
  function Plaintext(aes: BlockCipher, key: seq<byte>, d: seq<byte>): seq<byte>
    requires |d| >= HeaderLength
  {
    CtrCrypt(aes, key, InitialCounter(ParseHeader(d).nonce), d[HeaderLength..])
  }

  /** The 64-byte buffer after an accepted frame is decrypted into it: the plaintext,
      then the bytes the buffer held before beyond it. */
  function BufferAfter(aes: BlockCipher, key: seq<byte>, d: seq<byte>, prior: seq<byte>): seq<byte>
    requires HeaderLength <= |d| <= |prior| + HeaderLength
  {
    Plaintext(aes, key, d) + prior[|d| - HeaderLength..]
  }

  /** decryptVictronData: rejects short frames, a wrong record tag and a wrong key-check
      byte, and otherwise decrypts bytes 8.. into the first |d| - 8 bytes of the buffer.
      `keySetupOk` is the outcome of `mbedtls_aes_setkey_enc`, which the model does not
      compute. */
  method DecryptVictronData(aes: BlockCipher, keySetupOk: bool, encryptedData: seq<byte>, key: seq<byte>,
                            decryptedData: array<byte>) returns (ok: bool)
    requires |key| == 16
    requires |encryptedData| <= decryptedData.Length + HeaderLength
    modifies decryptedData
    ensures ok <==> Accepts(encryptedData, key) && keySetupOk
    ensures ok ==> decryptedData[..] == BufferAfter(aes, key, encryptedData, old(decryptedData[..]))
    ensures !ok ==> decryptedData[..] == old(decryptedData[..])
  {
    if |encryptedData| < 8 {
      return false;
    }
    if encryptedData[0] != 0x10 {
      return false;
    }
    var nonce := Le16(encryptedData[5], encryptedData[6]);
    var keyByte := encryptedData[7];
    if keyByte != key[0] {
      return false;
    }
    var encryptedPayload := encryptedData[8..];
    if !keySetupOk {
      return false;
    }
    var nonceCounter := InitialCounter(nonce);
    AesCryptCtr(aes, key, nonceCounter, encryptedPayload, decryptedData);
    assert decryptedData[..] == decryptedData[..|encryptedPayload|] + decryptedData[|encryptedPayload|..];
    return true;
  }

  /** The reject conditions, exactly: a frame of at least 8 bytes is accepted iff its
      parsed header carries tag 0x10 and key[0] as key-check byte, and any byte other
      than 0 and 7 can change without changing the verdict. */
  lemma AcceptsExactly(d: seq<byte>, key: seq<byte>, k: nat, x: byte)
    requires |key| == 16 && k < |d| && k != 0 && k != 7
    ensures |d| >= 8 ==> (Accepts(d, key) <==> ParseHeader(d).recordTag == 0x10 && ParseHeader(d).keyCheck == key[0])
    ensures Accepts(d[k := x], key) == Accepts(d, key)
  {
  }

  /** A record type other than 0x02 only warns: the warning is raised exactly for
      byte 4 other than 0x02, and byte 4 changes neither the verdict nor the
      decrypted buffer. */
  lemma RecordTypeOnlyWarns(aes: BlockCipher, key: seq<byte>, d: seq<byte>, prior: seq<byte>, x: byte)
    requires |key| == 16 && HeaderLength <= |d| <= |prior| + HeaderLength
    ensures RecordTypeWarning(d) <==> d[4] != 0x02
    ensures Accepts(d[4 := x], key) == Accepts(d, key)
    ensures BufferAfter(aes, key, d[4 := x], prior) == BufferAfter(aes, key, d, prior)
  {
    var e := d[4 := x];
    assert e[HeaderLength..] == d[HeaderLength..];
    assert ParseHeader(e).nonce == ParseHeader(d).nonce;
  }

  /** Changing only the key-check byte of an accepted frame makes it rejected. */
  lemma KeyCheckByteDecides(d: seq<byte>, key: seq<byte>, x: byte)
    requires |key| == 16 && Accepts(d, key) && x != key[0]
    ensures !Accepts(d[7 := x], key)
  {
  }

  /** The initial counter block is [d[5], d[6], 0 x 14], so bytes 0-1 hold the nonce
      d[5] | d[6] << 8 least significant byte first. */
  lemma InitialCounterLayout(d: seq<byte>)
    requires |d| >= HeaderLength
    ensures ParseHeader(d).nonce == d[5] as int + 0x100 * d[6] as int
    ensures InitialCounter(ParseHeader(d).nonce) == [d[5], d[6]] + seq(14, i => 0)
  {
    var n := ParseHeader(d).nonce;
    assert n % 0x100 == d[5] && n / 0x100 == d[6];
    assert InitialCounter(n) == [d[5], d[6]] + seq(14, i => 0);
  }

  /** For the first 256 blocks, counter block j is the nonce, thirteen zeros and j:
      the big-endian increment never reaches the nonce bytes. */
  lemma {:induction false} FrameCounterBlocks(nonce: uint16, j: nat)
    requires j < 0x100
    ensures CounterBlock(InitialCounter(nonce), j) == [nonce % 0x100, nonce / 0x100] + seq(13, i => 0) + [j]
  {
    if j > 0 {
      FrameCounterBlocks(nonce, j - 1);
      var c := CounterBlock(InitialCounter(nonce), j - 1);
      assert c[15] == j - 1;
      assert c[..15] == [nonce % 0x100, nonce / 0x100] + seq(13, i => 0);
    } else {
      assert InitialCounter(nonce) == [nonce % 0x100, nonce / 0x100] + seq(13, i => 0) + [0];
    }
  }

  /** The decrypted bytes: exactly |d| - 8 of them, byte i being d[8 + i] XOR keystream
      byte i; decrypting them again with the same key and nonce gives back the ciphertext. */
  lemma PlaintextProperties(aes: BlockCipher, key: seq<byte>, d: seq<byte>)
    requires |d| >= HeaderLength
    ensures |Plaintext(aes, key, d)| == |d| - 8
    ensures forall i :: 0 <= i < |d| - 8 ==>
      Plaintext(aes, key, d)[i] == Xor(d[8 + i], KeystreamByte(aes, key, InitialCounter(ParseHeader(d).nonce), i))
    ensures CtrCrypt(aes, key, InitialCounter(ParseHeader(d).nonce), Plaintext(aes, key, d)) == d[8..]
  {
    CtrInvolution(aes, key, InitialCounter(ParseHeader(d).nonce), d[8..]);
  }

  /** The manufacturer-id filter of VictronBLE::handleAdvertisement
      (src/victron_ble.cpp:49-61): at least 4 bytes and id 0x02E1; the payload is the
      rest after the 2-byte id. */
  function BleManufacturerPayload(md: seq<byte>): Option<seq<byte>>
  {
    if |md| < 4 then None
    else if Le16(md[0], md[1]) != VictronManufacturerId then None
    else Some(md[2..])
  }

  /** The manufacturer-id filter of main.cpp's onResult (src/main.cpp:416-429): at
      least 2 bytes, id 0x02E1 and more than 2 bytes. */
  function MainManufacturerPayload(md: seq<byte>): Option<seq<byte>>
  {
    if |md| >= 2 && Le16(md[0], md[1]) == VictronManufacturerId && |md| > 2 then Some(md[2..]) else None
  }

  /** What either filter passes on is the data minus its 2-byte id 0xE1 0x02; the two
      filters differ only on 3-byte data, whose 1-byte payload no frame check accepts. */
  lemma ManufacturerFilters(md: seq<byte>, key: seq<byte>)
    requires |key| == 16
    ensures MainManufacturerPayload(md).Some? <==> |md| > 2 && md[0] == 0xE1 && md[1] == 0x02
    ensures BleManufacturerPayload(md).Some? <==> |md| >= 4 && md[0] == 0xE1 && md[1] == 0x02
    ensures MainManufacturerPayload(md).Some? ==> md == [0xE1, 0x02] + MainManufacturerPayload(md).value
    ensures BleManufacturerPayload(md).Some? ==> MainManufacturerPayload(md) == BleManufacturerPayload(md)
    ensures (MainManufacturerPayload(md).Some? && Accepts(MainManufacturerPayload(md).value, key))
        <==> (BleManufacturerPayload(md).Some? && Accepts(BleManufacturerPayload(md).value, key))
  {
    if |md| >= 2 {
      var id := Le16(md[0], md[1]);
      assert id == 0x02E1 <==> md[0] == 0xE1 && md[1] == 0x02;
      if |md| > 2 {
        assert md == [md[0], md[1]] + md[2..];
      }
    }
  }
}
