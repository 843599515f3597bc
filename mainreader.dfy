/** The older reader of src/main.cpp: a scan callback holding the default address and
    key of src/config.h, the same decryption as the class version, a looser
    manufacturer-data filter, and the printed report in place of a BatteryData record. */
module MainReader {
  import opened Bytes
  import opened Wrappers
  import opened HexCodec
  import opened AesCtr
  import opened VictronFrame
  import opened SmartShunt
  import opened ShuntReport
  import opened Config
  import VictronBleReader

  /** The report printed for one advertisement, or None when nothing is parsed. */
  function MainProcess(target: string, key: seq<byte>, address: string, manufacturerData: Option<seq<byte>>,
                       stale: seq<byte>, aes: BlockCipher, keySetupOk: bool): Option<Report>
    requires |key| == 16 && |stale| == DecryptBufferSize
    requires manufacturerData.Some? ==> |manufacturerData.value| <= DecryptBufferSize + 10
  {
    if address != target || manufacturerData.None? then None
    else match MainManufacturerPayload(manufacturerData.value)
      case None => None
      case Some(frame) =>
        if Accepts(frame, key) && keySetupOk then MainParse(BufferAfter(aes, key, frame, stale), |frame|)
        else None
  }

  class VictronAdvertisingCallback {
    var targetAddress: string
    const encryptionKey: array<byte>

    /** The target and key come from the defaults (HexCodec.KeyPrintout states what
        the %02X printout of such a key shows). */
    constructor()
      ensures targetAddress == MacStringToAddress(DefaultMac)
      ensures encryptionKey.Length == 16 && encryptionKey[..] == HexToBytes(DefaultKey)
    {
      DefaultKeyIsHex();
      targetAddress := MacStringToAddress(DefaultMac);
      var keyBytes := new byte[16];
      HexStringToBytes(DefaultKey, keyBytes, 16);
      assert keyBytes[..] == HexToBytes(DefaultKey);
      encryptionKey := keyBytes;
    }

    /** onResult: other devices, missing data, data shorter than 2 bytes, other
        manufacturers and a bare id are ignored; otherwise the rest after the id is
        decrypted into a 64-byte buffer and parsed with its length. */
    method OnResult(address: string, manufacturerData: Option<seq<byte>>,
                    stale: seq<byte>, aes: BlockCipher, keySetupOk: bool)
      returns (report: Option<Report>)
      requires encryptionKey.Length == 16 && |stale| == DecryptBufferSize
      requires manufacturerData.Some? ==> |manufacturerData.value| <= DecryptBufferSize + 10
      ensures report == MainProcess(targetAddress, encryptionKey[..], address, manufacturerData, stale, aes, keySetupOk)
    {
      if address != targetAddress {
        return None;
      }
      if manufacturerData.None? {
        return None;
      }
      var md := manufacturerData.value;
      if |md| < 2 {
        return None;
      }
      var manufacturerId := Le16(md[0], md[1]);
      if !(manufacturerId == VictronManufacturerId && |md| > 2) {
        return None;
      }
      var encryptedPayload := md[2..];
      var payloadLen := |md| - 2;
      var decryptedData := new byte[DecryptBufferSize](i => if 0 <= i < |stale| then stale[i] else 0);
      assert decryptedData[..] == stale;
      var ok := DecryptVictronData(aes, keySetupOk, encryptedPayload, encryptionKey[..], decryptedData);
      if ok {
        report := MainParse(decryptedData[..], payloadLen);
      } else {
        report := None;
      }
    }
  }

  lemma DefaultKeyIsHex()
    ensures |DefaultKey| == 32 && IsHexString(DefaultKey) && |DefaultMac| == 12
  {
    DefaultsWellFormed();
  }

  /** The two readers act on the same advertisements and decode the same buffer: the
      older one prints a report exactly when the class version produces a record,
      and both read the frame length from the same data. */
  lemma ReadersAgree(target: string, key: seq<byte>, address: string, md: seq<byte>, rssi: int,
                     stale: seq<byte>, aes: BlockCipher, keySetupOk: bool)
    requires |key| == 16 && |stale| == DecryptBufferSize && |md| <= DecryptBufferSize + 10
    ensures var m := MainProcess(target, key, address, Some(md), stale, aes, keySetupOk);
      var b := VictronBleReader.Process(target, key, address, Some(md), rssi, stale, aes, keySetupOk);
      && (m.Some? <==> b.Some?)
      && (m.Some? ==> |md| >= 10)
      && (m.Some? ==>
            var buffer := BufferAfter(aes, key, md[2..], stale);
            m == MainParse(buffer, |md| - 2) && b == Decode(buffer, |md| - 2, ToInt8(rssi)))
  {
    ManufacturerFilters(md, key);
    var m := MainProcess(target, key, address, Some(md), stale, aes, keySetupOk);
    var b := VictronBleReader.Process(target, key, address, Some(md), rssi, stale, aes, keySetupOk);
    if address == target && MainManufacturerPayload(md).Some? && Accepts(md[2..], key) && keySetupOk {
      var buffer := BufferAfter(aes, key, md[2..], stale);
      MainParseAgrees(buffer, |md| - 2, ToInt8(rssi));
    }
  }

  /** The older reader passes 3-byte manufacturer data on, which the class version
      drops, but the decryption then rejects its 1-byte frame. */
  lemma ThreeByteDataIgnored(target: string, key: seq<byte>, stale: seq<byte>, aes: BlockCipher, keySetupOk: bool, x: byte)
    requires |key| == 16 && |stale| == DecryptBufferSize
    ensures MainManufacturerPayload([0xE1, 0x02, x]) == Some([x])
    ensures BleManufacturerPayload([0xE1, 0x02, x]).None?
    ensures MainProcess(target, key, target, Some([0xE1, 0x02, x]), stale, aes, keySetupOk).None?
  {
    ManufacturerFilters([0xE1, 0x02, x], key);
  }
}
