/** The class version of the reader, `VictronBLE` (src/victron_ble.cpp): it keeps the
    target address and the 16-byte key, filters advertisements, decrypts the
    instant-readout frame and builds the `BatteryData` record it hands to the display.
    The advertising device is given by its address, its manufacturer data (None when
    it has none) and its signal strength; the uninitialised 64-byte stack buffer the
    plaintext is written into is given by its prior contents `stale`. */
module VictronBleReader {
  import opened Bytes
  import opened BitFields
  import opened Wrappers
  import opened HexCodec
  import opened AesCtr
  import opened VictronFrame
  import opened SmartShunt

  /** The record handed on for one advertisement, or None when it is ignored. */
  function Process(target: string, key: seq<byte>, address: string, manufacturerData: Option<seq<byte>>,
                   rssi: int, stale: seq<byte>, aes: BlockCipher, keySetupOk: bool): Option<BatteryData>
    requires |key| == 16 && |stale| == DecryptBufferSize
    requires manufacturerData.Some? ==> |manufacturerData.value| <= DecryptBufferSize + 10
  {
    if address != target || manufacturerData.None? then None
    else match BleManufacturerPayload(manufacturerData.value)
      case None => None
      case Some(frame) =>
        if Accepts(frame, key) && keySetupOk then
          Decode(BufferAfter(aes, key, frame, stale), |frame|, ToInt8(rssi))
        else None
  }

  class VictronBle {
    var targetAddress: string
    const encryptionKey: array<byte>

    /** The address formatted from the 12-character MAC string and the key decoded from
        its hex string into a zeroed 16-byte array. */
    constructor(macAddress: string, encryptionKeyStr: string)
      requires |macAddress| >= 12 && IsHexString(encryptionKeyStr)
      ensures targetAddress == MacStringToAddress(macAddress)
      ensures encryptionKey.Length == 16 && fresh(encryptionKey)
      ensures forall i :: 0 <= i < 16 ==>
        encryptionKey[i] == if 2 * i < |encryptionKeyStr| then HexToBytes(encryptionKeyStr)[i] else 0
    {
      targetAddress := MacStringToAddress(macAddress);
      var keyBytes := new byte[16](i => 0);
      HexStringToBytes(encryptionKeyStr, keyBytes, 16);
      encryptionKey := keyBytes;
    }

    /** parseSmartShuntData: the fields assigned one by one from the decrypted buffer;
        the result is the record sent to the display, None when the frame is too short. */
    method ParseSmartShuntData(data: array<byte>, len: nat, rssi: int8) returns (sent: Option<BatteryData>)
      requires data.Length >= LayoutBytes
      ensures sent == Decode(data[..], len, rssi)
    {
      if len < 8 {
        return None;
      }
      var batteryData := DefaultBatteryData;
      batteryData := batteryData.(rssi := rssi);
      batteryData := batteryData.(dataValid := true);
      batteryData := ParseWords(data, batteryData);
      batteryData := ParseAux(data, batteryData);
      batteryData := ParseCurrent(data, batteryData);
      if len >= 16 {
        batteryData := ParseExtended(data, batteryData);
      }
      return Some(batteryData);
    }

    /** Time-to-go (bits 0-15), voltage (16-31) and alarms (32-47). */
    method ParseWords(data: array<byte>, b: BatteryData) returns (batteryData: BatteryData)
      requires data.Length >= LayoutBytes && b.ttgMinutes == 0 && b.voltage == 0
      ensures batteryData == b.(ttgMinutes := TtgMinutes(data[..]), voltage := Voltage(data[..]), alarms := Alarms(data[..]))
    {
      Pow2Values();
      batteryData := b;
      var ttgRaw := ExtractBits(data, 0, 16);
      if ttgRaw != 0xFFFF {
        batteryData := batteryData.(ttgMinutes := ttgRaw);
      }
      var voltageRaw := ExtractBits(data, 16, 16);
      if voltageRaw != 0x7FFF {
        var voltageSigned := ToInt16(SignExtend(voltageRaw, 16));
        batteryData := batteryData.(voltage := voltageSigned);
      }
      var alarmRaw := ExtractBits(data, 32, 16);
      batteryData := batteryData.(alarms := alarmRaw);
    }

    /** Aux value (bits 48-63) and aux type (bits 64-65). */
    method ParseAux(data: array<byte>, b: BatteryData) returns (batteryData: BatteryData)
      requires data.Length >= LayoutBytes && b.auxValue == 0
      ensures batteryData == b.(auxType := AuxType(data[..]), auxValue := Aux(data[..]))
    {
      Pow2Values();
      batteryData := b;
      var auxRaw := ExtractBits(data, 48, 16);
      var auxInput := ExtractBits(data, 64, 2);
      batteryData := batteryData.(auxType := auxInput);
      if auxRaw != 0x7FFF && auxInput != 1 {
        var auxSigned := ToInt16(SignExtend(auxRaw, 16));
        if auxInput == 0 {
          batteryData := batteryData.(auxValue := auxSigned);
        } else if auxInput == 2 {
          batteryData := batteryData.(auxValue := auxSigned - KelvinOffset);
        } else if auxInput == 3 {
          batteryData := batteryData.(auxValue := auxSigned);
        }
      }
    }

    /** Current (bits 66-87) and, from it and the stored voltage, power. */
    method ParseCurrent(data: array<byte>, b: BatteryData) returns (batteryData: BatteryData)
      requires data.Length >= LayoutBytes && b.voltage == Voltage(data[..]) && b.current == 0 && b.power == 0
      ensures batteryData == b.(current := Current(data[..]), power := Power(data[..]))
    {
      Pow2Values();
      batteryData := b;
      var currentRaw := ExtractBits(data, 66, 22);
      if currentRaw != 0x3F_FFFF {
        var currentSigned := SignExtend(currentRaw, 22);
        batteryData := batteryData.(current := currentSigned);
        if batteryData.voltage != 0 {
          batteryData := batteryData.(power := batteryData.voltage * batteryData.current);
        }
      }
    }

    /** Consumed Ah (bits 88-107) and SOC (bits 108-117), read for long frames only. */
    method ParseExtended(data: array<byte>, b: BatteryData) returns (batteryData: BatteryData)
      requires data.Length >= LayoutBytes && b.consumedAh == 0 && b.soc == 0
      ensures batteryData == b.(consumedAh := ConsumedAh(data[..], ExtendedFrameLength), soc := Soc(data[..], ExtendedFrameLength))
    {
      Pow2Values();
      batteryData := b;
      var consumedRaw := ExtractBits(data, 88, 20);
      if consumedRaw != 0xF_FFFF {
        var consumedSigned := SignExtend(consumedRaw, 20);
        batteryData := batteryData.(consumedAh := -consumedSigned);
      }
      var socRaw := ExtractBits(data, 108, 10);
      if socRaw != 0x3FF {
        batteryData := batteryData.(soc := socRaw);
      }
    }

    /** handleAdvertisement: ignores other devices, missing or short manufacturer data
        and other manufacturers, then decrypts the frame after the 2-byte id into a
        64-byte buffer and parses it with the frame length. */
    method HandleAdvertisement(address: string, manufacturerData: Option<seq<byte>>, rssi: int,
                               stale: seq<byte>, aes: BlockCipher, keySetupOk: bool)
      returns (sent: Option<BatteryData>)
      requires encryptionKey.Length == 16 && |stale| == DecryptBufferSize
      requires manufacturerData.Some? ==> |manufacturerData.value| <= DecryptBufferSize + 10
      ensures sent == Process(targetAddress, encryptionKey[..], address, manufacturerData, rssi, stale, aes, keySetupOk)
    {
      if address != targetAddress {
        return None;
      }
      if manufacturerData.None? {
        return None;
      }
      var md := manufacturerData.value;
      if |md| < 4 {
        return None;
      }
      var manufacturerId := Le16(md[0], md[1]);
      if manufacturerId != VictronManufacturerId {
        return None;
      }
      var encryptedPayload := md[2..];
      var payloadLen := |md| - 2;
      var decryptedData := new byte[DecryptBufferSize](i => if 0 <= i < |stale| then stale[i] else 0);
      assert decryptedData[..] == stale;
      var ok := DecryptVictronData(aes, keySetupOk, encryptedPayload, encryptionKey[..], decryptedData);
      if ok {
        sent := ParseSmartShuntData(decryptedData, payloadLen, ToInt8(rssi));
      } else {
        sent := None;
      }
    }
  }

  /** The scan callback of the class version: forwards every result. */
  class VictronAdvertisingCallback {
    const victronBle: VictronBle

    constructor(ble: VictronBle)
      ensures victronBle == ble
    {
      victronBle := ble;
    }

    method OnResult(address: string, manufacturerData: Option<seq<byte>>, rssi: int,
                    stale: seq<byte>, aes: BlockCipher, keySetupOk: bool)
      returns (sent: Option<BatteryData>)
      requires victronBle.encryptionKey.Length == 16 && |stale| == DecryptBufferSize
      requires manufacturerData.Some? ==> |manufacturerData.value| <= DecryptBufferSize + 10
      ensures sent == Process(victronBle.targetAddress, victronBle.encryptionKey[..], address, manufacturerData, rssi, stale, aes, keySetupOk)
    {
      sent := victronBle.HandleAdvertisement(address, manufacturerData, rssi, stale, aes, keySetupOk);
    }
  }

  /** A record is produced exactly for the target device sending manufacturer data
      E1 02, then a frame of at least 8 bytes with tag 0x10 and key[0] at frame byte 7,
      when the cipher accepts the key. */
  lemma ProcessExactly(target: string, key: seq<byte>, address: string, manufacturerData: Option<seq<byte>>,
                       rssi: int, stale: seq<byte>, aes: BlockCipher, keySetupOk: bool)
    requires |key| == 16 && |stale| == DecryptBufferSize
    requires manufacturerData.Some? ==> |manufacturerData.value| <= DecryptBufferSize + 10
    ensures Process(target, key, address, manufacturerData, rssi, stale, aes, keySetupOk).Some? <==>
      && address == target && manufacturerData.Some?
      && var md := manufacturerData.value;
         |md| >= 10 && md[0] == 0xE1 && md[1] == 0x02 && md[2] == RecordTag && md[9] == key[0] && keySetupOk
  {
    if manufacturerData.Some? {
      ManufacturerFilters(manufacturerData.value, key);
      var md := manufacturerData.value;
      if |md| >= 2 {
        ManufacturerFilters(md, key);
      }
    }
  }

  /** A produced record is the decoding of the plaintext of frame bytes 8.. followed by
      the untouched rest of the buffer, with the signal strength narrowed to int8_t. */
  lemma ProcessDecodes(target: string, key: seq<byte>, address: string, md: seq<byte>,
                       rssi: int, stale: seq<byte>, aes: BlockCipher, keySetupOk: bool)
    requires |key| == 16 && |stale| == DecryptBufferSize && |md| <= DecryptBufferSize + 10
    requires Process(target, key, address, Some(md), rssi, stale, aes, keySetupOk).Some?
    ensures |md| >= 10
    ensures var frame := md[2..];
      Process(target, key, address, Some(md), rssi, stale, aes, keySetupOk)
        == Decode(CtrCrypt(aes, key, InitialCounter(Le16(md[7], md[8])), md[10..]) + stale[|md| - 10..], |md| - 2, ToInt8(rssi))
  {
    ProcessExactly(target, key, address, Some(md), rssi, stale, aes, keySetupOk);
    var frame := md[2..];
    assert frame[8..] == md[10..];
    assert ParseHeader(frame).nonce == Le16(md[7], md[8]);
  }

  /** A frame with at least 15 encrypted bytes is decoded from decrypted bytes only:
      the prior buffer contents do not matter. */
  lemma LongFrameIgnoresStale(target: string, key: seq<byte>, address: string, md: seq<byte>,
                              rssi: int, stale1: seq<byte>, stale2: seq<byte>, aes: BlockCipher, keySetupOk: bool)
    requires |key| == 16 && |stale1| == DecryptBufferSize && |stale2| == DecryptBufferSize
    requires 2 + HeaderLength + LayoutBytes <= |md| <= DecryptBufferSize + 10
    ensures Process(target, key, address, Some(md), rssi, stale1, aes, keySetupOk)
         == Process(target, key, address, Some(md), rssi, stale2, aes, keySetupOk)
  {
    var frame := md[2..];
    if address == target && BleManufacturerPayload(md).Some? && Accepts(frame, key) && keySetupOk {
      assert BleManufacturerPayload(md).value == frame;
      var p := Plaintext(aes, key, frame);
      var d1, d2 := BufferAfter(aes, key, frame, stale1), BufferAfter(aes, key, frame, stale2);
      assert d1[..11] == p[..11] == d2[..11];
      assert d1[11..LayoutBytes] == p[11..LayoutBytes] == d2[11..LayoutBytes];
      DecodeReads(d1, d2, |frame|, ToInt8(rssi));
    }
  }

  /** Changing the frame's key-check byte to anything but key[0] suppresses the record. */
  lemma WrongKeyByteSuppressed(target: string, key: seq<byte>, address: string, md: seq<byte>,
                               rssi: int, stale: seq<byte>, aes: BlockCipher, keySetupOk: bool, x: byte)
    requires |key| == 16 && |stale| == DecryptBufferSize && 10 <= |md| <= DecryptBufferSize + 10 && x != key[0]
    ensures Process(target, key, address, Some(md[9 := x]), rssi, stale, aes, keySetupOk).None?
  {
    ProcessExactly(target, key, address, Some(md[9 := x]), rssi, stale, aes, keySetupOk);
  }
}
