/** The battery-monitor record of the instant readout (record type 0x02) and what
    `parseSmartShuntData` makes of it (src/victron_ble.cpp:156-237): the field layout,
    the "not available" sentinels, the `len >= 16` gate and the `BatteryData` struct
    of src/display.h:20-38, in exact integer units instead of floats. */
module SmartShunt {
  import opened Bytes
  import opened BitFields
  import opened Wrappers

  /** BatteryData with every float in an integer unit:
      voltage in 0.01 V, current in 0.001 A, power in 0.00001 W (their product),
      soc in 0.1 %, consumedAh in 0.1 Ah, auxValue in 0.01 V or 0.01 degC. */
  datatype BatteryData = BatteryData(
    voltage: int,
    current: int,
    power: int,
    soc: nat,
    consumedAh: int,
    ttgMinutes: uint16,
    auxValue: int,
    auxType: byte,
    alarms: uint16,
    rssi: int8,
    dataValid: bool,
    lastUpdate: nat,
    calculatedTimeRemainingMinutes: uint16,
    calculatedTimeToFullMinutes: uint16,
    timeCalculationValid: bool)

  /** The member initialisers of BatteryData: everything zero or false. */
  const DefaultBatteryData := BatteryData(0, 0, 0, 0, 0, 0, 0, 0, 0, 0, false, 0, 0, 0, false)

  /** A field of the record: `width` bits starting at stream bit `start`. */
  datatype Field = Field(start: nat, width: nat)

  const TtgField := Field(0, 16)
  const VoltageField := Field(16, 16)
  const AlarmField := Field(32, 16)
  const AuxField := Field(48, 16)
  const AuxTypeField := Field(64, 2)
  const CurrentField := Field(66, 22)
  const ConsumedField := Field(88, 20)
  const SocField := Field(108, 10)

  /** The fields in stream order. */
  const Layout := [TtgField, VoltageField, AlarmField, AuxField, AuxTypeField, CurrentField, ConsumedField, SocField]

  /** Raw values meaning "not available". */
  const TtgNotAvailable := 0xFFFF
  const VoltageNotAvailable := 0x7FFF
  const AuxNotAvailable := 0x7FFF
  const CurrentNotAvailable := 0x3F_FFFF
  const ConsumedNotAvailable := 0xF_FFFF
  const SocNotAvailable := 0x3FF

  /** Aux input types; type 1 is reserved and carries no value. */
  const AuxVoltage := 0
  const AuxReserved := 1
  const AuxTemperature := 2
  const AuxMidPoint := 3

  /** 0 degC in 0.01 K. */
  const KelvinOffset := 27315

  /** Consumed Ah and SOC are decoded only from frames of at least this many bytes. */
  const ExtendedFrameLength := 16

  /** The layout reads bits 0-117, i.e. bytes 0-14 of the decrypted buffer. */
  const LayoutBytes := 15

  /** The caller's decryption buffer, `uint8_t decryptedData[64]`. */
  const DecryptBufferSize := 64

  function Raw(d: seq<byte>, f: Field): nat
    requires f.start + f.width <= 8 * |d|
  {
    FieldValue(d, f.start, f.width)
  }

  /** The aux reading: only when the raw value is not 0x7FFF and the type is not
      reserved; temperatures come in 0.01 K and are converted to 0.01 degC. */
  function AuxValue(auxRaw: uint32, auxType: nat): int
  {
    if auxRaw != AuxNotAvailable && auxType != AuxReserved then
      var auxSigned := ToInt16(SignExtend(auxRaw, 16));
      if auxType == AuxTemperature then auxSigned - KelvinOffset
      else if auxType == AuxVoltage || auxType == AuxMidPoint then auxSigned
      else 0
    else 0
  }

  /** Time-to-go in minutes; 0 (the default) for the sentinel. */
  function TtgMinutes(d: seq<byte>): uint16
    requires |d| >= LayoutBytes
  {
    Pow2Values();
    var raw := Raw(d, TtgField);
    if raw != TtgNotAvailable then raw else 0
  }

  /** Battery voltage in 0.01 V through `int16_t`; 0 for the sentinel. */
  function Voltage(d: seq<byte>): int
    requires |d| >= LayoutBytes
  {
    Pow2Values();
    var raw := Raw(d, VoltageField);
    if raw != VoltageNotAvailable then ToInt16(SignExtend(raw, 16)) else 0
  }

  function Alarms(d: seq<byte>): uint16
    requires |d| >= LayoutBytes
  {
    Pow2Values();
    Raw(d, AlarmField)
  }

  function AuxType(d: seq<byte>): (t: byte)
    requires |d| >= LayoutBytes
    ensures t < 4
  {
    Pow2Values();
    Raw(d, AuxTypeField)
  }

  function Aux(d: seq<byte>): int
    requires |d| >= LayoutBytes
  {
    Pow2Values();
    AuxValue(Raw(d, AuxField), AuxType(d))
  }

  /** Battery current in 0.001 A; 0 for the sentinel. */
  function Current(d: seq<byte>): int
    requires |d| >= LayoutBytes
  {
    Pow2Values();
    var raw := Raw(d, CurrentField);
    if raw != CurrentNotAvailable then SignExtend(raw, 22) else 0
  }

  /** Power, computed only when current is available and voltage is not 0. */
  function Power(d: seq<byte>): int
    requires |d| >= LayoutBytes
  {
    if Raw(d, CurrentField) != CurrentNotAvailable && Voltage(d) != 0 then Voltage(d) * Current(d) else 0
  }

  /** Consumed Ah in 0.1 Ah, the negated record value; only for long frames. */
  function ConsumedAh(d: seq<byte>, len: nat): int
    requires |d| >= LayoutBytes
  {
    Pow2Values();
    var raw := Raw(d, ConsumedField);
    if len >= ExtendedFrameLength && raw != ConsumedNotAvailable then -SignExtend(raw, 20) else 0
  }

  /** State of charge in 0.1 %; only for long frames. */
  function Soc(d: seq<byte>, len: nat): nat
    requires |d| >= LayoutBytes
  {
    var raw := Raw(d, SocField);
    if len >= ExtendedFrameLength && raw != SocNotAvailable then raw else 0
  }

  /** The record parseSmartShuntData builds from the buffer `d` for a frame of `len`
      bytes (None: the frame is too short and nothing is produced). */
  function Decode(d: seq<byte>, len: nat, rssi: int8): Option<BatteryData>
    requires |d| >= LayoutBytes
  {
    if len < 8 then None
    else
      Some(DefaultBatteryData.(
        rssi := rssi,
        dataValid := true,
        ttgMinutes := TtgMinutes(d),
        voltage := Voltage(d),
        alarms := Alarms(d),
        auxType := AuxType(d),
        auxValue := Aux(d),
        current := Current(d),
        power := Power(d),
        consumedAh := ConsumedAh(d, len),
        soc := Soc(d, len)))
  }

  /** Two's-complement reading of a 16-bit value. */
  function Signed16(v: uint16): int
  {
    if v < 0x8000 then v else v - 0x1_0000
  }

  /** The fields are contiguous and non-overlapping, start at bit 0 and end at bit 118,
      so every bit read lies in bytes 0-14, inside the 64-byte buffer. */
  lemma LayoutContiguous()
    ensures Layout[0].start == 0
    ensures forall i :: 0 <= i < |Layout| - 1 ==> Layout[i].start + Layout[i].width == Layout[i + 1].start
    ensures Layout[|Layout| - 1].start + Layout[|Layout| - 1].width == 118
    ensures forall i :: 0 <= i < |Layout| ==> Layout[i].start + Layout[i].width <= 8 * LayoutBytes
    ensures 8 * (LayoutBytes - 1) < 118 && LayoutBytes <= DecryptBufferSize
  {
  }

  /** A record is produced exactly for frames of at least 8 bytes; it is marked valid,
      carries the signal strength, and the fields nothing computes keep their defaults. */
  lemma DecodeRecord(d: seq<byte>, len: nat, rssi: int8)
    requires |d| >= LayoutBytes
    ensures Decode(d, len, rssi).Some? <==> len >= 8
    ensures len >= 8 ==> var r := Decode(d, len, rssi).value;
      r.dataValid && r.rssi == rssi && r.lastUpdate == 0 && r.calculatedTimeRemainingMinutes == 0
      && r.calculatedTimeToFullMinutes == 0 && !r.timeCalculationValid
  {
  }

  /** Time-to-go, voltage and alarms are the little-endian words at bytes 0-1, 2-3 and
      4-5: the sentinels 0xFFFF and 0x7FFF leave their field at 0, voltage is signed,
      and alarms are copied whatever their value. */
  lemma DecodeWords(d: seq<byte>, len: nat, rssi: int8)
    requires |d| >= LayoutBytes && len >= 8
    ensures var r := Decode(d, len, rssi).value;
      var ttg, v := Le16(d[0], d[1]), Le16(d[2], d[3]);
      && r.ttgMinutes == (if ttg == 0xFFFF then 0 else ttg)
      && r.voltage == (if v == 0x7FFF then 0 else Signed16(v))
      && r.alarms == Le16(d[4], d[5])
  {
    TtgWord(d);
    VoltageWord(d);
    AlarmWord(d);
  }

  lemma TtgWord(d: seq<byte>)
    requires |d| >= LayoutBytes
    ensures TtgMinutes(d) == if Le16(d[0], d[1]) == 0xFFFF then 0 else Le16(d[0], d[1])
  {
    FieldValueLe16(d, 0, 0);
  }

  lemma VoltageWord(d: seq<byte>)
    requires |d| >= LayoutBytes
    ensures Voltage(d) == if Le16(d[2], d[3]) == 0x7FFF then 0 else Signed16(Le16(d[2], d[3]))
  {
    var v := Le16(d[2], d[3]);
    FieldValueLe16(d, 2, 16);
    Pow2Values();
    SignExtendValue(v, 16);
    assert v != 0x7FFF ==> SignExtend(v, 16) == Signed16(v);
  }

  lemma AlarmWord(d: seq<byte>)
    requires |d| >= LayoutBytes
    ensures Alarms(d) == Le16(d[4], d[5])
  {
    FieldValueLe16(d, 4, 32);
  }

  /** The aux type is the low two bits of byte 8 and is always stored; the aux value
      is the signed word at bytes 6-7, stored only when it is not 0x7FFF and the type is
      not reserved, and shifted by -273.15 degC for a temperature. */
  lemma DecodeAux(d: seq<byte>, len: nat, rssi: int8)
    requires |d| >= LayoutBytes && len >= 8
    ensures var r := Decode(d, len, rssi).value;
      var a := Le16(d[6], d[7]);
      && r.auxType == d[8] % 4
      && r.auxValue == (if a == 0x7FFF || r.auxType == AuxReserved then 0
                        else if r.auxType == AuxTemperature then Signed16(a) - KelvinOffset
                        else Signed16(a))
  {
    AuxWord(d);
  }

  lemma AuxWord(d: seq<byte>)
    requires |d| >= LayoutBytes
    ensures AuxType(d) == d[8] % 4
    ensures var a := Le16(d[6], d[7]);
      Aux(d) == if a == 0x7FFF || AuxType(d) == AuxReserved then 0
                else if AuxType(d) == AuxTemperature then Signed16(a) - KelvinOffset
                else Signed16(a)
  {
    Pow2Values();
    FieldValueLe16(d, 6, 48);
    FieldValueWithinByte(d, 8, 0, 2, 64);
    ShrModNumerals(d[8], 0, 2, 1, 4);
    SignExtendValue(Le16(d[6], d[7]), 16);
  }

  /** Current is the signed 22-bit value of the top six bits of byte 8 and bytes 9-10,
      0 for the sentinel 0x3FFFFF. */
  lemma DecodeCurrent(d: seq<byte>, len: nat, rssi: int8)
    requires |d| >= LayoutBytes && len >= 8
    ensures var r := Decode(d, len, rssi).value;
      var c := d[8] / 4 + 64 * Le16(d[9], d[10]);
      && c < 0x40_0000
      && r.current == (if c == 0x3F_FFFF then 0 else if c < 0x20_0000 then c else c - 0x40_0000)
  {
    CurrentBits(d);
  }

  lemma CurrentBits(d: seq<byte>)
    requires |d| >= LayoutBytes
    ensures var c := d[8] / 4 + 64 * Le16(d[9], d[10]);
      && c == Raw(d, CurrentField)
      && Current(d) == (if c == 0x3F_FFFF then 0 else if c < 0x20_0000 then c else c - 0x40_0000)
  {
    var c := d[8] / 4 + 64 * Le16(d[9], d[10]);
    CurrentRaw(d);
    Pow2Values();
    SignExtendValue(c, 22);
  }

  lemma CurrentRaw(d: seq<byte>)
    requires |d| >= LayoutBytes
    ensures FieldValue(d, 66, 22) == d[8] / 4 + 64 * Le16(d[9], d[10])
  {
    CurrentSplit(d);
    CurrentLowBits(d);
    FieldValueLe16(d, 9, 72);
  }

  lemma CurrentSplit(d: seq<byte>)
    requires |d| >= LayoutBytes
    ensures FieldValue(d, 66, 22) == FieldValue(d, 66, 6) + 64 * FieldValue(d, 72, 16)
  {
    FieldValueSplit(d, 66, 6, 16, 22, 72);
    Pow2Small();
  }

  lemma CurrentLowBits(d: seq<byte>)
    requires |d| >= LayoutBytes
    ensures FieldValue(d, 66, 6) == d[8] / 4
  {
    FieldValueWithinByte(d, 8, 2, 6, 66);
    Pow2Small();
    ShrModNumerals(d[8], 2, 6, 4, 64);
    assert (d[8] / 4) % 64 == d[8] / 4;
  }

  /** Consumed Ah (20 bits from byte 11: bytes 11-12 and the low nibble of byte 13,
      stored negated) and SOC (10 bits: the high nibble of byte 13 and the low six
      bits of byte 14) are stored only for frames of at least 16 bytes, and only when
      not 0xFFFFF and 0x3FF respectively. */
  lemma DecodeExtended(d: seq<byte>, len: nat, rssi: int8)
    requires |d| >= LayoutBytes && len >= 8
    ensures var r := Decode(d, len, rssi).value;
      var c := Le16(d[11], d[12]) + 0x1_0000 * (d[13] as int % 16);
      var s := d[13] as int / 16 + 16 * (d[14] as int % 64);
      && r.consumedAh == (if len < 16 || c == 0xF_FFFF then 0 else if c < 0x8_0000 then -c else 0x10_0000 - c)
      && r.soc == (if len < 16 || s == 0x3FF then 0 else s)
  {
    ConsumedBits(d, len);
    SocBits(d, len);
  }

  lemma ConsumedBits(d: seq<byte>, len: nat)
    requires |d| >= LayoutBytes
    ensures var c := Le16(d[11], d[12]) + 0x1_0000 * (d[13] as int % 16);
      ConsumedAh(d, len) == if len < 16 || c == 0xF_FFFF then 0 else if c < 0x8_0000 then -c else 0x10_0000 - c
  {
    var c := Le16(d[11], d[12]) + 0x1_0000 * (d[13] as int % 16);
    ConsumedRaw(d);
    Pow2Values();
    SignExtendValue(c, 20);
  }

  lemma ConsumedRaw(d: seq<byte>)
    requires |d| >= LayoutBytes
    ensures FieldValue(d, 88, 20) == Le16(d[11], d[12]) + 0x1_0000 * (d[13] as int % 16)
  {
    ConsumedSplit(d);
    FieldValueLe16(d, 11, 88);
    ConsumedHighNibble(d);
  }

  lemma ConsumedSplit(d: seq<byte>)
    requires |d| >= LayoutBytes
    ensures FieldValue(d, 88, 20) == FieldValue(d, 88, 16) + 0x1_0000 * FieldValue(d, 104, 4)
  {
    FieldValueSplit(d, 88, 16, 4, 20, 104);
    Pow2Values();
  }

  /** The top four bits of Consumed Ah are the low nibble of byte 13. */
  lemma ConsumedHighNibble(d: seq<byte>)
    requires |d| >= LayoutBytes
    ensures FieldValue(d, 104, 4) == d[13] as int % 16
  {
    FieldValueWithinByte(d, 13, 0, 4, 104);
    Pow2Small();
    ShrModNumerals(d[13], 0, 4, 1, 16);
  }

  lemma SocBits(d: seq<byte>, len: nat)
    requires |d| >= LayoutBytes
    ensures var s := d[13] as int / 16 + 16 * (d[14] as int % 64);
      Soc(d, len) == if len < 16 || s == 0x3FF then 0 else s
  {
    SocRaw(d);
  }

  lemma SocRaw(d: seq<byte>)
    requires |d| >= LayoutBytes
    ensures FieldValue(d, 108, 10) == d[13] as int / 16 + 16 * (d[14] as int % 64)
  {
    SocSplit(d);
    SocHighNibble(d);
    SocLowSix(d);
  }

  lemma SocSplit(d: seq<byte>)
    requires |d| >= LayoutBytes
    ensures FieldValue(d, 108, 10) == FieldValue(d, 108, 4) + 16 * FieldValue(d, 112, 6)
  {
    FieldValueSplit(d, 108, 4, 6, 10, 112);
    Pow2Small();
  }

  lemma SocHighNibble(d: seq<byte>)
    requires |d| >= LayoutBytes
    ensures FieldValue(d, 108, 4) == d[13] as int / 16
  {
    FieldValueWithinByte(d, 13, 4, 4, 108);
    Pow2Small();
    ShrModNumerals(d[13], 4, 4, 16, 16);
    assert (d[13] / 16) % 16 == d[13] / 16;
  }

  lemma SocLowSix(d: seq<byte>)
    requires |d| >= LayoutBytes
    ensures FieldValue(d, 112, 6) == d[14] as int % 64
  {
    FieldValueWithinByte(d, 14, 0, 6, 112);
    Pow2Small();
    ShrModNumerals(d[14], 0, 6, 1, 64);
  }

  /** The stored power is always voltage times current: it is left at 0 exactly when
      current is unavailable or voltage is 0, where the product is 0 as well. */
  lemma PowerIsProduct(d: seq<byte>, len: nat, rssi: int8)
    requires |d| >= LayoutBytes && len >= 8
    ensures var r := Decode(d, len, rssi).value;
      && r.power == r.voltage * r.current
      && (r.power != 0 ==> Raw(d, CurrentField) != CurrentNotAvailable && r.voltage != 0)
  {
  }

  /** The frame length decides only Consumed Ah and SOC: two frames of at least 8
      bytes decode the same buffer to records that differ in at most those fields,
      which stay 0 below 16 bytes. */
  lemma LengthGate(d: seq<byte>, len1: nat, len2: nat, rssi: int8)
    requires |d| >= LayoutBytes && len1 >= 8 && len2 >= 8
    ensures Decode(d, len1, rssi).value.(consumedAh := 0, soc := 0) == Decode(d, len2, rssi).value.(consumedAh := 0, soc := 0)
    ensures len1 < ExtendedFrameLength ==> Decode(d, len1, rssi).value.consumedAh == 0 && Decode(d, len1, rssi).value.soc == 0
    ensures (len1 >= ExtendedFrameLength) == (len2 >= ExtendedFrameLength) ==> Decode(d, len1, rssi) == Decode(d, len2, rssi)
  {
  }

  /** Only bytes 0-14 of the buffer are read, and only bytes 0-10 for a frame shorter
      than 16 bytes. */
  lemma DecodeReads(d1: seq<byte>, d2: seq<byte>, len: nat, rssi: int8)
    requires |d1| >= LayoutBytes && |d2| >= LayoutBytes
    requires d1[..11] == d2[..11]
    requires len >= ExtendedFrameLength ==> d1[11..LayoutBytes] == d2[11..LayoutBytes]
    ensures Decode(d1, len, rssi) == Decode(d2, len, rssi)
  {
    PrefixAgrees(d1, d2, 11);
    RawReads(d1, d2, TtgField, 11);
    RawReads(d1, d2, VoltageField, 11);
    RawReads(d1, d2, AlarmField, 11);
    RawReads(d1, d2, AuxField, 11);
    RawReads(d1, d2, AuxTypeField, 11);
    RawReads(d1, d2, CurrentField, 11);
    assert Voltage(d1) == Voltage(d2) && Current(d1) == Current(d2);
    assert Power(d1) == Power(d2);
    if len >= ExtendedFrameLength {
      assert d1[..LayoutBytes] == d1[..11] + d1[11..LayoutBytes];
      assert d2[..LayoutBytes] == d2[..11] + d2[11..LayoutBytes];
      PrefixAgrees(d1, d2, LayoutBytes);
      RawReads(d1, d2, ConsumedField, LayoutBytes);
      RawReads(d1, d2, SocField, LayoutBytes);
    }
    assert ConsumedAh(d1, len) == ConsumedAh(d2, len) && Soc(d1, len) == Soc(d2, len);
  }

  lemma PrefixAgrees(d1: seq<byte>, d2: seq<byte>, n: nat)
    requires n <= |d1| && n <= |d2| && d1[..n] == d2[..n]
    ensures forall k :: 0 <= k < n ==> d1[k] == d2[k]
  {
    forall k | 0 <= k < n ensures d1[k] == d2[k] {
      assert d1[..n][k] == d2[..n][k];
    }
  }

  lemma RawReads(d1: seq<byte>, d2: seq<byte>, f: Field, n: nat)
    requires f.width > 0 && f.start + f.width <= 8 * n && n <= |d1| && n <= |d2|
    requires forall k :: 0 <= k < n ==> d1[k] == d2[k]
    ensures Raw(d1, f) == Raw(d2, f)
  {
    FieldValueReads(d1, d2, f.start, f.width);
  }

  /** For a 16-byte frame only the first 8 buffer bytes are decrypted, yet SOC is read
      from bytes 13-14: two buffers agreeing on their decrypted part can decode to
      different SOC values. */
  lemma StaleSocExample()
    ensures var d1 := seq(DecryptBufferSize, i => 0);
      var d2 := d1[14 := 1];
      && d1[..16 - 8] == d2[..16 - 8]
      && Decode(d1, 16, 0).value.soc == 0
      && Decode(d2, 16, 0).value.soc == 16
  {
    var d1 := seq(DecryptBufferSize, i => 0);
    var d2 := d1[14 := 1];
    assert d1[13] == 0 && d1[14] == 0 && d2[13] == 0 && d2[14] == 1;
    SocBits(d1, 16);
    SocBits(d2, 16);
  }
}
