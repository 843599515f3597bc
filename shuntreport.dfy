/** What the older free-function `parseSmartShuntData` of src/main.cpp:150-322 prints
    for a decrypted battery-monitor record: every line it writes, as a value, with
    "N/A" for a sentinel and the lines it skips left out. */
module ShuntReport {
  import opened Bytes
  import opened BitFields
  import opened Wrappers
  import opened SmartShunt

  /** A printed value, or "N/A". */
  datatype Reading<T> = NotAvailable | Value(value: T)

  /** The ten alarm bits of the record, in bit order 0x0001 .. 0x0200. */
  datatype AlarmReason =
    | LowVoltage | HighVoltage | LowSoc | LowTemperature | HighTemperature
    | MidVoltage | Overload | DcRipple | LowVAcOut | HighVAcOut

  const AlarmReasons := [LowVoltage, HighVoltage, LowSoc, LowTemperature, HighTemperature,
                         MidVoltage, Overload, DcRipple, LowVAcOut, HighVAcOut]

  /** The bit that reports an alarm reason. */
  function ReasonBit(r: AlarmReason): (k: nat)
    ensures k < |AlarmReasons| && AlarmReasons[k] == r
  {
    match r
    case LowVoltage => 0
    case HighVoltage => 1
    case LowSoc => 2
    case LowTemperature => 3
    case HighTemperature => 4
    case MidVoltage => 5
    case Overload => 6
    case DcRipple => 7
    case LowVAcOut => 8
    case HighVAcOut => 9
  }

  /** The bracketed text printed for an alarm reason: never empty, and free of the
      brackets around it. */
  function ReasonText(r: AlarmReason): (t: string)
    ensures |t| > 0 && '[' !in t && ']' !in t
  {
    match r
    case LowVoltage => "Low Voltage"
    case HighVoltage => "High Voltage"
    case LowSoc => "Low SOC"
    case LowTemperature => "Low Temperature"
    case HighTemperature => "High Temperature"
    case MidVoltage => "Mid Voltage"
    case Overload => "Overload"
    case DcRipple => "DC-ripple"
    case LowVAcOut => "Low V AC out"
    case HighVAcOut => "High V AC out"
  }

  /** The alarm line after the raw value: " [text]" for each reason, in order. */
  function AlarmText(labels: seq<AlarmReason>): string
  {
    if labels == [] then "" else " [" + ReasonText(labels[0]) + "]" + AlarmText(labels[1..])
  }

  /** The reasons printed for bits k .. 9 of `alarms`, in bit order. */
  function AlarmLabelsFrom(alarms: nat, k: nat): seq<AlarmReason>
    requires k <= |AlarmReasons|
    decreases |AlarmReasons| - k
  {
    if k == |AlarmReasons| then []
    else (if BitOf(alarms, k) == 1 then [AlarmReasons[k]] else []) + AlarmLabelsFrom(alarms, k + 1)
  }

  /** Names indexed by the 2-bit aux input type. */
  const AuxTypeNames := ["Voltage", "Reserved", "Temperature", "Mid-point"]

  /** The value printed after the aux type name. The mid-point deviation, printed
      when the battery voltage is available, is mid - V / 2 in units of 0.005 V. */
  datatype AuxReading =
    | NoAuxValue
    | AuxVolts(centivolts: int)
    | AuxCelsius(centidegrees: int)
    | MidPoint(centivolts: int, deviation: Option<int>)

  datatype Sign = Positive | Negative | Zero

  /** The current line: the current, "(Charging)"/"(Discharging)", and the power in
      0.00001 W when the voltage is not 0. */
  datatype CurrentLine = CurrentLine(milliamps: int, direction: Sign, power: Option<int>)

  /** The Consumed Ah line: the value in 0.1 Ah and "(Net consumed ...)"/"(Net charged ...)". */
  datatype ConsumedLine = ConsumedLine(deciAh: int, trend: Sign)

  datatype Report = Report(
    ttgMinutes: Reading<nat>,
    voltage: Reading<int>,
    alarms: Option<(uint16, seq<AlarmReason>)>,   // printed only when some alarm bit is set
    auxName: string,
    aux: AuxReading,
    current: Reading<CurrentLine>,
    consumed: Option<Reading<ConsumedLine>>,     // None: the line is not printed (short frame)
    soc: Option<Reading<nat>>)

  function SignOf(x: int): Sign
  {
    if x > 0 then Positive else if x < 0 then Negative else Zero
  }

  /** The report for buffer `d` of a frame of `len` bytes; None is the "Payload too short"
      message. */
  function MainParse(d: seq<byte>, len: nat): Option<Report>
    requires |d| >= LayoutBytes
  {
    if len < 8 then None
    else
      Pow2Values();
      var ttgRaw := Raw(d, TtgField);
      var voltageRaw := Raw(d, VoltageField);
      var alarmRaw := Raw(d, AlarmField);
      var auxRaw := Raw(d, AuxField);
      var auxInput := Raw(d, AuxTypeField);
      var currentRaw := Raw(d, CurrentField);
      Some(Report(
        if ttgRaw != 0xFFFF then Value(ttgRaw) else NotAvailable,
        if voltageRaw != 0x7FFF then Value(ToInt16(SignExtend(voltageRaw, 16))) else NotAvailable,
        if alarmRaw != 0 then Some((alarmRaw, AlarmLabelsFrom(alarmRaw, 0))) else None,
        AuxTypeNames[auxInput],
        MainAux(auxRaw, auxInput, voltageRaw),
        MainCurrent(currentRaw, voltageRaw),
        if len >= 16 then Some(MainConsumed(Raw(d, ConsumedField))) else None,
        if len >= 16 then Some(var socRaw := Raw(d, SocField); if socRaw != 0x3FF then Value(socRaw) else NotAvailable) else None))
  }

  function MainAux(auxRaw: uint32, auxInput: nat, voltageRaw: uint32): AuxReading
  {
    if auxRaw != 0x7FFF && auxInput != 1 then
      var auxSigned := ToInt16(SignExtend(auxRaw, 16));
      if auxInput == 0 then AuxVolts(auxSigned)
      else if auxInput == 2 then AuxCelsius(auxSigned - 27315)
      else if auxInput == 3 then
        MidPoint(auxSigned, if voltageRaw != 0x7FFF then Some(2 * auxSigned - ToInt16(SignExtend(voltageRaw, 16))) else None)
      else NoAuxValue
    else NoAuxValue
  }

  function MainCurrent(currentRaw: uint32, voltageRaw: uint32): Reading<CurrentLine>
  {
    if currentRaw != 0x3F_FFFF then
      var currentSigned := SignExtend(currentRaw, 22);
      var voltage := if voltageRaw != 0x7FFF then ToInt16(SignExtend(voltageRaw, 16)) else 0;
      Value(CurrentLine(currentSigned, SignOf(currentSigned), if voltage != 0 then Some(voltage * currentSigned) else None))
    else NotAvailable
  }

  function MainConsumed(consumedRaw: uint32): Reading<ConsumedLine>
  {
    if consumedRaw != 0xF_FFFF then
      var consumedAh := -(SignExtend(consumedRaw, 20) as int);
      Value(ConsumedLine(consumedAh, SignOf(consumedAh)))
    else NotAvailable
  }

  /** The number a printed aux reading shows (0 when none is printed). */
  function AuxShown(a: AuxReading): int
  {
    match a
    case NoAuxValue => 0
    case AuxVolts(v) => v
    case AuxCelsius(t) => t
    case MidPoint(v, _) => v
  }

  /** Reason r is printed exactly when its bit k >= `from` is set. */
  lemma {:induction false} AlarmLabelsFromMembers(alarms: nat, from: nat)
    requires from <= |AlarmReasons|
    ensures forall r :: r in AlarmLabelsFrom(alarms, from) <==> from <= ReasonBit(r) && BitOf(alarms, ReasonBit(r)) == 1
    decreases |AlarmReasons| - from
  {
    if from < |AlarmReasons| {
      var next := from + 1;
      AlarmLabelsFromMembers(alarms, next);
      AlarmLabelsFromUnfold(alarms, from, next);
      ReasonBitOfIndex(from);
      var rest := AlarmLabelsFrom(alarms, next);
      var head := if BitOf(alarms, from) == 1 then [AlarmReasons[from]] else [];
      forall r ensures r in head + rest <==> from <= ReasonBit(r) && BitOf(alarms, ReasonBit(r)) == 1 {
        if ReasonBit(r) == from {
          assert r == AlarmReasons[from];
          assert r !in rest;
        } else {
          assert r !in head;
        }
      }
    }
  }

  /** One step of AlarmLabelsFrom, with next = from + 1. */
  lemma AlarmLabelsFromUnfold(alarms: nat, from: nat, next: nat)
    requires from < |AlarmReasons| && next == from + 1
    ensures AlarmLabelsFrom(alarms, from) ==
      (if BitOf(alarms, from) == 1 then [AlarmReasons[from]] else []) + AlarmLabelsFrom(alarms, next)
  {
  }

  /** Each listed reason reports its own position. */
  lemma ReasonBitOfIndex(k: nat)
    requires k < |AlarmReasons|
    ensures ReasonBit(AlarmReasons[k]) == k
  {
  }

  /** Every reason in s has its bit at `from` or above. */
  ghost predicate BitsFrom(s: seq<AlarmReason>, from: nat)
  {
    forall i :: 0 <= i < |s| ==> from <= ReasonBit(s[i])
  }

  /** The reasons in s come in strictly increasing bit order. */
  ghost predicate BitsIncreasing(s: seq<AlarmReason>)
  {
    forall i, j :: 0 <= i < j < |s| ==> ReasonBit(s[i]) < ReasonBit(s[j])
  }

  /** The reasons come out in increasing bit order. */
  lemma {:induction false} AlarmLabelsFromOrdered(alarms: nat, from: nat)
    requires from <= |AlarmReasons|
    ensures BitsFrom(AlarmLabelsFrom(alarms, from), from)
    ensures BitsIncreasing(AlarmLabelsFrom(alarms, from))
    decreases |AlarmReasons| - from
  {
    if from < |AlarmReasons| {
      var next := from + 1;
      AlarmLabelsFromOrdered(alarms, next);
      AlarmLabelsFromUnfold(alarms, from, next);
      ReasonBitOfIndex(from);
      var rest := AlarmLabelsFrom(alarms, next);
      var all := AlarmLabelsFrom(alarms, from);
      if BitOf(alarms, from) == 1 {
        OrderedCons(AlarmReasons[from], rest, from, next, all);
      } else {
        BitsFromWeaker(rest, from, next);
      }
    }
  }

  lemma BitsFromWeaker(s: seq<AlarmReason>, from: nat, next: nat)
    requires from <= next && BitsFrom(s, next)
    ensures BitsFrom(s, from)
  {
  }

  lemma OrderedCons(h: AlarmReason, rest: seq<AlarmReason>, from: nat, next: nat, all: seq<AlarmReason>)
    requires ReasonBit(h) == from && next == from + 1 && all == [h] + rest
    requires BitsFrom(rest, next) && BitsIncreasing(rest)
    ensures BitsFrom(all, from) && BitsIncreasing(all)
  {
    assert forall i :: 1 <= i < |all| ==> all[i] == rest[i - 1];
  }

  /** The alarm line lists exactly the reasons whose bit is set, in bit order. */
  lemma AlarmLabels(alarms: nat)
    ensures forall r :: r in AlarmLabelsFrom(alarms, 0) <==> BitOf(alarms, ReasonBit(r)) == 1
    ensures forall i, j :: 0 <= i < j < |AlarmLabelsFrom(alarms, 0)| ==>
      ReasonBit(AlarmLabelsFrom(alarms, 0)[i]) < ReasonBit(AlarmLabelsFrom(alarms, 0)[j])
  {
    AlarmLabelsFromMembers(alarms, 0);
    AlarmLabelsFromOrdered(alarms, 0);
    assert BitsIncreasing(AlarmLabelsFrom(alarms, 0));
  }

  /** No two alarm bits print the same text, so the printed line names each set bit
      unambiguously. */
  lemma ReasonTextInjective(a: AlarmReason, b: AlarmReason)
    ensures ReasonText(a) == ReasonText(b) <==> a == b
  {
    if a != b {
      assert |ReasonText(a)| != |ReasonText(b)| || ReasonText(a)[0] != ReasonText(b)[0];
    }
  }

  /** The alarm line is " [" + text + "]" for every printed reason, in order: one
      bracketed group per reason, and its texts follow one another. */
  lemma {:induction false} AlarmTextParts(labels: seq<AlarmReason>, i: nat)
    requires i < |labels|
    ensures AlarmText(labels) == AlarmText(labels[..i]) + " [" + ReasonText(labels[i]) + "]" + AlarmText(labels[i + 1..])
    decreases i
  {
    if i > 0 {
      var tail := labels[1..];
      var j := i - 1;
      AlarmTextParts(tail, j);
      assert tail[..j] == labels[1..i];
      assert tail[j] == labels[i];
      assert tail[j + 1..] == labels[i + 1..];
      assert labels[..i] == [labels[0]] + labels[1..i];
      assert AlarmText(labels[..i]) == " [" + ReasonText(labels[0]) + "]" + AlarmText(labels[1..i]);
    } else {
      assert labels[..0] == [];
      assert labels[1..] == labels[i + 1..];
    }
  }

  /** The printout and the class version's BatteryData agree: every printed value is
      the stored field, every "N/A" or missing value is a field left at 0, the power is
      printed exactly when it is computed, and the long-frame lines appear exactly for
      frames of at least 16 bytes. */
  lemma MainParseAgrees(d: seq<byte>, len: nat, rssi: int8)
    requires |d| >= LayoutBytes
    ensures MainParse(d, len).Some? <==> Decode(d, len, rssi).Some?
    ensures len >= 8 ==>
      var p, r := MainParse(d, len).value, Decode(d, len, rssi).value;
      && (p.ttgMinutes == if Raw(d, TtgField) == TtgNotAvailable then NotAvailable else Value(r.ttgMinutes))
      && (p.voltage == if Raw(d, VoltageField) == VoltageNotAvailable then NotAvailable else Value(r.voltage))
      && (p.voltage.NotAvailable? ==> r.voltage == 0)
      && (p.alarms.Some? <==> r.alarms != 0)
      && (p.alarms.Some? ==> p.alarms.value.0 == r.alarms)
      && p.auxName == AuxTypeNames[r.auxType]
      && AuxShown(p.aux) == r.auxValue
      && (p.current == NotAvailable <==> Raw(d, CurrentField) == CurrentNotAvailable)
      && (p.current.NotAvailable? ==> r.current == 0 && r.power == 0)
      && (p.current.Value? ==>
            && p.current.value.milliamps == r.current
            && p.current.value.direction == SignOf(r.current)
            && (p.current.value.power.Some? <==> r.voltage != 0)
            && (p.current.value.power.Some? ==> p.current.value.power.value == r.power))
      && (p.consumed.Some? <==> len >= ExtendedFrameLength)
      && (p.soc.Some? <==> len >= ExtendedFrameLength)
      && (p.consumed.Some? && p.consumed.value.Value? ==> p.consumed.value.value.deciAh == r.consumedAh)
      && (p.consumed.Some? && p.consumed.value.NotAvailable? ==> r.consumedAh == 0)
      && (p.soc.Some? && p.soc.value.Value? ==> p.soc.value.value == r.soc)
      && (p.soc.Some? && p.soc.value.NotAvailable? ==> r.soc == 0)
  {
    if len >= 8 {
      var p, r := MainParse(d, len).value, Decode(d, len, rssi).value;
      WordsAgree(d, len, rssi, p, r);
      CurrentAgrees(d, len, rssi, p, r);
      ExtendedAgrees(d, len, rssi, p, r);
    }
  }

  /** The TTG, voltage, alarm and aux lines of MainParseAgrees. */
  lemma WordsAgree(d: seq<byte>, len: nat, rssi: int8, p: Report, r: BatteryData)
    requires |d| >= LayoutBytes && len >= 8
    requires p == MainParse(d, len).value && r == Decode(d, len, rssi).value
    ensures p.ttgMinutes == if Raw(d, TtgField) == TtgNotAvailable then NotAvailable else Value(r.ttgMinutes)
    ensures p.voltage == if Raw(d, VoltageField) == VoltageNotAvailable then NotAvailable else Value(r.voltage)
    ensures p.voltage.NotAvailable? ==> r.voltage == 0
    ensures p.alarms.Some? <==> r.alarms != 0
    ensures p.alarms.Some? ==> p.alarms.value.0 == r.alarms
    ensures p.auxName == AuxTypeNames[r.auxType]
    ensures AuxShown(p.aux) == r.auxValue
  {
  }

  /** The current and power line of MainParseAgrees. */
  lemma CurrentAgrees(d: seq<byte>, len: nat, rssi: int8, p: Report, r: BatteryData)
    requires |d| >= LayoutBytes && len >= 8
    requires p == MainParse(d, len).value && r == Decode(d, len, rssi).value
    ensures p.current == NotAvailable <==> Raw(d, CurrentField) == CurrentNotAvailable
    ensures p.current.NotAvailable? ==> r.current == 0 && r.power == 0
    ensures p.current.Value? ==>
      && p.current.value.milliamps == r.current
      && p.current.value.direction == SignOf(r.current)
      && (p.current.value.power.Some? <==> r.voltage != 0)
      && (p.current.value.power.Some? ==> p.current.value.power.value == r.power)
  {
  }

  /** The Consumed Ah and SOC lines of MainParseAgrees. */
  lemma ExtendedAgrees(d: seq<byte>, len: nat, rssi: int8, p: Report, r: BatteryData)
    requires |d| >= LayoutBytes && len >= 8
    requires p == MainParse(d, len).value && r == Decode(d, len, rssi).value
    ensures p.consumed.Some? <==> len >= ExtendedFrameLength
    ensures p.soc.Some? <==> len >= ExtendedFrameLength
    ensures p.consumed.Some? && p.consumed.value.Value? ==> p.consumed.value.value.deciAh == r.consumedAh
    ensures p.consumed.Some? && p.consumed.value.NotAvailable? ==> r.consumedAh == 0
    ensures p.soc.Some? && p.soc.value.Value? ==> p.soc.value.value == r.soc
    ensures p.soc.Some? && p.soc.value.NotAvailable? ==> r.soc == 0
  {
  }

  /** The mid-point deviation is the aux reading minus half the battery voltage. */
  lemma MidPointDeviation(d: seq<byte>, len: nat, rssi: int8)
    requires |d| >= LayoutBytes && len >= 8
    ensures var p, r := MainParse(d, len).value, Decode(d, len, rssi).value;
      p.aux.MidPoint? ==>
        && r.auxType == AuxMidPoint
        && (p.aux.deviation.Some? <==> Raw(d, VoltageField) != VoltageNotAvailable)
        && (p.aux.deviation.Some? ==> p.aux.deviation.value == 2 * r.auxValue - r.voltage)
  {
  }
}
