# Victron instant-readout decoder and configuration portal, in Dafny

This project models the part of a battery-gauge firmware that turns encrypted
Victron Bluetooth advertisements into battery readings. It also models the
configuration portal that stores the device's MAC address and key.

## What is modelled

- **The instant-readout frame** (`frame.dfy`, `aesctr.dfy`).
  - A frame is the advertisement's manufacturer data after its 2-byte
    manufacturer id `0x02E1`.
  - Its 8-byte header is in clear: record tag `0x10`, model id, readout type,
    record type, a little-endian nonce at bytes 5-6, and a key-check byte at
    byte 7 that must equal `key[0]`.
  - Bytes 8 onward are AES-128 in counter mode (section 6.5 of NIST SP 800-38A).
    The initial counter block is the nonce, low byte first, then fourteen zero
    bytes. It is incremented with the big-endian function of Appendix B.1.
  - The AES block function (FIPS 197) is a function-typed parameter.
    `mbedtls_aes_crypt_ctr` is modelled by its byte loop over a stream block and
    a counter. That loop is proved equal to the textbook block-wise definition,
    and to be its own inverse.
- **Bit fields** (`bitfields.dfy`).
  - `extractBits` is a loop over a little-endian bit stream. It is proved equal
    to the sum of its bits; the result is below 2^n and depends only on the bytes
    it covers.
  - `signExtend` is two's-complement widening.
- **The battery-monitor record** (`smartshunt.dfy`, `victronble.dfy`).
  - The class version (`VictronBLE`) fills a `BatteryData` record field by field.
  - The fields are time-to-go, voltage, alarms, aux value and aux type, current,
    power, consumed Ah and state of charge.
  - Each field has a "not available" sentinel. Consumed Ah and SOC are read only
    for frames of at least 16 bytes.
  - Floats are replaced by exact integers:
    - voltage in 0.01 V;
    - current in 0.001 A;
    - power in 0.00001 W (the product of the two);
    - SOC in 0.1 %;
    - consumed Ah in 0.1 Ah;
    - aux value in 0.01 V or 0.01 degC.
- **The older reader** (`mainreader.dfy`, `shuntreport.dfy`).
  - `src/main.cpp` computes the same fields but only prints them.
  - Its printout is modelled as a `Report` value.
  - A lemma proves that it agrees field by field with the class version's record.
  - A second lemma proves that both readers accept exactly the same
    advertisements.
- **Hex and MAC helpers** (`hexcodec.dfy`).
  - `hexStringToBytes` and its round trips with the `%02X` printout.
  - `macStringToAddress` formatting.
- **Configuration portal** (`configserver.dfy`, `config.dfy`).
  - `ConfigServer` holds the `Preferences` namespace as a string map, the
    current `DeviceConfig`, the config-mode flag and its start time.
  - It covers load, save and reset with fallback to the defaults in
    `src/config.h`.
  - It covers the normalisation and validation of submitted values, and the
    five-minute timeout with `unsigned long` wrap-around.

### Inputs the model takes as parameters

- the advertising device's address, manufacturer data and signal strength;
- the block cipher `aes`;
- the outcome of `mbedtls_aes_setkey_enc` (`keySetupOk`);
- the prior contents `stale` of the uninitialised 64-byte stack buffer;
- the outcomes of `prefs.begin` and `WiFi.softAP`;
- `millis()`, as a 32-bit value `now`.

### Where the code and its description differ, the model follows the code

- The `len >= 16` gate tests the **frame** length, header included, not the
  length of the decrypted data.
  - Only `len - 8` bytes are decrypted into the 64-byte buffer, while the layout
    reads buffer bytes 0-14.
  - So for frames shorter than 23 bytes, some fields are read from bytes
    decryption never wrote.
  - `SmartShunt.StaleSocExample` exhibits this.
  - `VictronBleReader.LongFrameIgnoresStale` proves frames of 23 bytes or more
    are unaffected.
- Power is computed when the current is available and the voltage reading is
  non-zero. A genuine 0.00 V reading therefore also leaves power at 0. Either
  way, power equals voltage times current.
- In `handleSave` the 500 answer cannot happen. Validation already guarantees
  the lengths that `saveConfig` checks. The branch is kept, and the contract
  shows that only 200 and 400 occur.

## Model

| member | source | states |
|---|---|---|
| Bytes.Le16 | src/victron_ble.cpp:53-54 | `lo \| hi << 8` has `lo` as its low byte and `hi` as its high byte |
| Bytes.ToInt8 | src/victron_ble.cpp:65 | the signal strength narrowed to `int8_t` is congruent to it mod 256, and equal to it when it is in range |
| Bytes.ToInt16 | src/victron_ble.cpp:172 | the `int16_t` conversion lands in [-32768, 32768), is congruent mod 2^16, and is the identity when in range |
| Bytes.XorInvolution | src/victron_ble.cpp:124-125 | XOR with the same keystream byte twice gives the byte back |
| BitFields.FieldValue | src/victron_ble.cpp:132-147 | an n-bit field is below 2^n |
| BitFields.ExtractBits | src/victron_ble.cpp:132-147 | the loop returns the sum over i < n of stream bit start + i times 2^i, and the result is below 2^n |
| BitFields.FieldValueSplit | src/victron_ble.cpp:136-144 | an (n + m)-bit field is its low n bits plus 2^n times the next m bits |
| BitFields.FieldValueReads | src/victron_ble.cpp:136-144 | the field depends only on bytes start/8 through (start + n - 1)/8 |
| BitFields.FieldValueLe16 | src/victron_ble.cpp:164-181 | a byte-aligned 16-bit field is the little-endian word of its two bytes |
| BitFields.SignExtendValue | src/victron_ble.cpp:149-154 | for v < 2^b, the result is v when bit b-1 is clear and v - 2^b otherwise, and lies in [-2^(b-1), 2^(b-1)) |
| BitFields.SignExtendEncode | src/victron_ble.cpp:149-154 | sign extension inverts b-bit two's-complement encoding of any value in range |
| BitFields.SignExtendExample | src/victron_ble.cpp:149-154 | signExtend(0x200000, 22) = -2097152 |
| HexCodec.HexStringToBytes | src/victron_ble.cpp:69-75 | writes exactly the bytes i < size with 2i < strlen, each the value of its digit pair, and leaves every other byte as it was |
| HexCodec.HexToBytesCons | src/main.cpp:10-16 | the first byte is 16 times the first digit's value plus the second's, and the rest decodes from the rest of the string |
| HexCodec.FormatThenDecode | src/main.cpp:393-396 | decoding the `%02X` printout of any bytes gives the bytes back |
| HexCodec.DecodeThenFormat | src/main.cpp:390-396 | printing the decoded bytes of an even-length hex string gives the string in upper case |
| HexCodec.KeyPrintout | src/main.cpp:390-396 | a 32-digit key decodes to 16 bytes whose printout is the key in upper case |
| HexCodec.MacStringToAddress | src/main.cpp:19-27 | 17 characters: the 12 input characters in order, with ':' at positions 2, 5, 8, 11 and 14 |
| AesCtr.IncrementValue | src/victron_ble.cpp:124-125 | the big-endian increment adds one modulo 2^(8 * length) |
| AesCtr.CounterBlockValue | src/victron_ble.cpp:124-125 | counter block j is the initial block plus j, modulo 2^128 |
| AesCtr.CtrCryptIsBlockwise | src/victron_ble.cpp:124-125 | the byte-wise transform equals block-wise counter mode, with a partial last block |
| AesCtr.CtrInvolution | src/victron_ble.cpp:124-125 | applying the transform twice with the same key and counter gives the input back |
| AesCtr.StreamStep | src/victron_ble.cpp:116-125 | one byte of the stream loop uses keystream byte i, and the offset, counter and stream block then describe byte i + 1 |
| AesCtr.AesCryptCtr | src/victron_ble.cpp:116-125 | the first input-length output bytes are input XOR keystream, and the rest of the buffer is unchanged |
| VictronFrame.DecryptVictronData | src/victron_ble.cpp:86-130 | succeeds exactly when the frame is accepted and key setup succeeds; then the buffer holds the plaintext followed by its old bytes, and otherwise it is unchanged (src/main.cpp:30-120 is the same code: the same checks in the same order, and a record-type mismatch only warns) |
| VictronFrame.AcceptsExactly | src/victron_ble.cpp:88-101 | a frame of 8 or more bytes is accepted iff its parsed header has tag 0x10 and key-check byte key[0]; no other byte affects the verdict |
| VictronFrame.RecordTypeOnlyWarns | src/main.cpp:48-71 | the record-type warning is raised iff byte 4 is not 0x02, and byte 4 changes neither the verdict nor the decrypted buffer |
| VictronFrame.KeyCheckByteDecides | src/victron_ble.cpp:96-101 | changing byte 7 of an accepted frame away from key[0] gets it rejected |
| VictronFrame.InitialCounterLayout | src/victron_ble.cpp:95-122 | the nonce is d[5] + 256 d[6], and the initial counter block is [d[5], d[6], 0 x 14] |
| VictronFrame.FrameCounterBlocks | src/victron_ble.cpp:116-125 | block j < 256 is the two nonce bytes, thirteen zeros and j |
| VictronFrame.PlaintextProperties | src/victron_ble.cpp:103-125 | the plaintext has length - 8 bytes; byte i is d[8+i] XOR keystream byte i; decrypting it again gives the ciphertext back |
| VictronFrame.ManufacturerFilters | src/main.cpp:416-429 | each filter passes data starting E1 02: the class version at 4 or more bytes, the older at 3 or more. Each passes the rest after the id, and the two agree on every frame either accepts |
| SmartShunt.LayoutContiguous | src/victron_ble.cpp:164-221 | the eight fields are contiguous from bit 0 to bit 118, all inside bytes 0-14 of the 64-byte buffer |
| SmartShunt.DecodeRecord | src/victron_ble.cpp:156-161 | a record exists iff len >= 8; it is marked valid, carries the signal strength, and the fields nothing computes stay 0 |
| SmartShunt.DecodeWords | src/victron_ble.cpp:163-178 | time-to-go and voltage are the words at bytes 0-1 and 2-3, 0 for their sentinels, and voltage is signed; alarms are bytes 4-5 unchanged |
| SmartShunt.DecodeAux | src/victron_ble.cpp:180-198 | aux type is the low 2 bits of byte 8, always stored. The value is the signed word at bytes 6-7, kept only if not 0x7FFF and type != 1; a temperature has 27315 subtracted |
| SmartShunt.DecodeCurrent | src/victron_ble.cpp:200-204 | current is the signed 22 bits from byte 8 bit 2 through byte 10, and 0 for 0x3FFFFF |
| SmartShunt.DecodeExtended | src/victron_ble.cpp:212-225 | for len >= 16: consumed is minus the signed 20 bits at bit 88, and SOC is the 10 bits at bit 108, each 0 for its sentinel; both are 0 below 16 |
| SmartShunt.PowerIsProduct | src/victron_ble.cpp:206-209 | power always equals voltage times current; it is non-zero only if the current is available and the voltage is non-zero |
| SmartShunt.LengthGate | src/victron_ble.cpp:212 | the frame length affects only consumed Ah and SOC |
| SmartShunt.DecodeReads | src/victron_ble.cpp:164-224 | only buffer bytes 0-14 are read, and only 0-10 below 16 bytes |
| SmartShunt.StaleSocExample | src/victron_ble.cpp:212-224 | a 16-byte frame decrypts 8 bytes, yet buffers that agree on them can decode to SOC 0 and 1.6 % |
| ShuntReport.AlarmLabels | src/main.cpp:193-208 | an alarm label is printed iff its bit is set, in bit order, each at most once |
| ShuntReport.ReasonText | src/main.cpp:197-206 | each alarm bit's bracketed text is non-empty and contains no bracket |
| ShuntReport.ReasonTextInjective | src/main.cpp:197-206 | two alarm bits print the same text only if they are the same bit |
| ShuntReport.AlarmTextParts | src/main.cpp:195-207 | the alarm line is the printed reasons in order, each as " [" + its text + "]" at its own place |
| ShuntReport.MainParseAgrees | src/main.cpp:150-322 | every printed value is the class version's field, every N/A is a field at 0, power is printed iff computed, and the long-frame lines appear iff len >= 16 |
| ShuntReport.MidPointDeviation | src/main.cpp:227-237 | a mid-point reading has a deviation iff voltage is available, equal to twice the aux value minus the voltage (in 0.005 V) |
| VictronBleReader.VictronBle.constructor | src/victron_ble.cpp:4-9 | the target is the formatted MAC, and the 16 key bytes are the decoded hex digit pairs |
| VictronBleReader.VictronBle.ParseSmartShuntData | src/victron_ble.cpp:156-225 | the record sent on is the decoding of the buffer for the frame length, and none for len < 8 |
| VictronBleReader.VictronBle.ParseWords | src/victron_ble.cpp:163-178 | stores time-to-go, voltage and alarms as decoded, nothing else |
| VictronBleReader.VictronBle.ParseAux | src/victron_ble.cpp:180-198 | stores aux type and aux value as decoded, nothing else |
| VictronBleReader.VictronBle.ParseCurrent | src/victron_ble.cpp:200-210 | stores current and power as decoded, nothing else |
| VictronBleReader.VictronBle.ParseExtended | src/victron_ble.cpp:212-225 | stores consumed Ah and SOC as decoded for a long frame, nothing else |
| VictronBleReader.VictronBle.HandleAdvertisement | src/victron_ble.cpp:39-67 | the result is the record `Process` defines: filter, decrypt into the old buffer, then decode with the frame length |
| VictronBleReader.VictronAdvertisingCallback.OnResult | src/victron_ble.cpp:240-242 | forwards every result unchanged |
| VictronBleReader.ProcessExactly | src/victron_ble.cpp:39-67 | a record is produced iff the address matches, the data is E1 02 then a frame of >= 8 bytes with tag 0x10 and key[0] at frame byte 7, and key setup succeeds |
| VictronBleReader.ProcessDecodes | src/victron_ble.cpp:60-65 | the record decodes the counter-mode plaintext of data bytes 10.. under nonce bytes 7-8, with the old buffer bytes after it |
| VictronBleReader.LongFrameIgnoresStale | src/victron_ble.cpp:61-65 | for frames of at least 23 bytes, the buffer's prior contents do not affect the record |
| VictronBleReader.WrongKeyByteSuppressed | src/victron_ble.cpp:98-101 | a key-check byte other than key[0] yields no record |
| MainReader.VictronAdvertisingCallback.constructor | src/main.cpp:388-397 | the target is the default MAC formatted, and the key is the default key's 16 decoded bytes |
| MainReader.VictronAdvertisingCallback.OnResult | src/main.cpp:400-459 | the report is the one `MainProcess` defines, with the >= 2, id and > 2 checks on manufacturer data |
| MainReader.ReadersAgree | src/main.cpp:416-443 | the older reader prints a report iff the class version produces a record, and both decode the same buffer with the frame length |
| MainReader.ThreeByteDataIgnored | src/main.cpp:416-429 | 3-byte data passes the older filter but not the newer one, and is then rejected by decryption |
| Config.DefaultsWellFormed | src/config.h:10-11 | the default MAC is 12 lower-case hex digits and the key 32 |
| ConfigPortal.Strlen | src/config_server.cpp:43 | strlen counts the characters before the first NUL |
| ConfigPortal.ValidateHex | src/config_server.cpp:144-159 | the loop's flag is true iff the length is n and every character is in [0-9a-f] |
| ConfigPortal.ConfigServer.constructor | src/config_server.cpp:3-5 | the config is zeroed and config mode is off |
| ConfigPortal.ConfigServer.Begin | src/config_server.cpp:7-15 | fails iff the namespace cannot be opened, and otherwise loads the config |
| ConfigPortal.ConfigServer.LoadConfig | src/config_server.cpp:17-40 | always succeeds; the config is the stored pair, each read up to its first NUL, if their lengths are 12 and 32, else the defaults; nothing else changes |
| ConfigPortal.ConfigServer.SaveConfig | src/config_server.cpp:42-57 | succeeds iff strlen is 12 and 32; on success prefs and config hold exactly the two strings and valid, and on failure nothing changes |
| ConfigPortal.ConfigServer.ResetConfig | src/config_server.cpp:59-65 | prefs are empty and the config is the defaults, marked valid |
| ConfigPortal.ConfigServer.StartConfigMode | src/config_server.cpp:67-91 | already in config mode it succeeds and changes nothing; else it succeeds iff the AP starts, then records now and sets the flag |
| ConfigPortal.ConfigServer.StopConfigMode | src/config_server.cpp:93-102 | config mode is off afterwards, and nothing else changes |
| ConfigPortal.ConfigServer.Loop | src/config_server.cpp:104-114 | config mode stays on iff it was on and the wrapped elapsed time is at most 300000 ms |
| ConfigPortal.ConfigServer.HandleSave | src/config_server.cpp:130-210 | answers 200 iff the normalised MAC and key are 12 and 32 lower-case hex digits, then saves them and moves the start so the portal times out 10 s later; otherwise 400 and nothing changes |
| ConfigPortal.HexFieldIsCString | src/config_server.cpp:161-162 | a validated string has no NUL, so `c_str()` passes all of it |
| ConfigPortal.NormalisedForms | src/config_server.cpp:134-141 | the normalised MAC has no ':', space or upper-case letter, and the key no space or upper-case letter |
| ConfigPortal.NormaliseIdempotent | src/config_server.cpp:134-141 | normalising an already normalised MAC or key changes nothing |
| ConfigPortal.ColonFormAccepted | src/config_server.cpp:134-137 | the colon-separated address the readers format normalises back to the 12 digits in lower case, and passes validation |
| ConfigPortal.SaveThenLoad | src/config_server.cpp:17-57 | what a successful save stores is exactly what the next load selects |
| ConfigPortal.ResetThenLoad | src/config_server.cpp:59-65 | after a reset, loading gives the defaults |
| ConfigPortal.LoadedConfigProperties | src/config_server.cpp:17-40 | the loaded config is valid and fits its 13- and 33-byte arrays; it is the stored pair iff their lengths up to the first NUL are 12 and 32, else the defaults |
| ConfigPortal.TimeoutAfterElapsed | src/config_server.cpp:110 | the timeout fires iff more than 300000 ms have elapsed, including across a wrap of millis() |
| ConfigPortal.ClosesTenSecondsAfterSave | src/config_server.cpp:186 | after a successful save the portal times out exactly when more than 10000 ms have passed |

## Left out

- The AES-128 block function (FIPS 197) and the mbedtls context calls are foreign library code. The cipher is a parameter; key-setup failure is the input `keySetupOk`. `mbedtls_aes_crypt_ctr` is modelled by its stream loop and cannot fail.
- Floating-point scaling and the float comparisons `!= 0.0f` are replaced by exact integer units.
- In `src/main.cpp`, several outputs are presentation only and are left out:
  - the SOC category and capacity labels;
  - the battery summary and cell-count labels;
  - the raw hex dumps of the encrypted and decrypted data.
- The summary gate at src/main.cpp:328: it reads an outer `soc_raw` that is shadowed and never assigned, so its value is indeterminate.
- Time-to-empty and time-to-full: the `BatteryData` fields exist but no code computes them; they stay 0.
- Serial logging, the display (`display->updateData` becomes the returned record), and NimBLE setup and scanning:
  - `begin`, `setDisplay`, `startScanning`;
  - the service-data check;
  - `setup` and `loop`.
- NimBLE address parsing: device addresses are compared as the formatted strings, so case-insensitive matching of addresses is not modelled.
- VictronBleReader.VictronBle.HandleAdvertisement: requires manufacturer data of at most 74 bytes. The source writes `length - 10` decrypted bytes into a 64-byte stack buffer without checking; a longer frame would overflow it.
- MainReader.VictronAdvertisingCallback.OnResult: requires manufacturer data of at most 74 bytes, for the same unchecked buffer write. Within that bound, the raw dump at src/main.cpp:160-161 prints `len` bytes of the 64-byte buffer, so for 67-74 bytes of manufacturer data it reads past the buffer; the dump is not modelled.
- VictronFrame.DecryptVictronData: requires a frame of at most 8 bytes more than the buffer, the same bound on the unchecked write of `len - 8` decrypted bytes.
- VictronBleReader.VictronBle.constructor: the key array starts zeroed. In C++ the member is uninitialised, and bytes past a short key string are indeterminate.
- HexCodec.HexStringToBytes: requires hex-digit input; `strtol` on other characters is not modelled.
- The web pages and answers are not modelled:
  - `handleRoot`, `handleStatus` and `sendConfigPage`;
  - the HTML of `handleSave`;
  - WiFi mode switching;
  - `server.handleClient`.
- The one-line getters `isInConfigMode`, `getConfig` and `hasValidConfig` are not modelled separately: they read the fields.
- ConfigPortal.ConfigServer.constructor: `configStartTime` is left uninitialised by the source and starts at 0 here. It is read only in config mode, after `startConfigMode` has set it.
- String case conversion covers only ASCII letters, as `toLowerCase` does in the C locale.
