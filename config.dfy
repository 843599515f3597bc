/** The build-time defaults of src/config.h that the modelled code reads. */
module Config {
  import opened HexCodec

  /** INSTANT_READOUT_MAC_ADDRESS: twelve hex digits without separators. */
  const DefaultMac: string := "d6ec4c9e6307"

  /** INSTANT_READOUT_ENCRYPTION_KEY: 32 hex digits, the 16-byte AES key. */
  const DefaultKey: string := "64cd146fe6771ef40610ecf50f3bb06a"

  /** CONFIG_TIMEOUT_MS: the configuration portal closes after five minutes. */
  const ConfigTimeoutMs: nat := 300000

  /** The defaults have the shapes the readers and the portal require: a 12-digit MAC
      and a 32-digit key, both lower-case hex. */
  lemma DefaultsWellFormed()
    ensures |DefaultMac| == 12 && IsHexString(DefaultMac)
    ensures |DefaultKey| == 32 && IsHexString(DefaultKey)
    ensures forall i :: 0 <= i < |DefaultKey| ==> DefaultKey[i] in "0123456789abcdef"
    ensures forall i :: 0 <= i < |DefaultMac| ==> DefaultMac[i] in "0123456789abcdef"
  {
  }
}
