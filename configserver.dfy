/** The configuration portal's state (`ConfigServer`, src/config_server.cpp): the
    persisted MAC and key, the in-memory `DeviceConfig`, the config-mode flag and its
    five-minute timeout, and the normalisation and validation of submitted values.
    The `Preferences` namespace is a map from key to stored string; `millis()` and
    the outcomes of `prefs.begin` and `WiFi.softAP` are parameters. */
module ConfigPortal {
  import opened Bytes
  import opened Config
  import opened HexCodec

  /** DeviceConfig: `mac_address[13]`, `encryption_key[33]` (C strings) and `valid`. */
  datatype DeviceConfig = DeviceConfig(macAddress: string, encryptionKey: string, valid: bool)

  /** The zeroed struct left by `memset`. */
  const ZeroConfig := DeviceConfig("", "", false)

  /** The compile-time defaults, marked valid. */
  const DefaultConfig := DeviceConfig(DefaultMac, DefaultKey, true)

  const MacPref := "mac"
  const KeyPref := "key"

  /** The capacities of the two char arrays, terminator included. */
  const MacCapacity := 13
  const KeyCapacity := 33

  /** `unsigned long` arithmetic wraps at 2^32. */
  const ULongModulus := 0x1_0000_0000

  /** strlen: the number of characters before the first NUL. */
  function Strlen(s: string): (n: nat)
    ensures n <= |s|
    ensures forall i :: 0 <= i < n ==> s[i] != '\0'
    ensures n < |s| ==> s[n] == '\0'
  {
    if s == [] || s[0] == '\0' then 0 else 1 + Strlen(s[1..])
  }

  /** The characters a `const char*` stands for, which strcpy and putString copy. */
  function CString(s: string): string
  {
    s[..Strlen(s)]
  }

  /** prefs.getString(key, ""): a String built from the stored C string, so it ends at
      the first NUL of the stored value. */
  function Stored(prefs: map<string, string>, key: string): string
  {
    if key in prefs then CString(prefs[key]) else ""
  }

  /** The configuration loadConfig selects: the stored values when they have lengths
      12 and 32, the defaults otherwise. */
  function LoadedConfig(prefs: map<string, string>): DeviceConfig
  {
    var mac, key := Stored(prefs, MacPref), Stored(prefs, KeyPref);
    if |mac| == 12 && |key| == 32 then DeviceConfig(CString(mac), CString(key), true)
    else DefaultConfig
  }

  /** The config fits its char arrays with their terminators. */
  predicate Fits(c: DeviceConfig)
  {
    |c.macAddress| < MacCapacity && |c.encryptionKey| < KeyCapacity
  }

  /** String::toLowerCase maps 'A'-'Z' and leaves every other character. */
  function ToLowerChar(c: char): char
  {
    if 'A' <= c <= 'Z' then (c as int + 32) as char else c
  }

  function ToLowerString(s: string): (r: string)
    ensures |r| == |s| && forall i :: 0 <= i < |s| ==> r[i] == ToLowerChar(s[i])
  {
    seq(|s|, i requires 0 <= i < |s| => ToLowerChar(s[i]))
  }

  /** String::replace(x, ""): every occurrence of x removed. */
  function RemoveChar(s: string, x: char): string
  {
    if s == [] then [] else (if s[0] == x then [] else [s[0]]) + RemoveChar(s[1..], x)
  }

  /** The MAC as handleSave normalises it: colons and spaces removed, then lower case. */
  function NormaliseMac(mac: string): string
  {
    ToLowerString(RemoveChar(RemoveChar(mac, ':'), ' '))
  }

  /** The key as handleSave normalises it: spaces removed, then lower case. */
  function NormaliseKey(key: string): string
  {
    ToLowerString(RemoveChar(key, ' '))
  }

  predicate IsLowerHexDigit(c: char)
  {
    '0' <= c <= '9' || 'a' <= c <= 'f'
  }

  /** Exactly n characters, all in [0-9a-f]. */
  predicate IsLowerHexOfLength(s: string, n: nat)
  {
    |s| == n && forall i :: 0 <= i < |s| ==> IsLowerHexDigit(s[i])
  }

  /** The portal has been open longer than the timeout, with `unsigned long` wrap-around. */
  predicate TimedOut(start: uint32, now: uint32)
  {
    (now - start) % ULongModulus > ConfigTimeoutMs
  }

  /** The validation loops of handleSave: the flag starts as the length test and is
      cleared at the first character outside [0-9a-f]. */
  method ValidateHex(s: string, n: nat) returns (valid: bool)
    ensures valid <==> IsLowerHexOfLength(s, n)
  {
    valid := |s| == n;
    var i := 0;
    while i < |s| && valid
      invariant 0 <= i <= |s|
      invariant valid <==> |s| == n && forall j :: 0 <= j < i ==> IsLowerHexDigit(s[j])
    {
      var c := s[i];
      if !(('0' <= c <= '9') || ('a' <= c <= 'f')) {
        valid := false;
      }
      i := i + 1;
    }
  }

  class ConfigServer {
    var prefs: map<string, string>
    var currentConfig: DeviceConfig
    var configStartTime: uint32
    var isConfigMode: bool

    /** The config always fits its buffers. */
    predicate Valid()
      reads this
    {
      Fits(currentConfig)
    }

    /** The flash namespace holds `stored`; the config is zeroed and config mode off. */
    constructor(stored: map<string, string>)
      ensures Valid()
      ensures prefs == stored && currentConfig == ZeroConfig && !isConfigMode
    {
      prefs := stored;
      currentConfig := ZeroConfig;
      configStartTime := 0;
      isConfigMode := false;
    }

    /** begin: fails when the namespace cannot be opened, and otherwise loads. */
    method Begin(prefsOk: bool) returns (ok: bool)
      requires Valid()
      modifies this
      ensures Valid()
      ensures ok == prefsOk
      ensures prefs == old(prefs) && configStartTime == old(configStartTime) && isConfigMode == old(isConfigMode)
      ensures currentConfig == if prefsOk then LoadedConfig(prefs) else old(currentConfig)
    {
      if !prefsOk {
        return false;
      }
      var _ := LoadConfig();
      return true;
    }

    /** loadConfig: copies the stored values when their lengths are 12 and 32, and the
        defaults otherwise; it always succeeds. */
    method LoadConfig() returns (ok: bool)
      modifies this
      ensures Valid() && ok
      ensures currentConfig == LoadedConfig(prefs)
      ensures prefs == old(prefs) && configStartTime == old(configStartTime) && isConfigMode == old(isConfigMode)
    {
      var macLen := |Stored(prefs, MacPref)|;
      var keyLen := |Stored(prefs, KeyPref)|;
      if macLen == 12 && keyLen == 32 {
        var mac := Stored(prefs, MacPref);
        var key := Stored(prefs, KeyPref);
        currentConfig := currentConfig.(macAddress := CString(mac));
        currentConfig := currentConfig.(encryptionKey := CString(key));
        currentConfig := currentConfig.(valid := true);
        return true;
      } else {
        currentConfig := currentConfig.(macAddress := DefaultMac);
        currentConfig := currentConfig.(encryptionKey := DefaultKey);
        currentConfig := currentConfig.(valid := true);
        return true;
      }
    }

    /** saveConfig: only a 12-character MAC and a 32-character key are stored and copied
        into the config; anything else changes nothing. */
    method SaveConfig(macAddress: string, encryptionKey: string) returns (ok: bool)
      requires Valid()
      modifies this
      ensures Valid()
      ensures ok <==> Strlen(macAddress) == 12 && Strlen(encryptionKey) == 32
      ensures ok ==> prefs == old(prefs)[MacPref := CString(macAddress)][KeyPref := CString(encryptionKey)]
      ensures ok ==> currentConfig == DeviceConfig(CString(macAddress), CString(encryptionKey), true)
      ensures !ok ==> prefs == old(prefs) && currentConfig == old(currentConfig)
      ensures configStartTime == old(configStartTime) && isConfigMode == old(isConfigMode)
    {
      if Strlen(macAddress) != 12 || Strlen(encryptionKey) != 32 {
        return false;
      }
      prefs := prefs[MacPref := CString(macAddress)];
      prefs := prefs[KeyPref := CString(encryptionKey)];
      currentConfig := currentConfig.(macAddress := CString(macAddress));
      currentConfig := currentConfig.(encryptionKey := CString(encryptionKey));
      currentConfig := currentConfig.(valid := true);
      return true;
    }

    /** resetConfig: clears the namespace and restores the defaults. */
    method ResetConfig()
      modifies this
      ensures Valid()
      ensures prefs == map[] && currentConfig == DefaultConfig
      ensures configStartTime == old(configStartTime) && isConfigMode == old(isConfigMode)
    {
      prefs := map[];
      currentConfig := currentConfig.(macAddress := DefaultMac);
      currentConfig := currentConfig.(encryptionKey := DefaultKey);
      currentConfig := currentConfig.(valid := true);
    }

    /** startConfigMode: succeeds at once when already in config mode; otherwise fails
        when the access point does not start, and records the start time when it does. */
    method StartConfigMode(apStarted: bool, now: uint32) returns (ok: bool)
      modifies this
      ensures ok <==> old(isConfigMode) || apStarted
      ensures isConfigMode == ok
      ensures configStartTime == if !old(isConfigMode) && apStarted then now else old(configStartTime)
      ensures prefs == old(prefs) && currentConfig == old(currentConfig)
    {
      if isConfigMode {
        return true;
      }
      if !apStarted {
        return false;
      }
      configStartTime := now;
      isConfigMode := true;
      return true;
    }

    /** stopConfigMode: leaves config mode; a no-op outside it. */
    method StopConfigMode()
      modifies this
      ensures !isConfigMode
      ensures prefs == old(prefs) && currentConfig == old(currentConfig) && configStartTime == old(configStartTime)
    {
      if !isConfigMode {
        return;
      }
      isConfigMode := false;
    }

    /** loop: in config mode, stops it once the timeout has passed. */
    method Loop(now: uint32)
      modifies this
      ensures isConfigMode == (old(isConfigMode) && !TimedOut(configStartTime, now))
      ensures prefs == old(prefs) && currentConfig == old(currentConfig) && configStartTime == old(configStartTime)
    {
      if !isConfigMode {
        return;
      }
      if (now - configStartTime) % ULongModulus > ConfigTimeoutMs {
        StopConfigMode();
      }
    }

    /** handleSave: normalises both submitted values, and saves them when they are 12
        and 32 lower-case hex digits (status 200), moving the start time back so that
        the portal times out ten seconds later; otherwise answers 400 and changes
        nothing. */
    method HandleSave(macArg: string, keyArg: string, now: uint32) returns (status: int)
      requires Valid()
      modifies this
      ensures Valid()
      ensures var mac, key := NormaliseMac(macArg), NormaliseKey(keyArg);
        && (status == 200 <==> IsLowerHexOfLength(mac, 12) && IsLowerHexOfLength(key, 32))
        && (status == 200 ==>
              && prefs == old(prefs)[MacPref := mac][KeyPref := key]
              && currentConfig == DeviceConfig(mac, key, true)
              && configStartTime == (now - ConfigTimeoutMs + 10000) % ULongModulus)
        && (status != 200 ==>
              && status == 400
              && prefs == old(prefs) && currentConfig == old(currentConfig)
              && configStartTime == old(configStartTime))
      ensures isConfigMode == old(isConfigMode)
    {
      var mac := RemoveChar(RemoveChar(macArg, ':'), ' ');
      mac := ToLowerString(mac);
      var key := RemoveChar(keyArg, ' ');
      key := ToLowerString(key);

      var macValid := ValidateHex(mac, 12);
      var keyValid := ValidateHex(key, 32);

      if macValid && keyValid {
        HexFieldIsCString(mac, 12);
        HexFieldIsCString(key, 32);
        var saved := SaveConfig(mac, key);
        if saved {
          configStartTime := (now - ConfigTimeoutMs + 10000) % ULongModulus;
          status := 200;
        } else {
          status := 500;
        }
      } else {
        status := 400;
      }
    }
  }

  /** A validated string has no NUL, so its C string is itself. */
  lemma HexFieldIsCString(s: string, n: nat)
    requires IsLowerHexOfLength(s, n)
    ensures Strlen(s) == n && CString(s) == s
  {
    assert forall i :: 0 <= i < |s| ==> s[i] != '\0';
  }

  lemma {:induction false} RemoveCharRemoves(s: string, x: char)
    ensures forall i :: 0 <= i < |RemoveChar(s, x)| ==> RemoveChar(s, x)[i] != x
    ensures forall c :: c != x ==> (c in RemoveChar(s, x) <==> c in s)
    ensures |RemoveChar(s, x)| <= |s|
  {
    if s != [] {
      RemoveCharRemoves(s[1..], x);
      assert s == [s[0]] + s[1..];
    }
  }

  /** After normalisation the MAC has no colon, no space and no upper-case letter, and
      the key no space and no upper-case letter. */
  lemma NormalisedForms(mac: string, key: string)
    ensures forall i :: 0 <= i < |NormaliseMac(mac)| ==>
      NormaliseMac(mac)[i] != ':' && NormaliseMac(mac)[i] != ' ' && !('A' <= NormaliseMac(mac)[i] <= 'Z')
    ensures forall i :: 0 <= i < |NormaliseKey(key)| ==>
      NormaliseKey(key)[i] != ' ' && !('A' <= NormaliseKey(key)[i] <= 'Z')
  {
    var noColon := RemoveChar(mac, ':');
    var noSpace := RemoveChar(noColon, ' ');
    var keyNoSpace := RemoveChar(key, ' ');
    RemoveCharRemoves(mac, ':');
    RemoveCharRemoves(noColon, ' ');
    RemoveCharRemoves(key, ' ');
    forall i | 0 <= i < |noSpace|
      ensures noSpace[i] != ':' && noSpace[i] != ' '
    {
      assert noSpace[i] in noSpace;
    }
  }

  lemma {:induction false} RemoveCharAbsent(s: string, x: char)
    requires forall i :: 0 <= i < |s| ==> s[i] != x
    ensures RemoveChar(s, x) == s
  {
    if s != [] {
      RemoveCharAbsent(s[1..], x);
      assert s == [s[0]] + s[1..];
    }
  }

  lemma {:induction false} RemoveCharAppend(a: string, b: string, x: char)
    ensures RemoveChar(a + b, x) == RemoveChar(a, x) + RemoveChar(b, x)
  {
    if a != [] {
      RemoveCharAppend(a[1..], b, x);
      assert (a + b)[0] == a[0];
      assert (a + b)[1..] == a[1..] + b;
    } else {
      assert a + b == b;
    }
  }

  /** Submitting an already normalised value changes nothing: normalisation is
      idempotent. */
  lemma NormaliseIdempotent(mac: string, key: string)
    ensures NormaliseMac(NormaliseMac(mac)) == NormaliseMac(mac)
    ensures NormaliseKey(NormaliseKey(key)) == NormaliseKey(key)
  {
    NormalisedForms(mac, key);
    var m, k := NormaliseMac(mac), NormaliseKey(key);
    RemoveCharAbsent(m, ':');
    RemoveCharAbsent(m, ' ');
    RemoveCharAbsent(k, ' ');
    LowerIdempotent(m);
    LowerIdempotent(k);
  }

  lemma LowerIdempotent(s: string)
    requires forall i :: 0 <= i < |s| ==> !('A' <= s[i] <= 'Z')
    ensures ToLowerString(s) == s
  {
  }

  /** The colon-separated form the readers build, in either case, is accepted and
      normalises to the lower-case 12 digits. */
  lemma ColonFormAccepted(m: string)
    requires |m| == 12 && IsHexString(m)
    ensures NormaliseMac(MacStringToAddress(m)) == ToLowerString(m)
    ensures IsLowerHexOfLength(NormaliseMac(MacStringToAddress(m)), 12)
  {
    ColonFormNormalises(m);
    LowerOfHex(m);
  }

  lemma ColonFormNormalises(m: string)
    requires |m| == 12 && IsHexString(m)
    ensures NormaliseMac(MacStringToAddress(m)) == ToLowerString(m)
  {
    ColonsRemoved(m);
    assert forall i :: 0 <= i < |m| ==> m[i] != ' ';
    RemoveCharAbsent(m, ' ');
  }

  /** Lower-casing hex digits gives lower-case hex digits. */
  lemma LowerOfHex(m: string)
    requires IsHexString(m)
    ensures IsLowerHexOfLength(ToLowerString(m), |m|)
  {
    forall i | 0 <= i < |m|
      ensures IsLowerHexDigit(ToLowerString(m)[i])
    {
      assert IsHexDigit(m[i]);
    }
  }

  lemma ColonsRemoved(m: string)
    requires |m| == 12 && IsHexString(m)
    ensures RemoveChar(MacStringToAddress(m), ':') == m
  {
    var p0, p1, p2, p3, p4, p5 := m[0..2], m[2..4], m[4..6], m[6..8], m[8..10], m[10..12];
    HexPair(m, 0);
    HexPair(m, 2);
    HexPair(m, 4);
    HexPair(m, 6);
    HexPair(m, 8);
    HexPair(m, 10);
    var u1 := p0 + ":" + p1;
    var u2 := u1 + ":" + p2;
    var u3 := u2 + ":" + p3;
    var u4 := u3 + ":" + p4;
    var u5 := u4 + ":" + p5;
    assert MacStringToAddress(m) == u5;
    StripGroup(p0, p1);
    StripGroup(u1, p2);
    StripGroup(u2, p3);
    StripGroup(u3, p4);
    StripGroup(u4, p5);
    PairsJoin(m);
  }

  /** Twelve characters are their six pairs, joined from the left. */
  lemma PairsJoin(m: string)
    requires |m| == 12
    ensures m == m[0..2] + m[2..4] + m[4..6] + m[6..8] + m[8..10] + m[10..12]
  {
    assert m[..4] == m[0..2] + m[2..4];
    assert m[..6] == m[..4] + m[4..6];
    assert m[..8] == m[..6] + m[6..8];
    assert m[..10] == m[..8] + m[8..10];
    assert m == m[..10] + m[10..12];
  }

  /** A pair of hex digits has no colon to remove. */
  lemma HexPair(m: string, k: nat)
    requires k + 2 <= |m| && IsHexString(m)
    ensures m[k..k + 2][0] != ':' && m[k..k + 2][1] != ':' && |m[k..k + 2]| == 2
    ensures RemoveChar(m[k..k + 2], ':') == m[k..k + 2]
  {
    var p := m[k..k + 2];
    assert IsHexDigit(m[k]) && IsHexDigit(m[k + 1]);
    assert p[1..] == [p[1]] && p[1..][1..] == [];
    assert RemoveChar(p[1..], ':') == [p[1]] + RemoveChar([], ':');
    assert p == [p[0]] + [p[1]];
  }

  /** Removing colons from the text so far, a colon and a colon-free pair keeps the pair. */
  lemma StripGroup(left: string, p: string)
    requires RemoveChar(p, ':') == p
    ensures RemoveChar(left + ":" + p, ':') == RemoveChar(left, ':') + p
  {
    var withColon := left + ":";
    RemoveCharAppend(withColon, p, ':');
    RemoveCharAppend(left, ":", ':');
    RemoveColon();
  }

  lemma RemoveColon()
    ensures RemoveChar(":", ':') == []
  {
    assert ":"[1..] == [];
  }

  /** What saveConfig stores is what loadConfig later selects, for NUL-free values. */
  lemma SaveThenLoad(prefs: map<string, string>, mac: string, key: string)
    requires Strlen(mac) == 12 && Strlen(key) == 32
    ensures LoadedConfig(prefs[MacPref := CString(mac)][KeyPref := CString(key)]) == DeviceConfig(CString(mac), CString(key), true)
  {
    var withMac := prefs[MacPref := CString(mac)];
    var p := withMac[KeyPref := CString(key)];
    CStringOfCString(mac);
    CStringOfCString(key);
    PrefNamesDiffer();
    assert p[MacPref] == withMac[MacPref];
  }

  lemma PrefNamesDiffer()
    ensures MacPref != KeyPref
  {
    assert MacPref[0] != KeyPref[0];
  }

  lemma CStringOfCString(s: string)
    ensures CString(CString(s)) == CString(s)
  {
    var c := CString(s);
    assert forall i :: 0 <= i < |c| ==> c[i] != '\0';
  }

  /** After a reset, or with nothing stored, loading gives the defaults; the defaults
      are what the readers run with. */
  lemma ResetThenLoad()
    ensures LoadedConfig(map[]) == DefaultConfig
    ensures DefaultConfig.macAddress == DefaultMac && DefaultConfig.encryptionKey == DefaultKey && DefaultConfig.valid
  {
  }

  /** The loaded config is valid, fits its buffers, and is the stored pair exactly when
      that pair has lengths 12 and 32. */
  lemma LoadedConfigProperties(prefs: map<string, string>)
    ensures LoadedConfig(prefs).valid && Fits(LoadedConfig(prefs))
    ensures (|Stored(prefs, MacPref)| == 12 && |Stored(prefs, KeyPref)| == 32) ==>
      LoadedConfig(prefs).macAddress == CString(Stored(prefs, MacPref))
      && LoadedConfig(prefs).encryptionKey == CString(Stored(prefs, KeyPref))
    ensures !(|Stored(prefs, MacPref)| == 12 && |Stored(prefs, KeyPref)| == 32) ==> LoadedConfig(prefs) == DefaultConfig
  {
    DefaultsWellFormed();
  }

  /** The timeout reads the time elapsed since the start modulo 2^32, so it also
      fires across a wrap of millis(). */
  lemma TimeoutAfterElapsed(start: uint32, elapsed: nat)
    requires elapsed < ULongModulus
    ensures TimedOut(start, (start + elapsed) % ULongModulus) <==> elapsed > ConfigTimeoutMs
  {
    var now := (start + elapsed) % ULongModulus;
    if start + elapsed < ULongModulus {
      assert now == start + elapsed;
      assert (now - start) % ULongModulus == elapsed;
    } else {
      assert now == start + elapsed - ULongModulus;
      assert now - start == elapsed - ULongModulus;
      assert (now - start) % ULongModulus == elapsed;
    }
  }

  /** After a successful save the portal times out exactly when more than ten seconds
      have passed. */
  lemma ClosesTenSecondsAfterSave(now: uint32, dt: nat)
    requires dt < ULongModulus - (ConfigTimeoutMs - 10000)
    ensures TimedOut((now - ConfigTimeoutMs + 10000) % ULongModulus, (now + dt) % ULongModulus) <==> dt > 10000
  {
    var start := (now - ConfigTimeoutMs + 10000) % ULongModulus;
    var elapsed := dt + (ConfigTimeoutMs - 10000);
    assert (start + elapsed) % ULongModulus == (now + dt) % ULongModulus by {
      ModShift(now - ConfigTimeoutMs + 10000, elapsed);
    }
    TimeoutAfterElapsed(start, elapsed);
  }

  lemma ModShift(x: int, e: int)
    ensures (x % ULongModulus + e) % ULongModulus == (x + e) % ULongModulus
  {
    var q := x / ULongModulus;
    assert x == ULongModulus * q + x % ULongModulus;
    assert x + e == (x % ULongModulus + e) + ULongModulus * q;
    ModMultiple(x % ULongModulus + e, q);
  }

  lemma ModMultiple(y: int, q: int)
    ensures (y + ULongModulus * q) % ULongModulus == y % ULongModulus
  {
    var r := y % ULongModulus;
    var p := y / ULongModulus;
    assert y == ULongModulus * p + r;
    assert y + ULongModulus * q == ULongModulus * (p + q) + r;
    DivModUnique(y + ULongModulus * q, ULongModulus, p + q, r);
  }
}
