/** Hex-string and MAC-string helpers: `hexStringToBytes` and `macStringToAddress`
    (src/victron_ble.cpp:69-84; identical copies at src/main.cpp:10-27), and the
    `%02X` key printout of src/main.cpp:393-396. */
module HexCodec {
  import opened Bytes

  /** A digit that `strtol(…, 16)` accepts. */
  predicate IsHexDigit(c: char)
  {
    '0' <= c <= '9' || 'a' <= c <= 'f' || 'A' <= c <= 'F'
  }

  predicate IsHexString(s: string)
  {
    forall i :: 0 <= i < |s| ==> IsHexDigit(s[i])
  }

  function HexValue(c: char): (v: nat)
    requires IsHexDigit(c)
    ensures v < 16
  {
    if c <= '9' then c as int - '0' as int
    else if c <= 'F' then c as int - 'A' as int + 10
    else c as int - 'a' as int + 10
  }

  /** `strtol` on the three-byte buffer {hi, lo, '\0'}: when the string has odd length
      the last buffer is {hi, '\0', '\0'} and only hi is read. */
  function PairValue(s: string, i: nat): (b: byte)
    requires IsHexString(s) && 2 * i < |s|
  {
    if 2 * i + 1 < |s| then 16 * HexValue(s[2 * i]) + HexValue(s[2 * i + 1])
    else HexValue(s[2 * i])
  }

  /** All the bytes a hex string decodes to, one per (possibly partial) digit pair. */
  function HexToBytes(s: string): (r: seq<byte>)
    requires IsHexString(s)
    ensures |r| == (|s| + 1) / 2
  {
    seq((|s| + 1) / 2, i requires 0 <= i < (|s| + 1) / 2 => PairValue(s, i))
  }

  /** hexStringToBytes: writes byte i for every i < byteArraySize with 2 * i < strlen,
      and leaves every other byte of the array as it was. */
  method HexStringToBytes(hexString: string, byteArray: array<byte>, byteArraySize: nat)
    requires IsHexString(hexString)
    requires byteArraySize <= byteArray.Length
    modifies byteArray
    ensures forall i :: 0 <= i < byteArray.Length ==>
      byteArray[i] == if i < byteArraySize && 2 * i < |hexString| then HexToBytes(hexString)[i] else old(byteArray[i])
  {
    var hexLen := |hexString|;
    var i := 0;
    while i < byteArraySize && i * 2 < hexLen
      invariant 0 <= i <= byteArraySize && 2 * i <= hexLen + 1
      invariant forall j :: 0 <= j < byteArray.Length ==>
        byteArray[j] == if j < i then HexToBytes(hexString)[j] else old(byteArray[j])
    {
      byteArray[i] := PairValue(hexString, i);
      i := i + 1;
    }
  }

  /** One upper-case hex digit, as `%X` prints it. */
  function UpperDigit(v: nat): (c: char)
    requires v < 16
    ensures IsHexDigit(c) && HexValue(c) == v
  {
    if v < 10 then ('0' as int + v) as char else ('A' as int + v - 10) as char
  }

  /** ASCII upper-casing. */
  function ToUpper(c: char): char
  {
    if 'a' <= c <= 'z' then (c as int - 32) as char else c
  }

  function UpperString(s: string): (r: string)
    ensures |r| == |s| && forall i :: 0 <= i < |s| ==> r[i] == ToUpper(s[i])
  {
    if s == [] then [] else [ToUpper(s[0])] + UpperString(s[1..])
  }

  lemma UpperDigitOfValue(c: char)
    requires IsHexDigit(c)
    ensures UpperDigit(HexValue(c)) == ToUpper(c)
  {
  }

  /** `printf("%02X", b)`. */
  function Format02X(b: byte): (r: string)
  {
    [UpperDigit(b / 16), UpperDigit(b % 16)]
  }

  /** The bytes printed one after another with `%02X`. */
  function FormatBytes(bs: seq<byte>): (r: string)
    ensures |r| == 2 * |bs| && IsHexString(r)
  {
    if bs == [] then [] else Format02X(bs[0]) + FormatBytes(bs[1..])
  }

  /** Decoding a hex string peels off one byte per leading digit pair. */
  lemma HexToBytesCons(s: string)
    requires IsHexString(s) && |s| >= 2
    ensures IsHexString(s[2..])
    ensures HexToBytes(s) == [16 * HexValue(s[0]) + HexValue(s[1])] + HexToBytes(s[2..])
  {
    var t := s[2..];
    assert forall i :: 0 <= i < |t| ==> t[i] == s[i + 2];
    var lhs, rhs := HexToBytes(s), [16 * HexValue(s[0]) + HexValue(s[1])] + HexToBytes(t);
    assert |lhs| == |rhs|;
    forall i | 0 <= i < |lhs| ensures lhs[i] == rhs[i] {
      if i > 0 {
        assert rhs[i] == PairValue(t, i - 1);
      }
    }
  }

  /** Printing bytes with `%02X` and decoding the text gives the bytes back. */
  lemma {:induction false} FormatThenDecode(bs: seq<byte>)
    ensures HexToBytes(FormatBytes(bs)) == bs
  {
    if bs != [] {
      var s := FormatBytes(bs);
      assert s == Format02X(bs[0]) + FormatBytes(bs[1..]);
      assert s[2..] == FormatBytes(bs[1..]);
      HexToBytesCons(s);
      FormatThenDecode(bs[1..]);
      assert 16 * (bs[0] / 16) + bs[0] % 16 == bs[0];
      assert bs == [bs[0]] + bs[1..];
    }
  }

  /** Decoding an even-length hex string and printing the bytes with `%02X`
      reproduces its digits, upper-cased. */
  lemma {:induction false} DecodeThenFormat(s: string)
    requires IsHexString(s) && |s| % 2 == 0
    ensures FormatBytes(HexToBytes(s)) == UpperString(s)
  {
    if s != [] {
      var head, tail := s[..2], s[2..];
      DecodeThenFormatStep(s, head, tail);
      EvenLess2(|s|, |tail|);
      DecodeThenFormat(tail);
      UpperStringAppend(head, tail);
      assert s == head + tail;
    }
  }

  lemma EvenLess2(n: nat, m: nat)
    requires n % 2 == 0 && m == n - 2
    ensures m % 2 == 0
  {
  }

  /** The first digit pair prints back as itself, upper-cased. */
  lemma DecodeThenFormatStep(s: string, head: string, tail: string)
    requires IsHexString(s) && |s| >= 2 && head == s[..2] && tail == s[2..]
    ensures IsHexString(tail)
    ensures FormatBytes(HexToBytes(s)) == UpperString(head) + FormatBytes(HexToBytes(tail))
  {
    HexToBytesCons(s);
    var hi, lo := HexValue(s[0]), HexValue(s[1]);
    var b := 16 * hi + lo;
    var bs := HexToBytes(s);
    assert bs[0] == b && bs[1..] == HexToBytes(tail);
    DivModUnique(b, 16, hi, lo);
    UpperDigitOfValue(s[0]);
    UpperDigitOfValue(s[1]);
    assert FormatBytes(bs) == Format02X(b) + FormatBytes(bs[1..]);
    assert UpperString(head) == [ToUpper(s[0]), ToUpper(s[1])];
  }

  lemma UpperStringAppend(a: string, b: string)
    ensures UpperString(a + b) == UpperString(a) + UpperString(b)
  {
    var l, r := UpperString(a + b), UpperString(a) + UpperString(b);
    assert |l| == |r|;
    forall i | 0 <= i < |l| ensures l[i] == r[i] {
      if i < |a| { assert (a + b)[i] == a[i]; } else { assert (a + b)[i] == b[i - |a|]; }
    }
  }

  /** The 16-byte key printout of a 32-digit key is the key, upper-cased. */
  lemma KeyPrintout(key: string)
    requires IsHexString(key) && |key| == 32
    ensures |HexToBytes(key)| == 16
    ensures FormatBytes(HexToBytes(key)) == UpperString(key)
  {
    DecodeThenFormat(key);
  }

  /** macStringToAddress: the twelve characters in pairs, separated by ':'. */
  function MacStringToAddress(macString: string): (r: string)
    requires |macString| >= 12
    ensures |r| == 17
    ensures forall k :: 0 <= k < 5 ==> r[3 * k + 2] == ':'
    ensures forall k :: 0 <= k < 6 ==> r[3 * k] == macString[2 * k] && r[3 * k + 1] == macString[2 * k + 1]
  {
    macString[0..2] + ":" + macString[2..4] + ":" + macString[4..6] + ":"
      + macString[6..8] + ":" + macString[8..10] + ":" + macString[10..12]
  }
}
