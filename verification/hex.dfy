/** `hex.EncodeToString`: two lowercase hexadecimal characters per byte, high nibble first. */
module Hex {
  import opened Wire

  predicate IsLowerHex(c: char) {
    '0' <= c <= '9' || 'a' <= c <= 'f'
  }

  /** The value of a lowercase hex digit. */
  function DigitValue(c: char): (v: nat)
    requires IsLowerHex(c)
    ensures v < 16
  {
    if c <= '9' then c as int - '0' as int else c as int - 'a' as int + 10
  }

  /** The lowercase hex digit for `v`, one of "0123456789abcdef". */
  function DigitChar(v: nat): (c: char)
    requires v < 16
    ensures IsLowerHex(c) && DigitValue(c) == v
  {
    if v < 10 then ('0' as int + v) as char else ('a' as int + (v - 10)) as char
  }

  /** The two characters of one byte, high nibble first. */
  function ByteChars(b: byte): (s: string)
    ensures |s| == 2 && IsLowerHex(s[0]) && IsLowerHex(s[1])
    ensures DigitValue(s[0]) * 16 + DigitValue(s[1]) == b
  {
    [DigitChar(b / 16), DigitChar(b % 16)]
  }

  /** `hex.EncodeToString`: the bytes' characters one after the other. Each
      pair of characters spells the value of its byte. */
  function Encode(d: seq<byte>): (s: string)
    ensures |s| == 2 * |d|
    ensures forall i :: 0 <= i < |s| ==> IsLowerHex(s[i])
    ensures forall i :: 0 <= i < |d| ==> DigitValue(s[2 * i]) * 16 + DigitValue(s[2 * i + 1]) == d[i]
    decreases |d|
  {
    if |d| == 0 then []
    else
      var head, rest := ByteChars(d[0]), Encode(d[1..]);
      var s := head + rest;
      forall i | 0 <= i < |s| ensures IsLowerHex(s[i]) {
        if i >= 2 {
          assert s[i] == rest[i - 2];
        }
      }
      forall i | 1 <= i < |d| ensures DigitValue(s[2 * i]) * 16 + DigitValue(s[2 * i + 1]) == d[i] {
        assert s[2 * i] == rest[2 * (i - 1)] && s[2 * i + 1] == rest[2 * (i - 1) + 1];
        assert d[1..][i - 1] == d[i];
      }
      s
  }

  /** Distinct byte strings have distinct hex text: every byte can be read
      back off its two characters. */
  lemma EncodeInjective(a: seq<byte>, b: seq<byte>)
    requires Encode(a) == Encode(b)
    ensures a == b
  {
    var s := Encode(a);
    assert |a| == |b|;
    forall i | 0 <= i < |a| ensures a[i] == b[i] {
      assert DigitValue(s[2 * i]) * 16 + DigitValue(s[2 * i + 1]) == a[i];
    }
  }
}
