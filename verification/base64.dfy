/** Standard padded base64 (section 4 of RFC 4648) as Go's `base64.StdEncoding`
    writes and reads it: the solution bytes of a quote request travel this way. */
module Base64 {
  import opened Results
  import opened Wire

  const PadChar: byte := 61   // '='
  const CarriageReturn: byte := 13
  const LineFeed: byte := 10

  /** `base64.CorruptInputError`; the offset it carries is not modelled. */
  datatype Base64Error = IllegalData

  /** 'A'-'Z', 'a'-'z', '0'-'9', '+', '/'. */
  predicate IsAlphabet(c: byte) {
    65 <= c <= 90 || 97 <= c <= 122 || 48 <= c <= 57 || c == 43 || c == 47
  }

  function CharValue(c: byte): (v: nat)
    requires IsAlphabet(c)
    ensures v < 64
  {
    if 65 <= c <= 90 then c - 65
    else if 97 <= c <= 122 then c - 97 + 26
    else if 48 <= c <= 57 then c - 48 + 52
    else if c == 43 then 62
    else 63
  }

  function CharOf(v: nat): (c: byte)
    requires v < 64
    ensures IsAlphabet(c) && CharValue(c) == v
  {
    if v < 26 then 65 + v
    else if v < 52 then 97 + (v - 26)
    else if v < 62 then 48 + (v - 52)
    else if v == 62 then 43
    else 47
  }

  /** `base64.StdEncoding.EncodeToString`: each group of three bytes becomes
      four characters; a final group of one or two bytes is padded with '='. */
  function Encode(b: seq<byte>): (s: seq<byte>)
    ensures |s| == (|b| + 2) / 3 * 4
    ensures forall i :: 0 <= i < |s| ==> IsAlphabet(s[i]) || s[i] == PadChar
    decreases |b|
  {
    if |b| == 0 then []
    else if |b| == 1 then EncodeOne(b[0])
    else if |b| == 2 then EncodeTwo(b[0], b[1])
    else
      var rest := Encode(b[3..]);
      LengthStep(|b|);
      EncodeGroup(b[0], b[1], b[2]) + rest
  }

  /** One more group of three bytes adds one quantum of four characters. */
  lemma LengthStep(n: nat)
    requires n >= 3
    ensures (n + 2) / 3 * 4 == 4 + (n - 3 + 2) / 3 * 4
  {
    var q := (n - 3 + 2) / 3;
    assert n + 2 == (q + 1) * 3 + (n - 3 + 2) % 3;
  }

  /** A final single byte: two characters and "==". */
  function EncodeOne(x: byte): (s: seq<byte>)
    ensures |s| == 4 && IsAlphabet(s[0]) && IsAlphabet(s[1]) && s[2] == PadChar && s[3] == PadChar
  {
    [CharOf(x / 4), CharOf(x % 4 * 16), PadChar, PadChar]
  }

  /** A final pair of bytes: three characters and "=". */
  function EncodeTwo(x: byte, y: byte): (s: seq<byte>)
    ensures |s| == 4 && IsAlphabet(s[0]) && IsAlphabet(s[1]) && IsAlphabet(s[2]) && s[3] == PadChar
  {
    [CharOf(x / 4), CharOf(x % 4 * 16 + y / 16), CharOf(y % 16 * 4), PadChar]
  }

  /** Three bytes, 24 bits, as four 6-bit characters. */
  function EncodeGroup(x: byte, y: byte, z: byte): (s: seq<byte>)
    ensures |s| == 4 && forall i :: 0 <= i < 4 ==> IsAlphabet(s[i])
  {
    [CharOf(x / 4), CharOf(x % 4 * 16 + y / 16), CharOf(y % 16 * 4 + z / 64), CharOf(z % 64)]
  }

  predicate IsLineBreak(c: byte) {
    c == CarriageReturn || c == LineFeed
  }

  /** The input with '\r' and '\n' removed: Go's decoder skips them wherever they occur. */
  function RemoveLineBreaks(s: seq<byte>): (r: seq<byte>)
    ensures forall i :: 0 <= i < |r| ==> !IsLineBreak(r[i])
    ensures forall i :: 0 <= i < |r| ==> r[i] in s
    ensures forall i :: 0 <= i < |s| && !IsLineBreak(s[i]) ==> s[i] in r
    ensures (forall i :: 0 <= i < |s| ==> !IsLineBreak(s[i])) ==> r == s
  {
    if |s| == 0 then []
    else if IsLineBreak(s[0]) then RemoveLineBreaks(s[1..])
    else [s[0]] + RemoveLineBreaks(s[1..])
  }

  /** `base64.StdEncoding.DecodeString`: after line breaks are skipped the
      input must be whole quanta of four characters; only the last quantum may
      end in "==" (one byte) or "=" (two bytes). Bits left over in a padded
      quantum are ignored, as the non-strict decoder does. */
  function Decode(s: seq<byte>): (r: Result<seq<byte>, Base64Error>)
    ensures r.Ok? ==> forall i :: 0 <= i < |s| ==> IsAlphabet(s[i]) || s[i] == PadChar || IsLineBreak(s[i])
  {
    DecodeQuanta(RemoveLineBreaks(s))
  }

  /** A character outside the alphabet, the padding and the line breaks
      makes decoding fail. */
  lemma NonAlphabetRejected(s: seq<byte>, k: nat)
    requires k < |s| && !IsAlphabet(s[k]) && s[k] != PadChar && !IsLineBreak(s[k])
    ensures Decode(s) == Err(IllegalData)
  {
    assert Decode(s).error == IllegalData;
  }

  function DecodeQuanta(s: seq<byte>): (r: Result<seq<byte>, Base64Error>)
    ensures r.Ok? ==> forall i :: 0 <= i < |s| ==> IsAlphabet(s[i]) || s[i] == PadChar
    ensures r.Ok? ==> |r.value| <= |s| / 4 * 3
    decreases |s|
  {
    if |s| == 0 then Ok([])
    else if |s| < 4 then Err(IllegalData)
    else if IsAlphabet(s[0]) && IsAlphabet(s[1]) && IsAlphabet(s[2]) && IsAlphabet(s[3]) then
      match DecodeQuanta(s[4..])
      case Err(e) => Err(e)
      case Ok(rest) => Ok(DecodeGroup(CharValue(s[0]), CharValue(s[1]), CharValue(s[2]), CharValue(s[3])) + rest)
    else if |s| == 4 && IsAlphabet(s[0]) && IsAlphabet(s[1]) && s[2] == PadChar && s[3] == PadChar then
      Ok(DecodeOne(CharValue(s[0]), CharValue(s[1])))
    else if |s| == 4 && IsAlphabet(s[0]) && IsAlphabet(s[1]) && IsAlphabet(s[2]) && s[3] == PadChar then
      Ok(DecodeTwo(CharValue(s[0]), CharValue(s[1]), CharValue(s[2])))
    else Err(IllegalData)
  }

  /** Four 6-bit values as the three bytes they spell. */
  function DecodeGroup(a: nat, b: nat, c: nat, d: nat): (r: seq<byte>)
    requires a < 64 && b < 64 && c < 64 && d < 64
    ensures |r| == 3
  {
    [a * 4 + b / 16, b % 16 * 16 + c / 4, c % 4 * 64 + d]
  }

  /** Two values before "==": one byte; the low bits of `b` are dropped. */
  function DecodeOne(a: nat, b: nat): (r: seq<byte>)
    requires a < 64 && b < 64
    ensures |r| == 1
  {
    [a * 4 + b / 16]
  }

  /** Three values before "=": two bytes; the low bits of `c` are dropped. */
  function DecodeTwo(a: nat, b: nat, c: nat): (r: seq<byte>)
    requires a < 64 && b < 64 && c < 64
    ensures |r| == 2
  {
    [a * 4 + b / 16, b % 16 * 16 + c / 4]
  }

  /** Three bytes survive the trip through four base64 characters. */
  lemma GroupRoundTrip(x: byte, y: byte, z: byte)
    ensures (x / 4) * 4 + (x % 4 * 16 + y / 16) / 16 == x
    ensures (x % 4 * 16 + y / 16) % 16 * 16 + (y % 16 * 4 + z / 64) / 4 == y
    ensures (y % 16 * 4 + z / 64) % 4 * 64 + z % 64 == z
  {
  }

  /** The characters of one group spell its three bytes. */
  lemma GroupDecodes(x: byte, y: byte, z: byte)
    ensures var q := EncodeGroup(x, y, z);
      DecodeGroup(CharValue(q[0]), CharValue(q[1]), CharValue(q[2]), CharValue(q[3])) == [x, y, z]
  {
    var a, b, c, d := x / 4, x % 4 * 16 + y / 16, y % 16 * 4 + z / 64, z % 64;
    var q := EncodeGroup(x, y, z);
    assert q == [CharOf(a), CharOf(b), CharOf(c), CharOf(d)];
    assert CharValue(q[0]) == a && CharValue(q[1]) == b && CharValue(q[2]) == c && CharValue(q[3]) == d;
    GroupBits(x, y, z);
  }

  /** The four 6-bit values of three bytes put back together. */
  lemma GroupBits(x: byte, y: byte, z: byte)
    ensures DecodeGroup(x / 4, x % 4 * 16 + y / 16, y % 16 * 4 + z / 64, z % 64) == [x, y, z]
  {
    GroupRoundTrip(x, y, z);
  }

  lemma DecodeOneByte(x: byte)
    ensures DecodeQuanta(Encode([x])) == Ok([x])
  {
    var q := EncodeOne(x);
    assert Encode([x]) == q;
    PaddedOne(q);
    GroupRoundTrip(x, 0, 0);
    assert DecodeOne(CharValue(q[0]), CharValue(q[1])) == [x];
  }

  lemma DecodeTwoBytes(x: byte, y: byte)
    ensures DecodeQuanta(Encode([x, y])) == Ok([x, y])
  {
    var q := EncodeTwo(x, y);
    assert Encode([x, y]) == q;
    PaddedPair(q);
    PairDecodes(x, y);
  }

  /** A last quantum ending in "==" decodes to one byte. */
  lemma PaddedOne(q: seq<byte>)
    requires |q| == 4 && IsAlphabet(q[0]) && IsAlphabet(q[1]) && q[2] == PadChar && q[3] == PadChar
    ensures DecodeQuanta(q) == Ok(DecodeOne(CharValue(q[0]), CharValue(q[1])))
  {
    assert !IsAlphabet(q[2]);
  }

  /** A last quantum ending in one "=" decodes to two bytes. */
  lemma PaddedPair(q: seq<byte>)
    requires |q| == 4 && IsAlphabet(q[0]) && IsAlphabet(q[1]) && IsAlphabet(q[2]) && q[3] == PadChar
    ensures DecodeQuanta(q) == Ok(DecodeTwo(CharValue(q[0]), CharValue(q[1]), CharValue(q[2])))
  {
    assert !IsAlphabet(q[3]);
  }

  /** The three characters of a final pair spell its two bytes. */
  lemma PairDecodes(x: byte, y: byte)
    ensures var q := EncodeTwo(x, y);
      DecodeTwo(CharValue(q[0]), CharValue(q[1]), CharValue(q[2])) == [x, y]
  {
    var a, b, c := x / 4, x % 4 * 16 + y / 16, y % 16 * 4;
    var q := EncodeTwo(x, y);
    assert q == [CharOf(a), CharOf(b), CharOf(c), PadChar];
    assert CharValue(q[0]) == a && CharValue(q[1]) == b && CharValue(q[2]) == c;
    PairRoundTrip(x, y);
    assert DecodeTwo(a, b, c) == [a * 4 + b / 16, b % 16 * 16 + c / 4];
  }

  /** Two bytes survive the trip through three base64 characters. */
  lemma PairRoundTrip(x: byte, y: byte)
    ensures (x / 4) * 4 + (x % 4 * 16 + y / 16) / 16 == x
    ensures (x % 4 * 16 + y / 16) % 16 * 16 + (y % 16 * 4) / 4 == y
  {
  }

  /** A full quantum decodes to the three bytes it encodes, followed by
      whatever the rest decodes to. */
  lemma DecodeGroupThen(x: byte, y: byte, z: byte, tail: seq<byte>, rest: seq<byte>)
    requires DecodeQuanta(tail) == Ok(rest)
    ensures DecodeQuanta(EncodeGroup(x, y, z) + tail) == Ok([x, y, z] + rest)
  {
    var q := EncodeGroup(x, y, z);
    var s := q + tail;
    assert s[..4] == q && s[4..] == tail;
    assert s[0] == q[0] && s[1] == q[1] && s[2] == q[2] && s[3] == q[3];
    GroupDecodes(x, y, z);
  }

  /** Decoding undoes encoding, quantum by quantum. */
  lemma {:induction false} DecodeQuantaEncode(b: seq<byte>)
    ensures DecodeQuanta(Encode(b)) == Ok(b)
    decreases |b|
  {
    if |b| == 1 {
      assert b == [b[0]];
      DecodeOneByte(b[0]);
    } else if |b| == 2 {
      assert b == [b[0], b[1]];
      DecodeTwoBytes(b[0], b[1]);
    } else if |b| > 2 {
      DecodeQuantaEncode(b[3..]);
      DecodeGroupThen(b[0], b[1], b[2], Encode(b[3..]), b[3..]);
      assert b == [b[0], b[1], b[2]] + b[3..];
    }
  }

  /** Decoding undoes encoding, for every byte string: the encoder never
      writes a line break, so the decoder sees its output unchanged. */
  lemma DecodeEncode(b: seq<byte>)
    ensures Decode(Encode(b)) == Ok(b)
  {
    assert RemoveLineBreaks(Encode(b)) == Encode(b);
    DecodeQuantaEncode(b);
  }
}
