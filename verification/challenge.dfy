/** The challenge a server hands out (protocol/hello.go): a nonce and a
    complexity, written as `dec(nonce) "--" dec(complexity)`. */
module Challenges {
  import opened Results
  import opened Wire
  import opened Decimal

  /** The token a client sends to ask for a challenge. */
  const Hello: seq<byte> := [72, 69, 76, 76, 79]   // "HELLO"

  /** Complexity is Go's `int`, 64 bits wide here. */
  datatype Challenge = Challenge(nonce: uint64, complexity: int64)

  datatype ChallengeError =
    | NonceInvalid(cause: NumError)        // strconv.ParseUint rejected the first field
    | ComplexityInvalid(cause: NumError)   // strconv.ParseInt rejected the second field
    | IndexOutOfRange                      // no separator: Go indexes parts[1] of a one-element slice and panics

  /** `Challenge.Bytes`. The first separator of the output sits right after the
      nonce digits, so splitting there gives the nonce and the complexity back. */
  function Bytes(c: Challenge): (s: seq<byte>)
    ensures var parts := SplitN(s, 2);
      && |parts| == 2
      && AllDigits(parts[0]) && Value(parts[0]) == c.nonce
      && IsSignedText(parts[1]) && SignedValue(parts[1]) == c.complexity
    ensures SplitN(s, 2) == [FormatUint(c.nonce), FormatInt(c.complexity)]
  {
    var nonce, complexity := FormatUint(c.nonce), FormatInt(c.complexity);
    DigitsAreCleanField(nonce);
    SplitNJoin([nonce, complexity], 2);
    nonce + Separator + complexity
  }

  /** `ChallengeFromBytes`: split at the first `--` only, parse the nonce
      first and the complexity second; the first failure is returned. */
  function ChallengeFromBytes(bs: seq<byte>): (r: Result<Challenge, ChallengeError>)
    ensures var parts := SplitN(bs, 2);
      r.Ok? <==> && |parts| == 2
                 && IsUintText(parts[0], MaxUint64)
                 && IsSignedText(parts[1]) && MinInt64 <= SignedValue(parts[1]) <= MaxInt64
    ensures var parts := SplitN(bs, 2);
      r.Ok? ==> r.value.nonce == Value(parts[0]) && r.value.complexity == SignedValue(parts[1])
    ensures var parts := SplitN(bs, 2);
      !IsUintText(parts[0], MaxUint64) ==> r == Err(NonceInvalid(ParseUint(parts[0], MaxUint64).error))
    ensures r == Err(IndexOutOfRange) <==> !ContainsSeparator(bs) && IsUintText(bs, MaxUint64)
    ensures var parts := SplitN(bs, 2);
      |parts| == 2 && IsUintText(parts[0], MaxUint64) && ParseInt64(parts[1]).Err?
      ==> r == Err(ComplexityInvalid(ParseInt64(parts[1]).error))
  {
    var parts := SplitN(bs, 2);
    match ParseUint(parts[0], MaxUint64)
    case Err(e) => Err(NonceInvalid(e))
    case Ok(nonce) =>
      if |parts| < 2 then Err(IndexOutOfRange)
      else match ParseInt64(parts[1])
        case Err(e) => Err(ComplexityInvalid(e))
        case Ok(complexity) => Ok(Challenge(nonce, complexity))
  }

  /** Every challenge, negative complexity and both 64-bit extremes included,
      decodes to itself. */
  lemma ChallengeRoundTrip(c: Challenge)
    ensures ChallengeFromBytes(Bytes(c)) == Ok(c)
  {
  }

  /** Only the first separator splits: once the nonce field is cut off, any
      further `--` lands in the complexity field, which then fails to parse. */
  lemma ExtraSeparatorRejected(nonce: uint64, rest: seq<byte>)
    requires ContainsSeparator(rest)
    ensures var r := ChallengeFromBytes(FormatUint(nonce) + Separator + rest);
      r.Err? && r.error.ComplexityInvalid?
  {
    var a := FormatUint(nonce);
    DigitsAreCleanField(a);
    ParseFormatUint(nonce, MaxUint64);
    FromFields(a, rest);
    var k :| 0 <= k < |rest| && SeparatorAt(rest, k);
    var digits := StripSign(rest).1;
    assert !AllDigits(digits) by {
      if |rest| > 0 && (rest[0] == Plus || rest[0] == Dash) {
        assert digits[k] == rest[k + 1];
      } else {
        assert digits[k] == rest[k];
      }
    }
    assert ParseInt64(rest).Err?;
  }

  /** A clean first field followed by `--`: the two fields are exactly the
      text either side of that separator. */
  lemma FieldsOf(a: seq<byte>, b: seq<byte>)
    requires IsCleanField(a)
    ensures SplitN(a + Separator + b, 2) == [a, b]
  {
    SplitNJoin([a, b], 2);
  }

  /** A clean first field followed by `--` is decoded field by field: the
      nonce's error first, then the complexity's. */
  lemma FromFields(a: seq<byte>, b: seq<byte>)
    requires IsCleanField(a)
    ensures ChallengeFromBytes(a + Separator + b) ==
      match ParseUint(a, MaxUint64)
      case Err(e) => Err(NonceInvalid(e))
      case Ok(nonce) =>
        match ParseInt64(b)
        case Err(e) => Err(ComplexityInvalid(e))
        case Ok(complexity) => Ok(Challenge(nonce, complexity))
  {
    FieldsOf(a, b);
  }

  /** A nonce followed by a dash is read with a negative complexity: the
      first `--` is the separator, the third '-' the sign. */
  lemma NegativeComplexityAfterSeparator(nonce: uint64, magnitude: int)
    requires 0 <= magnitude <= -MinInt64
    ensures var r := ChallengeFromBytes(FormatUint(nonce) + Separator + [Dash] + FormatUint(magnitude));
      r.Ok? && r.value.nonce == nonce && r.value.complexity == -magnitude
  {
    var a, digits := FormatUint(nonce), FormatUint(magnitude);
    var b := [Dash] + digits;
    DigitsAreCleanField(a);
    assert a + Separator + [Dash] + digits == a + Separator + b;
    FromFields(a, b);
    ParseFormatUint(nonce, MaxUint64);
    ParseNegated(digits);
  }

  /** A nonce past 2^64 - 1 is a range error, whatever follows the separator. */
  lemma NonceOutOfRange(n: nat, rest: seq<byte>)
    requires n > MaxUint64
    ensures ChallengeFromBytes(FormatUint(n) + Separator + rest) == Err(NonceInvalid(ErrRange))
  {
    var a := FormatUint(n);
    DigitsAreCleanField(a);
    FromFields(a, rest);
    DigitRunAll(a);
    assert ParseUint(a, MaxUint64) == Err(ErrRange);
  }

  /** An unsigned complexity past 2^63 - 1 is a range error, even when it
      fits 64 unsigned bits. */
  lemma ComplexityOutOfRange(nonce: uint64, m: nat)
    requires m > MaxInt64
    ensures ChallengeFromBytes(FormatUint(nonce) + Separator + FormatUint(m)) == Err(ComplexityInvalid(ErrRange))
  {
    var a, b := FormatUint(nonce), FormatUint(m);
    DigitsAreCleanField(a);
    FromFields(a, b);
    ParseFormatUint(nonce, MaxUint64);
    assert StripSign(b) == (false, b);
    assert ParseInt64(b) == Err(ErrRange);
  }

  /** hello_test.go: "111--222" decodes to nonce 111, complexity 222. */
  lemma SimpleChallengeVector()
    ensures ChallengeFromBytes([49, 49, 49, 45, 45, 50, 50, 50]) == Ok(Challenge(111, 222))   // "111--222"
  {
    var a, b: seq<byte> := [49, 49, 49], [50, 50, 50];
    assert [49, 49, 49, 45, 45, 50, 50, 50] == a + Separator + b;
    DigitsAreCleanField(a);
    FromFields(a, b);
    ValueOfThree(a);
    ValueOfThree(b);
    assert ParseUint(a, MaxUint64) == Ok(111);
    assert StripSign(b) == (false, b);
    assert ParseInt64(b) == Ok(222);
  }

  /** hello_test.go: nonce 111, complexity 222 encode to "111--222". */
  lemma SimpleBytesVector()
    ensures Bytes(Challenge(111, 222)) == [49, 49, 49, 45, 45, 50, 50, 50]   // "111--222"
  {
    assert FormatUint(111) == [49, 49, 49];
    assert FormatInt(222) == [50, 50, 50];
  }

  /** hello_test.go: "aaaa--222" fails in the nonce field. */
  lemma BadNonceVector()
    ensures ChallengeFromBytes([97, 97, 97, 97, 45, 45, 50, 50, 50]) == Err(NonceInvalid(ErrSyntax))   // "aaaa--222"
  {
    var a, b: seq<byte> := [97, 97, 97, 97], [50, 50, 50];
    assert [97, 97, 97, 97, 45, 45, 50, 50, 50] == a + Separator + b;
    assert IsCleanField(a);
    FromFields(a, b);
    assert DigitRun(a) == 0 && a[..0] == [];
    assert ParseUint(a, MaxUint64) == Err(ErrSyntax);
  }

  /** hello_test.go: "111--bbbb" fails in the complexity field. */
  lemma BadComplexityVector()
    ensures ChallengeFromBytes([49, 49, 49, 45, 45, 98, 98, 98, 98]) == Err(ComplexityInvalid(ErrSyntax))   // "111--bbbb"
  {
    var a, b: seq<byte> := [49, 49, 49], [98, 98, 98, 98];
    assert [49, 49, 49, 45, 45, 98, 98, 98, 98] == a + Separator + b;
    DigitsAreCleanField(a);
    FromFields(a, b);
    ValueOfThree(a);
    assert ParseUint(a, MaxUint64) == Ok(111);
    assert StripSign(b) == (false, b) && DigitRun(b) == 0 && b[..0] == [];
    assert ParseInt64(b) == Err(ErrSyntax);
  }

  /** hello_test.go: in "111--222--333" the second field "222--333" is not an integer. */
  lemma ThreeFieldVector()
    ensures ChallengeFromBytes([49, 49, 49, 45, 45, 50, 50, 50, 45, 45, 51, 51, 51]) == Err(ComplexityInvalid(ErrSyntax))   // "111--222--333"
  {
    var a, b: seq<byte> := [49, 49, 49], [50, 50, 50, 45, 45, 51, 51, 51];
    assert [49, 49, 49, 45, 45, 50, 50, 50, 45, 45, 51, 51, 51] == a + Separator + b;
    DigitsAreCleanField(a);
    FromFields(a, b);
    ValueOfThree(a);
    assert ParseUint(a, MaxUint64) == Ok(111);
    assert StripSign(b) == (false, b) && !IsDigit(b[3]);
    ThreeDigitRun(b);
    assert !AllDigits(b);
    assert ParseInt64(b) == Err(ErrSyntax);
  }

  lemma ThreeDigitRun(b: seq<byte>)
    requires |b| > 3 && IsDigit(b[0]) && IsDigit(b[1]) && IsDigit(b[2]) && !IsDigit(b[3])
    ensures DigitRun(b) == 3 && Value(b[..DigitRun(b)]) < 1000
  {
    DigitRunAtLeast(b, 3);
    ValueOfThree(b[..3]);
  }

  /** The value of a three-digit string. */
  lemma ValueOfThree(s: seq<byte>)
    requires |s| == 3 && AllDigits(s)
    ensures Value(s) == (s[0] - Zero) * 100 + (s[1] - Zero) * 10 + (s[2] - Zero)
  {
    var s2, s1 := s[..2], s[..1];
    assert s2[..1] == s1 && s1[..0] == [];
    assert Value(s1) == s[0] - Zero;
    assert Value(s2) == (s[0] - Zero) * 10 + (s[1] - Zero);
  }
}
