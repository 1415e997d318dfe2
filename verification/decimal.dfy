/** Decimal text for Go's `strconv.ParseUint(s, 10, bits)`, `strconv.ParseInt(s, 10, 64)`,
    `strconv.FormatUint(n, 10)` and `strconv.FormatInt(x, 10)`, the number encodings
    of the challenge, the quote request and the hash preimage. */
module Decimal {
  import opened Results
  import opened Wire

  const MaxUint64: nat := 0xFFFF_FFFF_FFFF_FFFF
  const MaxUint16: nat := 0xFFFF
  const MaxInt64: int := 0x7FFF_FFFF_FFFF_FFFF
  const MinInt64: int := -0x8000_0000_0000_0000

  type uint64 = x: int | 0 <= x <= 0xFFFF_FFFF_FFFF_FFFF
  /** Go's `int`, taken to be 64 bits wide as on the platforms the program targets. */
  type int64 = x: int | -0x8000_0000_0000_0000 <= x <= 0x7FFF_FFFF_FFFF_FFFF

  /** `strconv.ErrSyntax` and `strconv.ErrRange`. */
  datatype NumError = ErrSyntax | ErrRange

  const Zero: byte := 48   // '0'
  const Plus: byte := 43   // '+'

  predicate IsDigit(b: byte) {
    Zero <= b <= Zero + 9
  }

  predicate AllDigits(s: seq<byte>) {
    forall i :: 0 <= i < |s| ==> IsDigit(s[i])
  }

  /** The number a digit string denotes, most significant digit first. */
  function Value(s: seq<byte>): nat
    requires AllDigits(s)
  {
    if |s| == 0 then 0 else Value(s[..|s| - 1]) * 10 + (s[|s| - 1] - Zero)
  }

  /** Text `strconv.ParseUint` accepts for a maximum of `max`: one or more digits
      (leading zeros allowed) denoting at most `max`. */
  predicate IsUintText(s: seq<byte>, max: nat) {
    |s| > 0 && AllDigits(s) && Value(s) <= max
  }

  /** `strconv.ParseUint(s, 10, bits)` with `max == 2^bits - 1`. The digits are
      scanned left to right and the first problem found wins: a non-digit is a
      syntax error, an accumulated value past `max` a range error, even when a
      non-digit follows later. */
  function ParseUint(s: seq<byte>, max: nat): (r: Result<nat, NumError>)
    ensures r.Ok? <==> IsUintText(s, max)
    ensures r.Ok? ==> r.value == Value(s)
    ensures r == Err(ErrRange) <==> Value(s[..DigitRun(s)]) > max
    ensures r == Err(ErrSyntax) <==> !IsUintText(s, max) && Value(s[..DigitRun(s)]) <= max
  {
    if |s| == 0 then
      assert s[..DigitRun(s)] == [];
      Err(ErrSyntax)
    else
      ScanAccepts(s, 0, 0, max);
      ScanRange(s, 0, 0, max);
      var r := Scan(s, 0, 0, max);
      assert r.Err? ==> r.error == ErrSyntax || r.error == ErrRange;
      r
  }

  /** The length of the run of digits `s` starts with. */
  function DigitRun(s: seq<byte>): (k: nat)
    ensures k <= |s| && AllDigits(s[..k])
    ensures k < |s| ==> !IsDigit(s[k])
  {
    if |s| == 0 || !IsDigit(s[0]) then 0
    else
      var k := 1 + DigitRun(s[1..]);
      assert forall j :: 1 <= j < k ==> s[..k][j] == s[1..][..k - 1][j - 1];
      k
  }

  /** An all-digit string is one digit run. */
  lemma DigitRunAll(s: seq<byte>)
    ensures AllDigits(s) ==> DigitRun(s) == |s| && s[..DigitRun(s)] == s
  {
    if AllDigits(s) {
      assert s[..|s|] == s;
      DigitRunAtLeast(s, |s|);
    }
  }

  /** Digits up to `i` put the end of the digit run at or after `i`. */
  lemma {:induction false} DigitRunAtLeast(s: seq<byte>, i: nat)
    requires i <= |s| && AllDigits(s[..i])
    ensures i <= DigitRun(s)
    decreases i
  {
    if i > 0 {
      var t, head := s[1..], s[..i];
      var u := t[..i - 1];
      assert head[0] == s[0];
      forall j | 0 <= j < |u| ensures IsDigit(u[j]) {
        assert u[j] == head[j + 1];
      }
      DigitRunAtLeast(t, i - 1);
    }
  }

  /** The digit loop of `strconv.ParseUint` from position `i` with `acc` accumulated so far. */
  function Scan(s: seq<byte>, i: nat, acc: nat, max: nat): Result<nat, NumError>
    requires i <= |s|
    decreases |s| - i
  {
    if i == |s| then Ok(acc)
    else if !IsDigit(s[i]) then Err(ErrSyntax)
    else if acc * 10 + (s[i] - Zero) > max then Err(ErrRange)
    else Scan(s, i + 1, acc * 10 + (s[i] - Zero), max)
  }

  /** A digit string is worth at least as much as any of its prefixes. */
  lemma {:induction false} ValuePrefix(s: seq<byte>, k: nat)
    requires AllDigits(s)
    requires k <= |s|
    ensures Value(s[..k]) <= Value(s)
    decreases |s|
  {
    if k == |s| {
      assert s[..k] == s;
    } else {
      var init := s[..|s| - 1];
      assert init[..k] == s[..k];
      ValuePrefix(init, k);
      assert Value(s) == Value(init) * 10 + (s[|s| - 1] - Zero);
    }
  }

  /** The scan from position `i` accepts exactly the all-digit strings
      worth at most `max`, with their value. */
  lemma {:induction false} ScanAccepts(s: seq<byte>, i: nat, acc: nat, max: nat)
    requires i <= |s|
    requires AllDigits(s[..i])
    requires acc == Value(s[..i]) <= max
    ensures var r := Scan(s, i, acc, max);
      && (r.Ok? <==> AllDigits(s) && Value(s) <= max)
      && (r.Ok? ==> r.value == Value(s))
    decreases |s| - i
  {
    if i == |s| {
      assert s[..i] == s;
    } else if IsDigit(s[i]) {
      var next := s[..i + 1];
      assert next[..i] == s[..i];
      assert Value(next) == acc * 10 + (s[i] - Zero);
      if Value(next) > max {
        if AllDigits(s) {
          ValuePrefix(s, i + 1);
        }
      } else {
        ScanAccepts(s, i + 1, Value(next), max);
      }
    }
  }

  /** The scan from position `i` stops with a range error exactly when the
      leading digit run is worth more than `max`. */
  lemma {:induction false} ScanRange(s: seq<byte>, i: nat, acc: nat, max: nat)
    requires i <= |s|
    requires AllDigits(s[..i])
    requires acc == Value(s[..i]) <= max
    ensures Scan(s, i, acc, max) == Err(ErrRange) <==> Value(s[..DigitRun(s)]) > max
    decreases |s| - i
  {
    DigitRunAtLeast(s, i);
    if i == |s| {
      assert s[..i] == s;
    } else if !IsDigit(s[i]) {
      assert DigitRun(s) == i;
    } else {
      var next := s[..i + 1];
      assert next[..i] == s[..i];
      assert Value(next) == acc * 10 + (s[i] - Zero);
      if Value(next) > max {
        OverflowingPrefix(s, i + 1, max);
      } else {
        ScanRange(s, i + 1, Value(next), max);
      }
    }
  }

  /** Once a prefix of digits is worth more than `max`, so is the whole
      digit run. */
  lemma OverflowingPrefix(s: seq<byte>, k: nat, max: nat)
    requires k <= |s| && AllDigits(s[..k]) && Value(s[..k]) > max
    ensures Value(s[..DigitRun(s)]) > max
  {
    var run := s[..DigitRun(s)];
    DigitRunAtLeast(s, k);
    assert run[..k] == s[..k];
    ValuePrefix(run, k);
  }

  /** `strconv.FormatUint(n, 10)`: the canonical digits of `n`. */
  function FormatUint(n: nat): (r: seq<byte>)
    ensures |r| > 0 && AllDigits(r) && Value(r) == n
    ensures r[0] == Zero ==> n == 0 && |r| == 1
    decreases n
  {
    if n < 10 then [Zero + n]
    else
      var r := FormatUint(n / 10) + [Zero + n % 10];
      assert r[..|r| - 1] == FormatUint(n / 10);
      r
  }

  /** Decimal text as `strconv` writes it: one or more digits, and no leading
      zero unless the text is "0" itself. */
  predicate IsCanonical(s: seq<byte>) {
    |s| > 0 && AllDigits(s) && (s[0] == Zero ==> |s| == 1)
  }

  /** FormatUint writes the only canonical text of a number: any canonical
      digit string is what FormatUint writes for its value. */
  lemma {:induction false} CanonicalUnique(s: seq<byte>)
    requires IsCanonical(s)
    ensures FormatUint(Value(s)) == s
    decreases |s|
  {
    if |s| > 1 {
      var init, last := s[..|s| - 1], s[|s| - 1];
      LeadingDigitPositive(init);
      CanonicalUnique(init);
      FormatUintStep(Value(init), last - Zero);
      assert s == init + [last];
    }
  }

  /** Digits that do not start with '0' are worth at least one. */
  lemma LeadingDigitPositive(s: seq<byte>)
    requires |s| > 0 && AllDigits(s) && s[0] != Zero
    ensures Value(s) >= 1
  {
    assert s[..1][..0] == [];
    ValuePrefix(s, 1);
  }

  /** One more digit after a non-zero number is one more character of its text. */
  lemma FormatUintStep(q: nat, d: nat)
    requires q >= 1 && d < 10
    ensures FormatUint(q * 10 + d) == FormatUint(q) + [Zero + d]
  {
    var n := q * 10 + d;
    assert n / 10 == q && n % 10 == d;
  }

  /** A leading '+' or '-' taken off, as `strconv.ParseInt` does before reading digits. */
  function StripSign(s: seq<byte>): (bool, seq<byte>) {
    if |s| > 0 && s[0] == Plus then (false, s[1..])
    else if |s| > 0 && s[0] == Dash then (true, s[1..])
    else (false, s)
  }

  /** Text `strconv.ParseInt` reads as a number: an optional sign, then one or more digits. */
  predicate IsSignedText(s: seq<byte>) {
    var (_, digits) := StripSign(s);
    |digits| > 0 && AllDigits(digits)
  }

  function SignedValue(s: seq<byte>): int
    requires IsSignedText(s)
  {
    var (negative, digits) := StripSign(s);
    var magnitude: int := Value(digits);
    if negative then -magnitude else magnitude
  }

  /** `strconv.ParseInt(s, 10, 64)`: the sign is taken off, the rest goes
      through ParseUint with the unsigned 64-bit maximum, and the magnitude is
      then checked against the signed range. */
  function ParseInt64(s: seq<byte>): (r: Result<int64, NumError>)
    ensures r.Ok? <==> IsSignedText(s) && MinInt64 <= SignedValue(s) <= MaxInt64
    ensures r.Ok? ==> r.value == SignedValue(s)
    ensures r == Err(ErrRange) <==>
            || Value(StripSign(s).1[..DigitRun(StripSign(s).1)]) > MaxUint64
            || (IsSignedText(s) && !(MinInt64 <= SignedValue(s) <= MaxInt64))
  {
    if |s| == 0 then
      assert StripSign(s).1[..DigitRun(StripSign(s).1)] == [];
      Err(ErrSyntax)
    else
      var (negative, digits) := StripSign(s);
      DigitRunAll(digits);
      match ParseUint(digits, MaxUint64)
      case Err(ErrSyntax) => Err(ErrSyntax)
      case Err(ErrRange) => Err(ErrRange)
      case Ok(magnitude) =>
        if !negative && magnitude > MaxInt64 then Err(ErrRange)
        else if negative && magnitude > -MinInt64 then Err(ErrRange)
        else Ok(if negative then 0 - magnitude else magnitude)
  }

  /** `strconv.FormatInt(x, 10)`: a '-' for negative values, then the digits of the magnitude.
      There is never a '+', and the magnitude is written without leading zeros. */
  function FormatInt(x: int): (r: seq<byte>)
    ensures IsSignedText(r) && SignedValue(r) == x
    ensures r[0] == Dash <==> x < 0
    ensures IsCanonical(if x < 0 then r[1..] else r)
  {
    if x < 0 then
      var r := [Dash] + FormatUint(-x);
      assert StripSign(r).1 == FormatUint(-x);
      r
    else FormatUint(x)
  }

  /** Decimal text contains no '-', so it never holds a separator nor ends in one. */
  lemma DigitsAreCleanField(s: seq<byte>)
    requires AllDigits(s)
    ensures IsCleanField(s)
  {
  }

  /** ParseUint reads back what FormatUint writes. */
  lemma ParseFormatUint(n: nat, max: nat)
    requires n <= max
    ensures ParseUint(FormatUint(n), max) == Ok(n)
  {
  }

  /** ParseInt64 reads back what FormatInt writes, negative values and both
      ends of the 64-bit range included. */
  lemma ParseFormatInt(x: int64)
    ensures ParseInt64(FormatInt(x)) == Ok(x)
  {
  }

  /** A '-' in front of digits worth at most 2^63 reads as their negation. */
  lemma ParseNegated(digits: seq<byte>)
    requires |digits| > 0 && AllDigits(digits) && Value(digits) <= -MinInt64
    ensures ParseInt64([Dash] + digits) == Ok(0 - Value(digits) as int)
  {
    var s := [Dash] + digits;
    assert StripSign(s) == (true, digits);
  }

  /** Distinct numbers have distinct decimal text. */
  lemma FormatUintInjective(m: nat, n: nat)
    requires FormatUint(m) == FormatUint(n)
    ensures m == n
  {
  }
}
