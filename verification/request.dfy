/** Reading one request off a connection, and the PROTECTED switch
    (puzzle/request.go). */
module Requests {
  import opened Results
  import opened Wire
  import opened Decimal
  import opened Challenges
  import opened QuoteRequests

  /** The spellings `strconv.ParseBool` reads as true. */
  const TrueSpellings: set<string> := {"1", "t", "T", "TRUE", "true", "True"}

  /** The spellings `strconv.ParseBool` reads as false. */
  const FalseSpellings: set<string> := {"0", "f", "F", "FALSE", "false", "False"}

  /** `strconv.ParseBool`: six spellings each way, anything else a syntax error. */
  function ParseBool(s: string): (r: Result<bool, NumError>)
    ensures r == Ok(true) <==> s in TrueSpellings
    ensures r == Ok(false) <==> s in FalseSpellings
    ensures r.Err? ==> r.error == ErrSyntax
  {
    match s
    case "1" => Ok(true)
    case "t" => Ok(true)
    case "T" => Ok(true)
    case "TRUE" => Ok(true)
    case "true" => Ok(true)
    case "True" => Ok(true)
    case "0" => Ok(false)
    case "f" => Ok(false)
    case "F" => Ok(false)
    case "FALSE" => Ok(false)
    case "false" => Ok(false)
    case "False" => Ok(false)
    case _ => Err(ErrSyntax)
  }

  /** `ProtectionEnabled` given the PROTECTED environment variable, None
      when it is unset (`os.Getenv` reads that as ""). Protection is on
      unless the value parses as false: unset, empty and unparsable values
      all leave it on. */
  function ProtectionEnabled(env: Option<string>): (on: bool)
    ensures !on <==> env.Some? && env.value in FalseSpellings
    ensures env.None? || env == Some("") ==> on
    ensures env.Some? && env.value in TrueSpellings ==> on
  {
    var protected := match env case None => "" case Some(s) => s;
    if protected == "" then true
    else match ParseBool(protected)
      case Err(_) => true
      case Ok(value) => value
  }

  /** What ReadRequest hands back: `protocol.ChallengeRequest{}` or a parsed
      `protocol.QuoteRequest`. */
  datatype Request = ChallengeRequest | Quote(quote: QuoteRequest)

  datatype RequestError =
    | Malformed(cause: QuoteError)   // ParseQuoteRequest's error, passed through
    | InvalidRequest                 // "invalid request": input ended before a non-empty line

  /** ASCII upper-casing of one byte. */
  function ToUpper(c: byte): byte {
    if 97 <= c <= 122 then c - 32 else c
  }

  /** `bytes.EqualFold(token, Hello)`. "HELLO" has no letter whose Unicode
      case orbit leaves ASCII, so the fold is a byte-wise ASCII comparison
      of five bytes. */
  predicate IsHello(token: seq<byte>) {
    |token| == |Hello| && forall i :: 0 <= i < |token| ==> token[i] == Hello[i] || token[i] == Hello[i] + 32
  }

  /** IsHello agrees with upper-casing the token and comparing. */
  lemma {:induction false} IsHelloByUpperCase(token: seq<byte>)
    ensures IsHello(token) <==> seq(|token|, i requires 0 <= i < |token| => ToUpper(token[i])) == Hello
  {
    var up := seq(|token|, i requires 0 <= i < |token| => ToUpper(token[i]));
    if IsHello(token) {
      forall i | 0 <= i < |token| ensures up[i] == Hello[i] {
        assert 65 <= Hello[i] <= 90;
      }
    }
    if up == Hello {
      forall i | 0 <= i < |token| ensures token[i] == Hello[i] || token[i] == Hello[i] + 32 {
        assert ToUpper(token[i]) == Hello[i];
      }
    }
  }

  /** What one non-empty line is read as: HELLO in any case asks for a
      challenge; anything else is a quote request or the reason it is not. */
  function Decide(token: seq<byte>): (r: Result<Request, RequestError>)
    ensures r == Ok(ChallengeRequest) <==> IsHello(token)
    ensures !IsHello(token) ==> (r.Ok? <==> ParseQuoteRequest(token).Ok?)
    ensures r.Ok? && r.value.Quote? ==> ParseQuoteRequest(token) == Ok(r.value.quote)
    ensures r.Err? ==> ParseQuoteRequest(token).Err? && r.error == Malformed(ParseQuoteRequest(token).error)
  {
    if IsHello(token) then Ok(ChallengeRequest)
    else match ParseQuoteRequest(token)
      case Ok(q) => Ok(Quote(q))
      case Err(e) => Err(Malformed(e))
  }

  /** A HELLO token holds no separator, so it never parses as a quote request:
      which of the two is tried first makes no difference. */
  lemma HelloNotQuote(token: seq<byte>)
    requires IsHello(token)
    ensures ParseQuoteRequest(token) == Err(WrongFieldCount(1, FieldCount))
  {
    forall i | 0 <= i < |token| ensures token[i] != Dash {
      assert token[i] == Hello[i] || token[i] == Hello[i] + 32;
    }
    SplitNUncut(token, FieldCount);
  }

  /** `k` is the first non-empty line. */
  predicate FirstNonEmptyAt(lines: seq<seq<byte>>, k: nat) {
    k < |lines| && |lines[k]| > 0 && forall j :: 0 <= j < k ==> |lines[j]| == 0
  }

  predicate AllEmpty(lines: seq<seq<byte>>) {
    forall j :: 0 <= j < |lines| ==> |lines[j]| == 0
  }

  /** `ReadRequest` over the lines the scanner yields: empty lines are
      skipped and the first non-empty one alone decides the answer;
      running out of lines is "invalid request". */
  function ReadRequest(lines: seq<seq<byte>>): (r: Result<Request, RequestError>)
    ensures AllEmpty(lines) ==> r == Err(InvalidRequest)
    ensures forall k: nat :: FirstNonEmptyAt(lines, k) ==> r == Decide(lines[k])
    decreases |lines|
  {
    if |lines| == 0 then Err(InvalidRequest)
    else if |lines[0]| == 0 then
      var r := ReadRequest(lines[1..]);
      forall k: nat | FirstNonEmptyAt(lines, k) ensures k > 0 && FirstNonEmptyAt(lines[1..], k - 1) {
        forall j | 0 <= j < k - 1 ensures |lines[1..][j]| == 0 {
          assert lines[1..][j] == lines[j + 1];
        }
      }
      r
    else Decide(lines[0])
  }

  /** Exactly the all-empty inputs are invalid requests: a non-empty line is
      always answered with a request or a parse error. */
  lemma {:induction false} InvalidRequestOnlyWhenAllEmpty(lines: seq<seq<byte>>)
    ensures ReadRequest(lines) == Err(InvalidRequest) <==> AllEmpty(lines)
    decreases |lines|
  {
    if |lines| > 0 {
      InvalidRequestOnlyWhenAllEmpty(lines[1..]);
      if |lines[0]| == 0 {
        assert AllEmpty(lines) <==> AllEmpty(lines[1..]);
      } else {
        assert !AllEmpty(lines);
      }
    }
  }

  /** Lines after the first non-empty one are never read. */
  lemma {:induction false} LaterLinesIgnored(lines: seq<seq<byte>>, more: seq<seq<byte>>)
    requires !AllEmpty(lines)
    ensures ReadRequest(lines + more) == ReadRequest(lines)
  {
    var k :| 0 <= k < |lines| && |lines[k]| > 0;
    var first := FirstIndex(lines, k);
    assert FirstNonEmptyAt(lines + more, first);
  }

  /** The first non-empty line, given that line `k` is one. */
  lemma {:induction false} FirstIndex(lines: seq<seq<byte>>, k: nat) returns (first: nat)
    requires k < |lines| && |lines[k]| > 0
    ensures first <= k && FirstNonEmptyAt(lines, first)
    decreases k
  {
    if k == 0 || AllEmpty(lines[..k]) {
      first := k;
      assert forall j :: 0 <= j < k ==> lines[..k][j] == lines[j];
    } else {
      var j :| 0 <= j < k && |lines[..k][j]| > 0;
      first := FirstIndex(lines, j);
    }
  }

  /** request_test.go: "HELLO" and "hello" alone ask for a challenge. */
  lemma HelloVectors()
    ensures ReadRequest([Hello]) == Ok(ChallengeRequest)
    ensures ReadRequest([[104, 101, 108, 108, 111]]) == Ok(ChallengeRequest)   // "hello"
  {
    assert FirstNonEmptyAt([Hello], 0);
    assert IsHello([104, 101, 108, 108, 111]);
    assert FirstNonEmptyAt([[104, 101, 108, 108, 111]], 0);
  }

  /** request_test.go: no input, or only empty lines, is an invalid request. */
  lemma EmptyInputVectors()
    ensures ReadRequest([]) == Err(InvalidRequest)
    ensures ReadRequest([[], []]) == Err(InvalidRequest)
  {
    assert AllEmpty([[], []]);
  }
}
