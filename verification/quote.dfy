/** The solved-puzzle submission (protocol/quote.go):
    `ServerID--ClientID--dec(ns)--dec(nc)--base64(solution)`. */
module QuoteRequests {
  import opened Results
  import opened Wire
  import opened Decimal
  import Base64

  /** Longest input ParseQuoteRequest looks at: 64 KiB. */
  const MaxSolutionLength: nat := 1024 * 64

  const FieldServerId: nat := 0
  const FieldClientId: nat := 1
  const FieldServerNonce: nat := 2
  const FieldClientNonce: nat := 3
  const FieldSolution: nat := 4
  /** The number of fields, `quoteRequestEOF`. */
  const FieldCount: nat := 5

  /** What the proof of work is computed over. */
  datatype HashData = HashData(clientId: seq<byte>, nonceServer: uint64, nonceClient: uint64, solution: seq<byte>)

  datatype QuoteRequest = QuoteRequest(serverId: seq<byte>, hashData: HashData)

  /** The zero value ParseQuoteRequest starts filling in. */
  const EmptyRequest := QuoteRequest([], HashData([], 0, 0, []))

  datatype FieldCause = NumberInvalid(num: NumError) | SolutionInvalid(b64: Base64.Base64Error)

  datatype QuoteError =
    | TooLong(length: nat)                          // "solution is too long"
    | WrongFieldCount(actual: nat, expected: nat)   // "number of fields in solution is invalid"
    | FieldInvalid(index: nat, cause: FieldCause)   // "field: <index>: <cause>"

  /** What field `i` of the split text must look like for parsing to go past it. */
  predicate FieldParses(fields: seq<seq<byte>>, i: nat)
    requires |fields| == FieldCount && i < FieldCount
  {
    if i == FieldServerNonce || i == FieldClientNonce then IsUintText(fields[i], MaxUint64)
    else if i == FieldSolution then Base64.Decode(fields[i]).Ok?
    else true
  }

  /** Request `q` carries what field `i` of `fields` says. */
  predicate Holds(q: QuoteRequest, fields: seq<seq<byte>>, i: nat)
    requires |fields| == FieldCount && i < FieldCount
  {
    if i == FieldServerId then q.serverId == fields[i]
    else if i == FieldClientId then q.hashData.clientId == fields[i]
    else if i == FieldServerNonce then IsUintText(fields[i], MaxUint64) && q.hashData.nonceServer == Value(fields[i])
    else if i == FieldClientNonce then IsUintText(fields[i], MaxUint64) && q.hashData.nonceClient == Value(fields[i])
    else Base64.Decode(fields[i]) == Ok(q.hashData.solution)
  }

  /** Requests `p` and `q` agree on field `i`. */
  predicate SameField(p: QuoteRequest, q: QuoteRequest, i: nat) {
    if i == FieldServerId then p.serverId == q.serverId
    else if i == FieldClientId then p.hashData.clientId == q.hashData.clientId
    else if i == FieldServerNonce then p.hashData.nonceServer == q.hashData.nonceServer
    else if i == FieldClientNonce then p.hashData.nonceClient == q.hashData.nonceClient
    else p.hashData.solution == q.hashData.solution
  }

  /** The error a failing field reports: a nonce field carries ParseUint's
      own error, the solution field base64's. */
  function FailureCause(fields: seq<seq<byte>>, i: nat): (c: FieldCause)
    requires |fields| == FieldCount && i < FieldCount && !FieldParses(fields, i)
    ensures c.SolutionInvalid? <==> i == FieldSolution
  {
    if i == FieldSolution then SolutionInvalid(Base64.Decode(fields[i]).error)
    else if i == FieldServerNonce || i == FieldClientNonce then NumberInvalid(ParseUint(fields[i], MaxUint64).error)
    else NumberInvalid(ErrSyntax)
  }

  /** One turn of the field loop: field `i` parsed into `q`. */
  function SetField(q: QuoteRequest, fields: seq<seq<byte>>, i: nat): (r: Result<QuoteRequest, FieldCause>)
    requires |fields| == FieldCount && i < FieldCount
    ensures r.Ok? <==> FieldParses(fields, i)
    ensures r.Ok? ==> Holds(r.value, fields, i)
    ensures r.Ok? ==> forall j :: 0 <= j < FieldCount && j != i ==> SameField(r.value, q, j)
    ensures r.Err? && (i == FieldServerNonce || i == FieldClientNonce)
            ==> r.error == NumberInvalid(ParseUint(fields[i], MaxUint64).error)
    ensures r.Err? && i == FieldSolution ==> r.error == SolutionInvalid(Base64.Decode(fields[i]).error)
    ensures r.Err? ==> r.error == FailureCause(fields, i)
  {
    var text := fields[i];
    if i == FieldServerId then Ok(q.(serverId := text))
    else if i == FieldClientId then Ok(q.(hashData := q.hashData.(clientId := text)))
    else if i == FieldServerNonce then
      match ParseUint(text, MaxUint64)
      case Err(e) => Err(NumberInvalid(e))
      case Ok(n) => Ok(q.(hashData := q.hashData.(nonceServer := n)))
    else if i == FieldClientNonce then
      match ParseUint(text, MaxUint64)
      case Err(e) => Err(NumberInvalid(e))
      case Ok(n) => Ok(q.(hashData := q.hashData.(nonceClient := n)))
    else
      match Base64.Decode(text)
      case Err(e) => Err(SolutionInvalid(e))
      case Ok(b) => Ok(q.(hashData := q.hashData.(solution := b)))
  }

  /** The field loop from field `i` on: fields in index order, the first
      failure returned with its index. */
  function ParseFields(q: QuoteRequest, fields: seq<seq<byte>>, i: nat): (r: Result<QuoteRequest, QuoteError>)
    requires |fields| == FieldCount && i <= FieldCount
    ensures r.Ok? <==> forall j :: i <= j < FieldCount ==> FieldParses(fields, j)
    ensures r.Ok? ==> forall j :: i <= j < FieldCount ==> Holds(r.value, fields, j)
    ensures r.Ok? ==> forall j :: 0 <= j < i ==> SameField(r.value, q, j)
    ensures r.Err? ==> && r.error.FieldInvalid?
                       && i <= r.error.index < FieldCount
                       && !FieldParses(fields, r.error.index)
                       && (forall j :: i <= j < r.error.index ==> FieldParses(fields, j))
    ensures r.Err? ==> (r.error.cause.SolutionInvalid? <==> r.error.index == FieldSolution)
    ensures r.Err? ==> r.error.cause == FailureCause(fields, r.error.index)
    decreases FieldCount - i
  {
    if i == FieldCount then Ok(q)
    else match SetField(q, fields, i)
      case Err(cause) => Err(FieldInvalid(i, cause))
      case Ok(q') =>
        match ParseFields(q', fields, i + 1)
        case Err(e) => Err(e)
        case Ok(p) =>
          FieldsCarried(q, q', p, fields, i);
          Ok(p)
  }

  /** What field `i` put into `q'` survives the later fields, and what
      came before field `i` survives both. */
  lemma FieldsCarried(q: QuoteRequest, q': QuoteRequest, p: QuoteRequest, fields: seq<seq<byte>>, i: nat)
    requires |fields| == FieldCount && i < FieldCount
    requires Holds(q', fields, i)
    requires forall j :: 0 <= j < FieldCount && j != i ==> SameField(q', q, j)
    requires forall j :: 0 <= j < i + 1 ==> SameField(p, q', j)
    ensures Holds(p, fields, i)
    ensures forall j :: 0 <= j < i ==> SameField(p, q, j)
  {
    assert SameField(p, q', i);
    forall j | 0 <= j < i ensures SameField(p, q, j) {
      assert SameField(p, q', j) && SameField(q', q, j);
    }
  }

  /** `ParseQuoteRequest`: the length guard, then SplitN into at most five
      fields, then the fields one by one. */
  function ParseQuoteRequest(s: seq<byte>): (r: Result<QuoteRequest, QuoteError>)
    ensures r == Err(TooLong(|s|)) <==> |s| > MaxSolutionLength
    ensures |s| <= MaxSolutionLength && |SplitN(s, FieldCount)| < FieldCount
            ==> r == Err(WrongFieldCount(|SplitN(s, FieldCount)|, FieldCount))
    ensures r.Ok? ==> |s| <= MaxSolutionLength && |SplitN(s, FieldCount)| == FieldCount
    ensures r.Ok? ==> forall i :: 0 <= i < FieldCount ==> Holds(r.value, SplitN(s, FieldCount), i)
    ensures |s| <= MaxSolutionLength && |SplitN(s, FieldCount)| == FieldCount ==>
            (r.Ok? <==> forall i :: 0 <= i < FieldCount ==> FieldParses(SplitN(s, FieldCount), i))
    ensures |s| <= MaxSolutionLength && |SplitN(s, FieldCount)| == FieldCount && r.Err? ==> r.error.FieldInvalid?
    ensures r.Err? && r.error.FieldInvalid? ==>
            && FieldServerNonce <= r.error.index < FieldCount
            && !FieldParses(SplitN(s, FieldCount), r.error.index)
            && (forall j :: 0 <= j < r.error.index ==> FieldParses(SplitN(s, FieldCount), j))
            && (r.error.cause.SolutionInvalid? <==> r.error.index == FieldSolution)
            && r.error.cause == FailureCause(SplitN(s, FieldCount), r.error.index)
  {
    if |s| > MaxSolutionLength then Err(TooLong(|s|))
    else
      var fields := SplitN(s, FieldCount);
      if |fields| != FieldCount then Err(WrongFieldCount(|fields|, FieldCount))
      else ParseFields(EmptyRequest, fields, 0)
  }

  /** The five fields Bytes writes, in order. */
  function WireFields(r: QuoteRequest): seq<seq<byte>> {
    [r.serverId, r.hashData.clientId, FormatUint(r.hashData.nonceServer),
     FormatUint(r.hashData.nonceClient), Base64.Encode(r.hashData.solution)]
  }

  /** The addresses can be cut back out of the encoding: neither holds `--`
      nor ends in '-'. */
  predicate WellFormed(r: QuoteRequest) {
    IsCleanField(r.serverId) && IsCleanField(r.hashData.clientId)
  }

  /** `QuoteRequest.Bytes`: the five wire fields, always joined by `--`,
      whatever the addresses hold. For a well-formed request, splitting the
      output gives back exactly those fields, and each carries its part of
      the request. */
  function Bytes(r: QuoteRequest): (s: seq<byte>)
    ensures s == Join(WireFields(r))
    ensures WellFormed(r) ==> SplitN(s, FieldCount) == WireFields(r)
    ensures WellFormed(r) ==> forall i :: 0 <= i < FieldCount ==> Holds(r, SplitN(s, FieldCount), i)
  {
    var s := r.serverId + Separator + r.hashData.clientId + Separator
      + FormatUint(r.hashData.nonceServer) + Separator + FormatUint(r.hashData.nonceClient) + Separator
      + Base64.Encode(r.hashData.solution);
    JoinFive(WireFields(r));
    if WellFormed(r) then
      BytesSplit(r, s);
      s
    else s
  }

  lemma BytesSplit(r: QuoteRequest, s: seq<byte>)
    requires WellFormed(r)
    requires s == r.serverId + Separator + r.hashData.clientId + Separator
      + FormatUint(r.hashData.nonceServer) + Separator + FormatUint(r.hashData.nonceClient) + Separator
      + Base64.Encode(r.hashData.solution)
    ensures SplitN(s, FieldCount) == WireFields(r)
    ensures forall i :: 0 <= i < FieldCount ==> Holds(r, SplitN(s, FieldCount), i)
  {
    var f := WireFields(r);
    DigitsAreCleanField(f[2]);
    DigitsAreCleanField(f[3]);
    JoinFive(f);
    SplitNJoin(f, FieldCount);
    Base64.DecodeEncode(r.hashData.solution);
    WireFieldsHold(r);
  }

  lemma WireFieldsHold(r: QuoteRequest)
    ensures forall i :: 0 <= i < FieldCount ==> Holds(r, WireFields(r), i)
  {
    var f := WireFields(r);
    forall i | 0 <= i < FieldCount ensures Holds(r, f, i) {
      if i == FieldServerNonce {
        ParseFormatUint(r.hashData.nonceServer, MaxUint64);
      } else if i == FieldClientNonce {
        ParseFormatUint(r.hashData.nonceClient, MaxUint64);
      } else if i == FieldSolution {
        Base64.DecodeEncode(r.hashData.solution);
      }
    }
  }

  lemma JoinFive(f: seq<seq<byte>>)
    requires |f| == 5
    ensures Join(f) == f[0] + Separator + f[1] + Separator + f[2] + Separator + f[3] + Separator + f[4]
  {
    assert Join(f[4..]) == f[4];
    assert Join(f[3..]) == f[3] + Separator + f[4] by { assert f[3..][1..] == f[4..]; }
    assert Join(f[2..]) == f[2] + Separator + Join(f[3..]) by { assert f[2..][1..] == f[3..]; }
    assert Join(f[1..]) == f[1] + Separator + Join(f[2..]) by { assert f[1..][1..] == f[2..]; }
  }

  /** Two requests that both carry what the same five fields say are equal. */
  lemma {:induction false} HoldsDetermines(p: QuoteRequest, q: QuoteRequest, fields: seq<seq<byte>>)
    requires |fields| == FieldCount
    requires forall i :: 0 <= i < FieldCount ==> Holds(p, fields, i)
    requires forall i :: 0 <= i < FieldCount ==> Holds(q, fields, i)
    ensures p == q
  {
    assert Holds(p, fields, 0) && Holds(q, fields, 0);
    assert Holds(p, fields, 1) && Holds(q, fields, 1);
    assert Holds(p, fields, 2) && Holds(q, fields, 2);
    assert Holds(p, fields, 3) && Holds(q, fields, 3);
    assert Holds(p, fields, 4) && Holds(q, fields, 4);
    assert p.hashData == q.hashData;
  }

  /** Round trip: a request that fits the length limit reads back as itself
      exactly when both addresses are clean fields. */
  lemma {:induction false} QuoteRoundTrip(r: QuoteRequest)
    requires |Bytes(r)| <= MaxSolutionLength
    ensures ParseQuoteRequest(Bytes(r)) == Ok(r) <==> WellFormed(r)
  {
    var s := Bytes(r);
    var f := SplitN(s, FieldCount);
    if WellFormed(r) {
      forall i | 0 <= i < FieldCount ensures FieldParses(f, i) {
        assert Holds(r, f, i);
      }
      var v := ParseQuoteRequest(s);
      assert v.Ok?;
      HoldsDetermines(v.value, r, f);
    }
    if ParseQuoteRequest(s) == Ok(r) {
      assert Holds(r, f, FieldServerId) && Holds(r, f, FieldClientId);
      assert IsCleanField(f[0]) && IsCleanField(f[1]);
    }
  }

  /** Anything after a fifth separator stays in the solution field, whose
      '-' characters are not base64: the request fails on field 4. */
  lemma {:induction false} ExtraFieldRejected(r: QuoteRequest, tail: seq<byte>)
    requires WellFormed(r)
    requires |Bytes(r) + Separator + tail| <= MaxSolutionLength
    ensures ParseQuoteRequest(Bytes(r) + Separator + tail) == Err(FieldInvalid(FieldSolution, SolutionInvalid(Base64.IllegalData)))
  {
    var f := ExtraFieldSplit(r, tail);
    WireFieldsHold(r);
    var k := |WireFields(r)[4]|;
    assert f[4][k] == Dash;
    Base64.NonAlphabetRejected(f[4], k);
    SolutionFieldFails(Bytes(r) + Separator + tail);
  }

  /** Numbers that parse and a solution that does not: the error names field 4. */
  lemma SolutionFieldFails(s: seq<byte>)
    requires |s| <= MaxSolutionLength && |SplitN(s, FieldCount)| == FieldCount
    requires FieldParses(SplitN(s, FieldCount), FieldServerNonce)
    requires FieldParses(SplitN(s, FieldCount), FieldClientNonce)
    requires Base64.Decode(SplitN(s, FieldCount)[FieldSolution]).Err?
    ensures ParseQuoteRequest(s) == Err(FieldInvalid(FieldSolution, SolutionInvalid(Base64.IllegalData)))
  {
    var f := SplitN(s, FieldCount);
    assert !FieldParses(f, FieldSolution);
    forall j | 0 <= j < FieldSolution ensures FieldParses(f, j) {
    }
    var r := ParseQuoteRequest(s);
    assert r.Err? && r.error.FieldInvalid?;
    assert r.error.index == FieldSolution;
    assert r.error.cause.SolutionInvalid?;
    assert r.error.cause == SolutionInvalid(Base64.IllegalData);
  }

  /** Fields are parsed in order: a bad server nonce is what gets reported,
      whatever the later fields hold, with ParseUint's own error. */
  lemma ServerNonceFailureFirst(s: seq<byte>)
    requires |s| <= MaxSolutionLength && |SplitN(s, FieldCount)| == FieldCount
    requires ParseUint(SplitN(s, FieldCount)[FieldServerNonce], MaxUint64).Err?
    ensures ParseQuoteRequest(s)
            == Err(FieldInvalid(FieldServerNonce, NumberInvalid(ParseUint(SplitN(s, FieldCount)[FieldServerNonce], MaxUint64).error)))
  {
    var f := SplitN(s, FieldCount);
    assert ParseQuoteRequest(s) == ParseFields(EmptyRequest, f, 0);
    var q1 := SetField(EmptyRequest, f, 0).value;
    var q2 := SetField(q1, f, 1).value;
    assert ParseFields(EmptyRequest, f, 0) == ParseFields(q2, f, 2);
  }

  /** Splitting a request with a trailing `--tail` into five fields. */
  lemma {:induction false} ExtraFieldSplit(r: QuoteRequest, tail: seq<byte>) returns (f: seq<seq<byte>>)
    requires WellFormed(r)
    ensures f == WireFields(r)[..4] + [WireFields(r)[4] + Separator + tail]
    ensures SplitN(Bytes(r) + Separator + tail, FieldCount) == f
  {
    var w := WireFields(r);
    var t := Separator + tail;
    f := w[..4] + [w[4] + t];
    assert w[4] + t == w[4] + Separator + tail;
    DigitsAreCleanField(w[2]);
    DigitsAreCleanField(w[3]);
    JoinLastExtended(w, t);
    assert Bytes(r) + (Separator + tail) == Bytes(r) + Separator + tail;
    assert f[0] == r.serverId && f[1] == r.hashData.clientId && f[2] == w[2] && f[3] == w[3];
    assert IsCleanField(f[0]) && IsCleanField(f[1]) && IsCleanField(f[2]) && IsCleanField(f[3]);
    forall i | 0 <= i < |f| - 1 ensures IsCleanField(f[i]) {
      if i == 0 {
      } else if i == 1 {
      } else if i == 2 {
      } else {
        assert i == 3;
      }
    }
    SplitNJoin(f, FieldCount);
  }

  /** Extending the last part extends the join. */
  lemma {:induction false} JoinLastExtended(w: seq<seq<byte>>, tail: seq<byte>)
    requires |w| >= 1
    ensures Join(w[..|w| - 1] + [w[|w| - 1] + tail]) == Join(w) + tail
    decreases |w|
  {
    var f := w[..|w| - 1] + [w[|w| - 1] + tail];
    if |w| > 1 {
      assert f[1..] == w[1..][..|w| - 2] + [w[1..][|w| - 2] + tail];
      JoinLastExtended(w[1..], tail);
    }
  }
}
