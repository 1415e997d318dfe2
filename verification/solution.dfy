/** Checking a solved puzzle (puzzle/solution.go): the proof-of-work hash,
    the difficulty test, and SolutionValid with its set of used attempts. */
module Solutions {
  import opened Results
  import opened Wire
  import opened Decimal
  import opened Challenges
  import opened QuoteRequests
  import NetAddr
  import Hex
  import Sha1

  /** What makes a submission a repeat: `solutionAttempt`. */
  datatype AttemptKey = AttemptKey(clientId: seq<byte>, nonceServer: uint64, nonceClient: uint64)

  function KeyOf(hd: HashData): AttemptKey {
    AttemptKey(hd.clientId, hd.nonceServer, hd.nonceClient)
  }

  /** The hashed text: `ClientID;dec(ns);dec(nc);solution`. It starts with
      the client ID and a ';', ends with a ';' and the solution, and when the
      client ID holds no ';' the first ';' is the one that ends it. */
  function Preimage(hd: HashData): (r: seq<byte>)
    ensures |r| > |hd.clientId| + |hd.solution| + 1
    ensures r[..|hd.clientId|] == hd.clientId && r[|hd.clientId|] == Semicolon
    ensures r[|r| - |hd.solution|..] == hd.solution && r[|r| - |hd.solution| - 1] == Semicolon
    ensures r[|hd.clientId| + 1..|r| - |hd.solution| - 1]
            == FormatUint(hd.nonceServer) + [Semicolon] + FormatUint(hd.nonceClient)
    ensures Semicolon !in hd.clientId ==> IndexOf(r, Semicolon) == Some(|hd.clientId|)
  {
    var f, g := FormatUint(hd.nonceServer), FormatUint(hd.nonceClient);
    var rest := f + [Semicolon] + (g + [Semicolon] + hd.solution);
    var r := hd.clientId + [Semicolon] + rest;
    Fields(hd.clientId, f, g, hd.solution);
    assert Semicolon !in hd.clientId ==> IndexOf(r, Semicolon) == Some(|hd.clientId|) by {
      if Semicolon !in hd.clientId {
        FirstMarker(hd.clientId, Semicolon, rest);
        IndexOfAt(r, Semicolon, |hd.clientId|);
      }
    }
    r
  }

  /** Where each part of `c;f;g;sol` sits in the joined text. */
  lemma Fields(c: seq<byte>, f: seq<byte>, g: seq<byte>, sol: seq<byte>)
    ensures var r := c + [Semicolon] + (f + [Semicolon] + (g + [Semicolon] + sol));
      && |r| == |c| + |f| + |g| + |sol| + 3
      && r[..|c|] == c && r[|c|] == Semicolon
      && r[|r| - |sol|..] == sol && r[|r| - |sol| - 1] == Semicolon
      && r[|c| + 1..|r| - |sol| - 1] == f + [Semicolon] + g
  {
    var r := c + [Semicolon] + (f + [Semicolon] + (g + [Semicolon] + sol));
    assert r == c + [Semicolon] + (f + [Semicolon] + g) + [Semicolon] + sol;
  }

  /** In `x + [b] + y` with no `b` inside `x`, the first `b` is at `|x|`. */
  lemma FirstMarker(x: seq<byte>, b: byte, y: seq<byte>)
    requires b !in x
    ensures (x + [b] + y)[|x|] == b
    ensures forall i :: 0 <= i < |x| ==> (x + [b] + y)[i] != b
  {
    forall i | 0 <= i < |x| ensures (x + [b] + y)[i] != b {
      assert (x + [b] + y)[i] == x[i];
    }
  }

  /** Cutting at the first marker byte is unambiguous. */
  lemma {:induction false} CutAtFirst(x: seq<byte>, y: seq<byte>, x': seq<byte>, y': seq<byte>, b: byte)
    requires b !in x && b !in x'
    requires x + [b] + y == x' + [b] + y'
    ensures x == x' && y == y'
  {
    var s := x + [b] + y;
    FirstMarker(x, b, y);
    FirstMarker(x', b, y');
    assert |x| == |x'|;
    assert x == s[..|x|] && x' == s[..|x'|];
    assert y == s[|x| + 1..] && y' == s[|x'| + 1..];
  }

  lemma DecimalHasNoSemicolon(n: nat)
    ensures Semicolon !in FormatUint(n)
  {
    var d := FormatUint(n);
    forall i | 0 <= i < |d| ensures d[i] != Semicolon {
      assert IsDigit(d[i]);
    }
  }

  /** The preimage pins down the hash data, so distinct attempts hash
      distinct texts, provided client IDs hold no ';'. */
  lemma {:induction false} PreimageInjective(a: HashData, b: HashData)
    requires Semicolon !in a.clientId && Semicolon !in b.clientId
    requires Preimage(a) == Preimage(b)
    ensures a == b
  {
    var fa, fb := FormatUint(a.nonceServer), FormatUint(b.nonceServer);
    var ga, gb := FormatUint(a.nonceClient), FormatUint(b.nonceClient);
    DecimalHasNoSemicolon(a.nonceServer);
    DecimalHasNoSemicolon(b.nonceServer);
    DecimalHasNoSemicolon(a.nonceClient);
    DecimalHasNoSemicolon(b.nonceClient);
    var ra := fa + [Semicolon] + (ga + [Semicolon] + a.solution);
    var rb := fb + [Semicolon] + (gb + [Semicolon] + b.solution);
    CutAtFirst(a.clientId, ra, b.clientId, rb, Semicolon);
    CutAtFirst(fa, ga + [Semicolon] + a.solution, fb, gb + [Semicolon] + b.solution, Semicolon);
    CutAtFirst(ga, a.solution, gb, b.solution, Semicolon);
    FormatUintInjective(a.nonceServer, b.nonceServer);
    FormatUintInjective(a.nonceClient, b.nonceClient);
  }

  /** `Hash`: the lowercase hex SHA-1 digest of the preimage, 40 characters. */
  function Hash(hd: HashData): (h: string)
    ensures |h| == 40
    ensures forall i :: 0 <= i < |h| ==> Hex.IsLowerHex(h[i])
  {
    Hex.Encode(Sha1.Digest(Preimage(hd)))
  }

  /** A hash meets a difficulty when it is at least that long and starts with
      that many '0' characters; a difficulty of zero or below is always met. */
  predicate MeetsDifficulty(hash: string, complexity: int) {
    complexity <= |hash| && forall i :: 0 <= i < complexity ==> hash[i] == '0'
  }

  /** `HashMatchesChallenge`, over the runes of the hash. */
  method HashMatchesChallenge(hash: string, challenge: Challenge) returns (ok: bool)
    ensures ok <==> MeetsDifficulty(hash, challenge.complexity)
  {
    if |hash| < challenge.complexity {
      return false;
    }
    var i := 0;
    while i < challenge.complexity
      invariant 0 <= i <= if challenge.complexity < 0 then 0 else challenge.complexity
      invariant forall j :: 0 <= j < i ==> hash[j] == '0'
    {
      if hash[i] != '0' {
        return false;
      }
      i := i + 1;
    }
    return true;
  }

  /** A harder difficulty met implies every easier one is. */
  lemma DifficultyMonotone(hash: string, easier: int, harder: int)
    requires easier <= harder && MeetsDifficulty(hash, harder)
    ensures MeetsDifficulty(hash, easier)
  {
  }

  /** No SHA-1 hash meets a difficulty above its 40 hex digits. */
  lemma {:induction false} DifficultyBeyondHashLength(hd: HashData, complexity: int)
    requires complexity > 40
    ensures !MeetsDifficulty(Hash(hd), complexity)
  {
    assert |Hash(hd)| == 40;
  }

  /** solution_test.go: six leading zeros meet difficulty 6. */
  lemma SixZerosVector()
    ensures MeetsDifficulty("0000004c751b61da69a82eb3b5067a2494b3cd2e", 6)
  {
    var h := "0000004c751b61da69a82eb3b5067a2494b3cd2e";
    assert h[0] == h[1] == h[2] == h[3] == h[4] == h[5] == '0';
  }

  /** solution_test.go: one leading zero meets difficulty 1, whatever follows. */
  lemma OneZeroVector()
    ensures MeetsDifficulty("0asdf14c751b61da69a82eb3b5067a2494b3cd2e", 1)
  {
    assert "0asdf14c751b61da69a82eb3b5067a2494b3cd2e"[0] == '0';
  }

  /** solution_test.go: difficulties of zero or below are met by any hash. */
  lemma NonPositiveDifficultyVectors()
    ensures MeetsDifficulty("wasdf14c751b61da69a82eb3b5067a2494b3cd2e", 0)
    ensures MeetsDifficulty("0000000000000000000000000000000000000000", -1)
  {
  }

  /** solution_test.go: a '1' in the sixth place, and a hash shorter than the
      difficulty. */
  lemma DifficultyMissedVectors()
    ensures !MeetsDifficulty("0000014c751b61da69a82eb3b5067a2494b3cd2e", 6)
    ensures !MeetsDifficulty("00000000", 9)
  {
    assert "0000014c751b61da69a82eb3b5067a2494b3cd2e"[5] == '1';
  }

  datatype AdmissionError =
    | ServerAddrMismatch(claimedServer: seq<byte>, actualServer: seq<byte>)
    | ClientAddrMismatch(claimedClient: seq<byte>, actualClient: seq<byte>)
    | ServerNonceMismatch(claimedNonce: uint64, issuedNonce: uint64)
    | AttemptExists(attempt: AttemptKey)
    | InvalidHash(request: seq<byte>, hash: string, complexity: int64)

  /** The verdict on one submission and the attempt set after it. */
  datatype Admission = Admission(outcome: Outcome<AdmissionError>, attempts: set<AttemptKey>)

  /** Everything SolutionValid compares except the attempt set. */
  predicate Addressed(challenge: Challenge, serverAddr: seq<byte>, clientAddr: seq<byte>, req: QuoteRequest) {
    && req.serverId == serverAddr
    && req.hashData.clientId == NetAddr.StripPort(clientAddr)
    && req.hashData.nonceServer == challenge.nonce
  }

  /** `SolutionValid` as a function of the attempt set: the checks fail fast
      in source order, and only an accepted attempt is remembered. The
      addresses are `net.Addr.String()` of the two connection ends. */
  function Admit(attempts: set<AttemptKey>, challenge: Challenge, serverAddr: seq<byte>,
                 clientAddr: seq<byte>, req: QuoteRequest): (r: Admission)
    ensures r.outcome.Pass? <==> && Addressed(challenge, serverAddr, clientAddr, req)
                                 && KeyOf(req.hashData) !in attempts
                                 && MeetsDifficulty(Hash(req.hashData), challenge.complexity)
    ensures r.outcome.Pass? ==> r.attempts == attempts + {KeyOf(req.hashData)}
    ensures r.outcome.Fail? ==> r.attempts == attempts
    ensures req.serverId != serverAddr ==> r.outcome == Fail(ServerAddrMismatch(req.serverId, serverAddr))
    ensures req.serverId == serverAddr && req.hashData.clientId != NetAddr.StripPort(clientAddr)
            ==> r.outcome == Fail(ClientAddrMismatch(req.hashData.clientId, clientAddr))
    ensures r.outcome.Fail? && r.outcome.error.ServerNonceMismatch? <==>
            && req.serverId == serverAddr && req.hashData.clientId == NetAddr.StripPort(clientAddr)
            && req.hashData.nonceServer != challenge.nonce
    ensures r.outcome.Fail? && r.outcome.error.ServerNonceMismatch? ==>
            r.outcome.error == ServerNonceMismatch(req.hashData.nonceServer, challenge.nonce)
    ensures r.outcome == Fail(AttemptExists(KeyOf(req.hashData))) <==>
            Addressed(challenge, serverAddr, clientAddr, req) && KeyOf(req.hashData) in attempts
    ensures r.outcome.Fail? && r.outcome.error.InvalidHash? <==>
            && Addressed(challenge, serverAddr, clientAddr, req) && KeyOf(req.hashData) !in attempts
            && !MeetsDifficulty(Hash(req.hashData), challenge.complexity)
    ensures r.outcome.Fail? && r.outcome.error.InvalidHash? ==>
            r.outcome.error == InvalidHash(QuoteRequests.Bytes(req), Hash(req.hashData), challenge.complexity)
  {
    if req.serverId != serverAddr then
      Admission(Fail(ServerAddrMismatch(req.serverId, serverAddr)), attempts)
    else if req.hashData.clientId != NetAddr.StripPort(clientAddr) then
      Admission(Fail(ClientAddrMismatch(req.hashData.clientId, clientAddr)), attempts)
    else if req.hashData.nonceServer != challenge.nonce then
      Admission(Fail(ServerNonceMismatch(req.hashData.nonceServer, challenge.nonce)), attempts)
    else
      var attempt := KeyOf(req.hashData);
      if attempt in attempts then
        Admission(Fail(AttemptExists(attempt)), attempts)
      else
        var hash := Hash(req.hashData);
        if !MeetsDifficulty(hash, challenge.complexity) then
          Admission(Fail(InvalidHash(QuoteRequests.Bytes(req), hash, challenge.complexity)), attempts)
        else
          Admission(Pass, attempts + {attempt})
  }

  /** With a difficulty of zero or below, a correctly addressed first
      attempt is accepted whatever its solution. */
  lemma ZeroComplexityAdmitted(attempts: set<AttemptKey>, challenge: Challenge,
      serverAddr: seq<byte>, clientAddr: seq<byte>, req: QuoteRequest)
    requires challenge.complexity <= 0
    requires Addressed(challenge, serverAddr, clientAddr, req) && KeyOf(req.hashData) !in attempts
    ensures Admit(attempts, challenge, serverAddr, clientAddr, req) == Admission(Pass, attempts + {KeyOf(req.hashData)})
  {
  }

  /** The same submission sent twice never passes the second time. */
  lemma {:induction false} ResubmissionRejected(attempts: set<AttemptKey>, challenge: Challenge,
      serverAddr: seq<byte>, clientAddr: seq<byte>, req: QuoteRequest)
    ensures Admit(Admit(attempts, challenge, serverAddr, clientAddr, req).attempts,
                  challenge, serverAddr, clientAddr, req).outcome.Fail?
  {
    var first := Admit(attempts, challenge, serverAddr, clientAddr, req);
    if first.outcome.Pass? {
      assert KeyOf(req.hashData) in first.attempts;
    }
  }

  /** solution_test.go: a request naming server 172.18.0.2:9999 that reaches
      172.18.0.222:9999 is refused on the server address, whatever else it holds. */
  lemma ServerAddrMismatchVector(attempts: set<AttemptKey>, clientAddr: seq<byte>, hd: HashData)
    ensures var claimed: seq<byte> := [49, 55, 50, 46, 49, 56, 46, 48, 46, 50, 58, 57, 57, 57, 57];   // "172.18.0.2:9999"
      var actual: seq<byte> := [49, 55, 50, 46, 49, 56, 46, 48, 46, 50, 50, 50, 58, 57, 57, 57, 57];   // "172.18.0.222:9999"
      Admit(attempts, Challenge(111, 0), actual, clientAddr, QuoteRequest(claimed, hd)).outcome
      == Fail(ServerAddrMismatch(claimed, actual))
  {
    var claimed: seq<byte> := [49, 55, 50, 46, 49, 56, 46, 48, 46, 50, 58, 57, 57, 57, 57];   // "172.18.0.2:9999"
    var actual: seq<byte> := [49, 55, 50, 46, 49, 56, 46, 48, 46, 50, 50, 50, 58, 57, 57, 57, 57];   // "172.18.0.222:9999"
    assert claimed[10] != actual[10];
  }

  /** solution_test.go: client 172.18.0.3 connecting from 172.18.0.30:1234 is
      refused on the client address; the error shows the address unstripped. */
  lemma ClientAddrMismatchVector(attempts: set<AttemptKey>, server: seq<byte>, hd: HashData)
    requires hd.clientId == [49, 55, 50, 46, 49, 56, 46, 48, 46, 51]
    ensures var actual: seq<byte> := [49, 55, 50, 46, 49, 56, 46, 48, 46, 51, 48, 58, 49, 50, 51, 52];   // "172.18.0.30:1234"
      Admit(attempts, Challenge(111, 0), server, actual, QuoteRequest(server, hd)).outcome
      == Fail(ClientAddrMismatch(hd.clientId, actual))
  {
    LongerHostKept(hd.clientId, [49, 55, 50, 46, 49, 56, 46, 48, 46, 51, 48, 58, 49, 50, 51, 52]);
  }

  /** An address whose byte at |host| is no ':' never strips to `host`. */
  lemma LongerHostKept(host: seq<byte>, addr: seq<byte>)
    requires |host| < |addr| && addr[|host|] != NetAddr.Colon
    ensures NetAddr.StripPort(addr) != host
  {
    var stripped := NetAddr.StripPort(addr);
    if stripped != addr {
      var i :| 0 <= i < |addr| && addr[i] == NetAddr.Colon && stripped == addr[..i];
      assert |stripped| == i;
    }
  }

  /** One call of SolutionValid, with its arguments. */
  datatype Submission = Submission(challenge: Challenge, serverAddr: seq<byte>, clientAddr: seq<byte>, req: QuoteRequest)

  /** The keys accepted over a run of submissions, in order, and the attempt
      set at its end. */
  datatype Trace = Trace(accepted: seq<AttemptKey>, attempts: set<AttemptKey>)

  /** Admit applied to a submission, seen only through its effect on the set. */
  function Step(attempts: set<AttemptKey>, s: Submission): (r: Admission)
    ensures r.outcome.Pass? ==> KeyOf(s.req.hashData) !in attempts && r.attempts == attempts + {KeyOf(s.req.hashData)}
    ensures r.outcome.Fail? ==> r.attempts == attempts
  {
    Admit(attempts, s.challenge, s.serverAddr, s.clientAddr, s.req)
  }

  function Run(attempts: set<AttemptKey>, subs: seq<Submission>): Trace
    decreases |subs|
  {
    if |subs| == 0 then Trace([], attempts)
    else
      var s := subs[0];
      var r := Step(attempts, s);
      var rest := Run(r.attempts, subs[1..]);
      if r.outcome.Pass? then Trace([KeyOf(s.req.hashData)] + rest.accepted, rest.attempts)
      else rest
  }

  /** Replay protection over any run: no attempt is accepted twice, none that
      was already recorded is accepted, and the set grows by exactly the
      accepted attempts. */
  lemma {:induction false} RunAcceptsEachAttemptOnce(attempts: set<AttemptKey>, subs: seq<Submission>)
    ensures Run(attempts, subs).attempts == attempts + KeySet(Run(attempts, subs).accepted)
    ensures forall k :: k in Run(attempts, subs).accepted ==> k !in attempts
    ensures Distinct(Run(attempts, subs).accepted)
    decreases |subs|
  {
    if |subs| > 0 {
      var s := subs[0];
      var r := Step(attempts, s);
      RunAcceptsEachAttemptOnce(r.attempts, subs[1..]);
      var rest := Run(r.attempts, subs[1..]);
      if r.outcome.Pass? {
        var k := KeyOf(s.req.hashData);
        var acc := [k] + rest.accepted;
        assert Run(attempts, subs) == Trace(acc, rest.attempts);
        assert k !in rest.accepted;
        ConsDistinct(k, rest.accepted);
        KeySetCons(k, rest.accepted);
      }
    }
  }

  function KeySet(keys: seq<AttemptKey>): set<AttemptKey> {
    set k | k in keys
  }

  lemma KeySetCons(k: AttemptKey, keys: seq<AttemptKey>)
    ensures KeySet([k] + keys) == {k} + KeySet(keys)
  {
  }

  predicate Distinct(keys: seq<AttemptKey>) {
    forall i, j :: 0 <= i < j < |keys| ==> keys[i] != keys[j]
  }

  /** A new key in front of distinct keys keeps them distinct. */
  lemma ConsDistinct(k: AttemptKey, keys: seq<AttemptKey>)
    requires k !in keys && Distinct(keys)
    ensures Distinct([k] + keys)
  {
    var acc := [k] + keys;
    forall i, j | 0 <= i < j < |acc| ensures acc[i] != acc[j] {
      if i > 0 {
        assert acc[i] == keys[i - 1] && acc[j] == keys[j - 1];
      } else {
        assert acc[j] in keys;
      }
    }
  }

  /** The process-wide state of SolutionValid: the attempts accepted so far. */
  class Validator {
    var attempts: set<AttemptKey>

    constructor ()
      ensures attempts == {}
    {
      attempts := {};
    }

    /** `SolutionValid`: one call of Admit on the current attempt set. */
    method SolutionValid(challenge: Challenge, serverAddr: seq<byte>, clientAddr: seq<byte>,
                         req: QuoteRequest) returns (outcome: Outcome<AdmissionError>)
      modifies this
      ensures Admit(old(attempts), challenge, serverAddr, clientAddr, req) == Admission(outcome, attempts)
    {
      var r := Admit(attempts, challenge, serverAddr, clientAddr, req);
      outcome := r.outcome;
      attempts := r.attempts;
    }
  }
}
