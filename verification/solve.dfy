/** The client's proof-of-work search (puzzle/solve.go): fresh 128-byte
    solutions are drawn until the hash meets the challenge. */
module Solver {
  import opened Results
  import opened Wire
  import opened Challenges
  import opened QuoteRequests
  import opened Solutions

  /** The length of every solution the search draws. */
  const SolutionLength: nat := 128

  /** How many whole draws the stream allows. */
  function DrawCount(stream: seq<byte>): nat {
    |stream| / SolutionLength
  }

  /** The random source, seen as the bytes it yields in order: draw `k` fills
      the solution with the `k`-th run of SolutionLength bytes. */
  function Draw(stream: seq<byte>, k: nat): (block: seq<byte>)
    requires k < DrawCount(stream)
    ensures |block| == SolutionLength
  {
    DrawFits(stream, k);
    stream[k * SolutionLength..(k + 1) * SolutionLength]
  }

  /** Draw `k` lies inside the stream. */
  lemma DrawFits(stream: seq<byte>, k: nat)
    requires k < DrawCount(stream)
    ensures (k + 1) * SolutionLength <= |stream|
  {
    var q := |stream| / SolutionLength;
    assert q * SolutionLength <= |stream|;
    assert (k + 1) * SolutionLength <= q * SolutionLength;
  }

  /** The request of `hd` carrying draw `k` as its solution. */
  function Candidate(hd: HashData, stream: seq<byte>, k: nat): HashData
    requires k < DrawCount(stream)
  {
    hd.(solution := Draw(stream, k))
  }

  /** Draw `k` solves the challenge. */
  predicate Solves(hd: HashData, challenge: Challenge, stream: seq<byte>, k: nat)
    requires k < DrawCount(stream)
  {
    MeetsDifficulty(Hash(Candidate(hd, stream, k)), challenge.complexity)
  }

  /** The search's result: which draw solved it, the request left holding
      that solution, and the hash returned. */
  datatype Found = Found(draw: nat, hashData: HashData, hash: string)

  /** `Solve`. The Go loop draws until it succeeds; over a finite stream the
      search reports None when every draw fails. On success only the
      solution of the request has changed, it is 128 bytes long, the hash
      returned is the hash of the request as left, it meets the difficulty,
      and no earlier draw did. */
  method Solve(hd: HashData, challenge: Challenge, stream: seq<byte>) returns (r: Option<Found>)
    ensures r.Some? ==> && r.value.draw < DrawCount(stream)
                        && r.value.hashData == Candidate(hd, stream, r.value.draw)
                        && r.value.hash == Hash(r.value.hashData)
                        && MeetsDifficulty(r.value.hash, challenge.complexity)
    ensures r.Some? ==> forall k :: 0 <= k < r.value.draw ==> !Solves(hd, challenge, stream, k)
    ensures r.Some? ==> |r.value.hashData.solution| == SolutionLength
                        && KeyOf(r.value.hashData) == KeyOf(hd)
    ensures r.None? <==> forall k :: 0 <= k < DrawCount(stream) ==> !Solves(hd, challenge, stream, k)
    ensures challenge.complexity <= 0 && |stream| >= SolutionLength ==> r.Some? && r.value.draw == 0
  {
    var k := 0;
    while k < DrawCount(stream)
      invariant k <= DrawCount(stream)
      invariant forall j :: 0 <= j < k ==> !Solves(hd, challenge, stream, j)
      invariant challenge.complexity <= 0 ==> k == 0
    {
      var data := Candidate(hd, stream, k);
      var lastHash := Hash(data);
      var ok := HashMatchesChallenge(lastHash, challenge);
      if ok {
        assert Solves(hd, challenge, stream, k);
        return Some(Found(k, data, lastHash));
      }
      assert !Solves(hd, challenge, stream, k);
      assert challenge.complexity > 0 by {
        if challenge.complexity <= 0 {
          assert MeetsDifficulty(lastHash, challenge.complexity);
        }
      }
      k := k + 1;
    }
    return None;
  }

  /** A solution the search found is accepted by the server the first time
      it is submitted from the addresses and for the challenge it was made
      for. */
  lemma SolvedRequestAdmitted(attempts: set<AttemptKey>, challenge: Challenge, serverAddr: seq<byte>,
      clientAddr: seq<byte>, serverId: seq<byte>, f: Found)
    requires MeetsDifficulty(f.hash, challenge.complexity) && f.hash == Hash(f.hashData)
    requires Addressed(challenge, serverAddr, clientAddr, QuoteRequest(serverId, f.hashData))
    requires KeyOf(f.hashData) !in attempts
    ensures Admit(attempts, challenge, serverAddr, clientAddr, QuoteRequest(serverId, f.hashData))
            == Admission(Pass, attempts + {KeyOf(f.hashData)})
  {
  }

  /** Searching again for a request already accepted does not help: any
      other solution for the same client and nonces is rejected as a
      repeated attempt, since the solution is not part of the key. */
  lemma {:induction false} ResolvingRejected(attempts: set<AttemptKey>, challenge: Challenge, serverAddr: seq<byte>,
      clientAddr: seq<byte>, req: QuoteRequest, solution: seq<byte>)
    requires Admit(attempts, challenge, serverAddr, clientAddr, req).outcome.Pass?
    ensures var again := req.(hashData := req.hashData.(solution := solution));
      Admit(Admit(attempts, challenge, serverAddr, clientAddr, req).attempts,
            challenge, serverAddr, clientAddr, again).outcome
      == Fail(AttemptExists(KeyOf(req.hashData)))
  {
    var again := req.(hashData := req.hashData.(solution := solution));
    assert KeyOf(again.hashData) == KeyOf(req.hashData);
    assert Addressed(challenge, serverAddr, clientAddr, again);
  }
}
