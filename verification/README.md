# powquote: a Dafny model of the proof-of-work admission core

powquote is a TCP "word of wisdom" server. The server hands out a quote only
to a client that has solved a small proof-of-work puzzle. One exchange goes
like this:

1. The client sends `HELLO`.
2. The server answers with a challenge `nonce--complexity`.
3. The client searches for a solution: random bytes that make the SHA-1 hex
   digest of `clientID;nonceServer;nonceClient;solution` start with
   `complexity` zeros.
4. The client submits `serverID--clientID--nonceServer--nonceClient--base64(solution)`.
5. The server checks the addresses, the nonce, the replay set and the hash,
   then answers.

This project models that core in Dafny and proves properties of the model.
It covers:

- the challenge codec (`internal/protocol/hello.go`)
- the quote-request codec (`internal/protocol/quote.go`)
- the hash, the difficulty test, address stripping and the replay-protected
  validator (`internal/puzzle/solution.go`)
- reading a request off a connection, and the `PROTECTED` switch
  (`internal/puzzle/request.go`)
- the client's search (`internal/puzzle/solve.go`)

The modules follow the program:

| module | file | what it holds |
|---|---|---|
| `Results` | `results.dfy` | `Option`, `Result` and `Outcome` |
| `Wire` | `wire.dfy` | bytes, the `--` separator, `bytes.SplitN` and its inverse `Join` |
| `Decimal` | `decimal.dfy` | `strconv.ParseUint`, `ParseInt` (64-bit), `FormatUint` and `FormatInt` in base 10 |
| `Base64` | `base64.dfy` | `base64.StdEncoding`, section 4 of RFC 4648 |
| `Sha1` | `sha1.dfy` | SHA-1 as FIPS 180-4 defines it |
| `Hex` | `hex.dfy` | `hex.EncodeToString` |
| `NetAddr` | `netaddr.dfy` | the IPv4 part of `netip.ParseAddrPort` that `stripPort` uses |
| `Challenges` | `challenge.dfy` | `Challenge`, `Bytes` and `ChallengeFromBytes` |
| `QuoteRequests` | `quote.dfy` | `HashData`, `QuoteRequest`, `ParseQuoteRequest` and `Bytes` |
| `Solutions` | `solution.dfy` | `Hash`, `HashMatchesChallenge` and `SolutionValid`, as the pure `Admit` plus a `Validator` object holding the attempt set |
| `Requests` | `request.dfy` | `ReadRequest` over the lines of a connection; `ProtectionEnabled` |
| `Solver` | `solve.dfy` | `Solve` over a finite stream of random bytes |

How Go's types appear in the model:

- Wire text is a sequence of bytes.
- A hash is a `string`, because `HashMatchesChallenge` compares runes.
- `uint64` and Go's `int` are subset types of `int`. `int` is taken as 64
  bits wide.
- Each Go error becomes a constructor of an error datatype. It records which
  check failed and, for the validator and the field-count error, the values
  the message prints. A `strconv` error keeps only its kind (`ErrSyntax` or
  `ErrRange`), not the function name or the quoted input of Go's message.

Behaviour of the code worth knowing:

- A quote request with more than five `--`-separated fields is not rejected
  for its field count. `SplitN` stops after the fifth field, so the rest stays
  in the solution field, whose `-` characters are not base64. When the first
  four fields are valid (as in the output of `Bytes` for a request with clean
  addresses), the request therefore fails in field 4
  (`QuoteRequests.ExtraFieldRejected`). When an earlier field fails first, that
  field is reported instead: an out-of-range server nonce gives ParseUint's
  range error in field 2 (`QuoteRequests.ServerNonceFailureFirst`).
- Encoding a quote request and decoding it again gives the same request only
  when neither address holds `--` or ends in `-`
  (`QuoteRequests.QuoteRoundTrip` states both directions).
- A challenge with a valid nonce and no separator makes the Go code panic: it
  indexes `parts[1]` of a one-element slice. The model returns
  `Err(IndexOutOfRange)` there, and `ChallengeFromBytes` states exactly when
  this happens.

## Model

| member | source | states |
|---|---|---|
| Wire.SplitN | internal/protocol/hello.go:20 | `bytes.SplitN` on `--` gives between 1 and n parts. Joining them back with `--` gives the input. Every part but the last contains no `--` and does not end in `-`. With fewer than n parts, the last part contains no `--` either |
| Wire.SplitNJoin | internal/protocol/quote.go:40 | Splitting undoes joining whenever every field but the last is clean (no `--`, no trailing `-`). The last field may hold `--` only when the limit is reached |
| Decimal.ParseUint | internal/protocol/hello.go:21 | Accepts exactly the non-empty digit strings whose value is at most the maximum, and returns that value. It is a range error exactly when the leading digit run already exceeds the maximum, even if a non-digit follows. Every other input is a syntax error |
| Decimal.ParseInt64 | internal/protocol/hello.go:25 | Accepts exactly an optional sign, one or more digits, and a value in [-2^63, 2^63-1], and returns that value. It is a range error exactly when the magnitude's leading digits overflow 64 bits or the signed value is outside the int64 range |
| Decimal.FormatUint | internal/protocol/hello.go:35 | The output is non-empty digits denoting n, with no leading zero unless n is 0 |
| Decimal.FormatInt | internal/protocol/hello.go:37 | The output is signed decimal text denoting x. It starts with `-` exactly when x is negative, never has `+`, and the magnitude has no leading zero unless it is 0 |
| Decimal.CanonicalUnique | internal/protocol/hello.go:35-37 | Any digit string without a superfluous leading zero is exactly what FormatUint writes for its value, so the canonical text of a number is unique |
| Decimal.ParseFormatUint | internal/protocol/quote.go:51-73 | ParseUint reads back every number FormatUint writes, up to the maximum |
| Decimal.ParseFormatInt | internal/protocol/hello.go:25-37 | ParseInt reads back every int64 FormatInt writes, both ends of the range included |
| Decimal.ParseNegated | internal/protocol/hello.go:25 | `-` followed by digits worth at most 2^63 parses as their negation |
| Decimal.FormatUintInjective | internal/puzzle/solution.go:72-74 | Distinct numbers have distinct decimal text |
| Base64.Encode | internal/protocol/quote.go:75 | The output has 4 characters per started group of 3 bytes. Every character is in the standard alphabet or is `=` |
| Base64.Decode | internal/protocol/quote.go:55 | A successful decode implies the input holds only alphabet characters, `=` and line breaks |
| Base64.NonAlphabetRejected | internal/protocol/quote.go:55 | Any other byte anywhere in the input makes decoding fail with illegal data |
| Base64.DecodeEncode | internal/protocol/quote.go:55-75 | Decoding gives back every byte string the encoder writes |
| Challenges.Bytes | internal/protocol/hello.go:33-39 | Splitting the output at its first `--` gives exactly two parts: the canonical digits of the nonce and the canonical signed text of the complexity, each denoting its value |
| Challenges.ChallengeFromBytes | internal/protocol/hello.go:19-31 | Decoding succeeds exactly when the text before the first `--` is a uint64 and the text after it is an int64, and it returns their values. A bad nonce is reported before anything else. The index error occurs exactly when a valid nonce has no separator. A bad complexity after a good nonce is reported with ParseInt's error |
| Challenges.ChallengeRoundTrip | internal/protocol/hello.go:19-39 | Every challenge, including negative complexity and the 64-bit extremes, decodes back to itself |
| Challenges.FromFields | internal/protocol/hello.go:19-31 | For a clean nonce field, decoding is ParseUint on the text before the separator, then ParseInt on the text after it, and the first error wins |
| Challenges.ExtraSeparatorRejected | internal/protocol/hello.go:20-27 | A second `--` falls into the complexity field, so decoding fails there |
| Challenges.NegativeComplexityAfterSeparator | internal/protocol/hello.go:20-29 | In `n---m` the first two dashes separate and the third is the sign: the complexity is -m |
| Challenges.NonceOutOfRange | internal/protocol/hello_test.go:51-52 | A nonce above 2^64-1 is a nonce range error, whatever follows |
| Challenges.ComplexityOutOfRange | internal/protocol/hello_test.go:55-56 | A complexity above 2^63-1 is a complexity range error |
| Challenges.SimpleChallengeVector | internal/protocol/hello_test.go:30-37 | `111--222` decodes to nonce 111 and complexity 222 |
| Challenges.ThreeFieldVector | internal/protocol/hello_test.go:38-41 | `111--222--333` fails with a syntax error in the complexity field |
| Challenges.BadNonceVector | internal/protocol/hello_test.go:42-45 | `aaaa--222` fails with a syntax error in the nonce field |
| Challenges.BadComplexityVector | internal/protocol/hello_test.go:46-49 | `111--bbbb` fails with a syntax error in the complexity field |
| Challenges.SimpleBytesVector | internal/protocol/hello_test.go:74-80 | Nonce 111 and complexity 222 encode to `111--222` |
| QuoteRequests.SetField | internal/protocol/quote.go:45-59 | Field i is accepted exactly when it parses: a number for the two nonces, base64 for the solution, anything for the addresses. On success the request carries that field's value and every other field is unchanged. On failure the cause is the field parser's own error: ParseUint's for a nonce field, base64's for the solution |
| QuoteRequests.ParseFields | internal/protocol/quote.go:44-61 | The loop succeeds exactly when every remaining field parses, and the result carries every field. On failure it reports the first field that does not parse, with its index, and the cause is that field's own parser error, which is a base64 error exactly for the solution field |
| QuoteRequests.ParseQuoteRequest | internal/protocol/quote.go:36-62 | An input over 64 KiB is rejected with its length, and only such inputs are. Fewer than five parts is a field-count error with the count. Otherwise parsing succeeds exactly when all five fields parse, and the result carries every field. When the length is within the limit and there are five parts, every error is a field error. A field error names the first failing field, which is never an address, and carries that field's own parser error (ParseUint's `ErrSyntax` or `ErrRange`, or base64's) |
| QuoteRequests.Bytes | internal/protocol/quote.go:64-78 | The output is always the five wire fields (the two addresses, the nonces' canonical digits and the solution's base64) joined by `--`. For clean addresses, splitting the output gives back exactly those five fields, and they carry every value of the request |
| QuoteRequests.QuoteRoundTrip | internal/protocol/quote.go:36-78 | A request within the length limit reads back as itself exactly when both addresses are clean |
| QuoteRequests.ExtraFieldRejected | internal/protocol/quote_test.go:60-61 | A sixth `--` field stays in the solution field and fails as illegal base64 in field 4 |
| QuoteRequests.SolutionFieldFails | internal/protocol/quote.go:54-58 | When the numbers parse and the solution does not, the error names field 4 |
| QuoteRequests.ServerNonceFailureFirst | internal/protocol/quote.go:44-58 | A bad server nonce is reported with ParseUint's own error, whatever the later fields hold |
| NetAddr.ParseIPv4AddrPort | internal/puzzle/solution.go:26 | A host is returned exactly when the input has a `:`, the text before its last `:` is four dotted octets and the text after it is a 16-bit decimal. The host returned is the text before that last `:` |
| NetAddr.StripPort | internal/puzzle/solution.go:25-32 | The address is changed exactly when it cuts at its last `:` into an IPv4 host and a 16-bit decimal port, and it then becomes the text before that last `:`. Otherwise it is returned whole |
| NetAddr.StripPortOfHostPort | internal/puzzle/solution.go:25-31 | An IPv4 host joined to a 16-bit decimal port is stripped back to the host |
| NetAddr.StripPortBadPort | internal/puzzle/solution.go:26-28 | An address whose text after the last `:` is not a 16-bit decimal is returned whole |
| NetAddr.StripPortBadHost | internal/puzzle/solution.go:26-28 | An address whose text before the last `:` is not an IPv4 address is returned whole, even with a valid port |
| NetAddr.StripPortWithoutColon | internal/puzzle/solution.go:26-28 | An address without `:` is returned whole |
| Sha1.Digest | internal/puzzle/solution.go:78 | The digest is 20 bytes long |
| Hex.Encode | internal/puzzle/solution.go:79 | The output has two lowercase hex digits per byte, and each pair spells its byte's value |
| Hex.EncodeInjective | internal/puzzle/solution.go:79 | Distinct digests have distinct hex text |
| Solutions.Hash | internal/puzzle/solution.go:68-80 | The hash is 40 lowercase hex characters |
| Solutions.Preimage | internal/puzzle/solution.go:69-76 | The hashed text starts with the client ID and a `;` and ends with a `;` and the solution. Between them stand the canonical decimal server nonce, a `;` and the canonical decimal client nonce. When the client ID holds no `;`, the first `;` is the one that ends it |
| Solutions.PreimageInjective | internal/puzzle/solution.go:69-76 | If client IDs hold no `;`, equal hashed texts come from equal hash data, so every attempt hashes a text of its own |
| Solutions.HashMatchesChallenge | internal/puzzle/solution.go:82-95 | True exactly when the hash has at least `complexity` characters and its first `complexity` are all `0`. A complexity of zero or below always passes |
| Solutions.DifficultyMonotone | internal/puzzle/solution.go:82-95 | A hash meeting a difficulty meets every lower one |
| Solutions.DifficultyBeyondHashLength | internal/puzzle/solution.go:85-87 | No request meets a difficulty above 40 |
| Solutions.SixZerosVector | internal/puzzle/solution_test.go:19-25 | `000000…` meets difficulty 6 |
| Solutions.DifficultyMissedVectors | internal/puzzle/solution_test.go:26-60 | `000001…` misses difficulty 6, and an 8-character hash misses difficulty 9 |
| Solutions.OneZeroVector | internal/puzzle/solution_test.go:33-39 | A leading `0` meets difficulty 1, whatever follows |
| Solutions.NonPositiveDifficultyVectors | internal/puzzle/solution_test.go:40-53 | Difficulties 0 and -1 are met by any text |
| Solutions.Admit | internal/puzzle/solution.go:34-66 | A submission passes exactly when both addresses and the server nonce match, the attempt is new and the hash meets the difficulty. Only a pass adds the attempt key to the set. Checks fail fast in source order: server address, client address, server nonce, repeat, hash. Each error occurs exactly under its own condition and carries what Go prints: both addresses, the claimed then the issued nonce, the attempt key, or the request text, its hash and the complexity |
| Solutions.ZeroComplexityAdmitted | internal/puzzle/solution_test.go:124-143 | With complexity 0, a correctly addressed new attempt passes whatever its solution |
| Solutions.ServerAddrMismatchVector | internal/puzzle/solution_test.go:196-216 | A request naming server `172.18.0.2:9999` that reaches `172.18.0.222:9999` is refused on the server address, with both addresses in the error, whatever else it holds |
| Solutions.ClientAddrMismatchVector | internal/puzzle/solution_test.go:217-237 | Client `172.18.0.3` connecting from `172.18.0.30:1234` is refused on the client address, and the error shows the unstripped address |
| Solutions.LongerHostKept | internal/puzzle/solution.go:38 | An address whose byte right after a host's length is not `:` never strips to that host |
| Solutions.ResubmissionRejected | internal/puzzle/solution_test.go:145-153 | The same submission made twice never passes the second time |
| Solutions.Step | internal/puzzle/solution.go:48-63 | A pass requires a key not yet in the set and adds exactly that key. A failure leaves the set as it was |
| Solutions.RunAcceptsEachAttemptOnce | internal/puzzle/solution.go:22-63 | Over any sequence of submissions, no attempt key is accepted twice and none already recorded is accepted. The set grows by exactly the accepted keys |
| Solutions.Validator.SolutionValid | internal/puzzle/solution.go:34-66 | One call applies Admit to the attempts recorded so far and keeps the resulting set |
| Requests.ParseBool | internal/puzzle/request.go:19 | True exactly for the six true spellings, false exactly for the six false spellings, and a syntax error otherwise |
| Requests.ProtectionEnabled | internal/puzzle/request.go:14-24 | Protection is off exactly when PROTECTED is set to one of the six false spellings. Unset, empty and unparsable values leave it on |
| Requests.IsHello | internal/puzzle/request.go:34 | A token is HELLO when it has five bytes and each is the letter of `HELLO` or its lower-case form |
| Requests.IsHelloByUpperCase | internal/puzzle/request.go:34 | The HELLO test equals upper-casing the token's ASCII letters and comparing with `HELLO` |
| Requests.Decide | internal/puzzle/request.go:34-42 | A line is a challenge request exactly when it is HELLO in any case. Any other line is the quote request it parses to, or fails with that parse's error |
| Requests.HelloNotQuote | internal/puzzle/request.go:34-42 | A HELLO token never parses as a quote request: it is one field where five are needed, so the order of the two checks does not matter |
| Requests.ReadRequest | internal/puzzle/request.go:26-49 | The first non-empty line alone decides: a challenge request if it is HELLO in any case, otherwise the quote request it parses to or its parse error. Input with no non-empty line is an invalid request |
| Requests.InvalidRequestOnlyWhenAllEmpty | internal/puzzle/request.go:28-48 | The invalid-request error occurs exactly when every line is empty |
| Requests.LaterLinesIgnored | internal/puzzle/request.go:28-43 | Once a non-empty line has been read, appending more lines changes nothing |
| Requests.HelloVectors | internal/puzzle/request.go:34-35 | `HELLO` (the token of request_test.go:33-37) and, through the case-folded comparison, `hello` ask for a challenge |
| Requests.EmptyInputVectors | internal/puzzle/request_test.go:55-62 | No input, or only empty lines, is an invalid request |
| Solver.Draw | internal/puzzle/solve.go:17-20 | Each draw fills a whole 128-byte solution |
| Solver.Solve | internal/puzzle/solve.go:13-28 | A found solution comes from the first draw that solves the challenge. The request keeps its client ID and nonces and gets a 128-byte solution. The returned hash is that request's hash and meets the difficulty. None means no draw in the stream solves it. Complexity 0 or below is solved by the first draw |
| Solver.SolvedRequestAdmitted | internal/puzzle/solve.go:19-27 | A found solution submitted from the addresses it was made for is accepted the first time |
| Solver.ResolvingRejected | internal/puzzle/solution.go:48-55 | After an accepted attempt, a new solution with the same client and nonces is rejected as a repeat, because the solution is not part of the key |

## Left out

- `internal/puzzle/nonce.go`: nonce generation and rotation are not part of this model. A challenge's nonce is an input.
- `cmd/server` and `cmd/client`: connection handling, deadlines, the quote provider and replies are outside the core.
- The mutex around the attempt set is not modelled. Each call of `SolutionValid` is one atomic step on the set, so concurrency is left out.
- `bufio.Scanner`: `ReadRequest` takes the lines the scanner would yield. Line splitting, the 64 KiB token limit and read errors (`sc.Err()`) are not modelled.
- Error messages are constructors with their fields, not formatted text. The offset inside `base64.CorruptInputError` is dropped, and a `strconv.NumError` keeps only its kind: the function name and the quoted input that Go's message prints (`strconv.ParseUint: parsing "aaaa": invalid syntax`) are not modelled.
- Sha1.Digest: only the digest length is stated. The model computes SHA-1 as FIPS 180-4 defines it, but no property of the function beyond its size is proved, and no test digest is evaluated.
- NetAddr.StripPort: only IPv4 hosts are parsed. A bracketed IPv6 host, or any address `netip.ParseAddrPort` reads as IPv6, is returned whole instead of stripped.
- NetAddr.ParseIPv4AddrPort: a host in brackets, or any host that is not IPv4 text, gives None. Go's `netip.ParseAddrPort` would accept an IPv6 host there.
- Solver.Solve: the random source is a finite byte stream, so a search that runs out of draws returns None where Go loops forever. The time-based seed and the printed seed line are left out.
- Solutions.HashMatchesChallenge: the hash is taken as a sequence of runes. Go's conversion of invalid UTF-8 to U+FFFD does not arise, because hashes are hex.
- Challenges.Challenge: Go's `int` complexity is taken as 64 bits wide, so `int(complexity)` never truncates.
- Challenges.ChallengeFromBytes: the Go panic on a valid nonce without a separator is modelled as the error `IndexOutOfRange`.
- The test encoding `MaxUint64--MaxInt` (hello_test.go:81-86) is not evaluated as a literal. `Challenges.ChallengeRoundTrip` covers both extremes.
- The quote-request literals of quote_test.go and request_test.go (the `10.0.0.1:9999--…--eHl6` request) are not evaluated. `QuoteRequests.QuoteRoundTrip` and `Requests.ReadRequest` state the general behaviour.
- The hash literal in solution_test.go:82, and the "valid solution" and "invalid solution" cases of solution_test.go:100-174, are not evaluated, because SHA-1 is not computed in proofs.
- The "server nonce" case of solution_test.go:176-195 is not evaluated as a literal: it needs the test's client address to parse as IPv4. `Solutions.Admit` states the nonce check in general, with the claimed nonce before the issued one in the error.
- Requests.ProtectionEnabled: the environment variable is an `Option<string>`. An unset variable is treated like an empty one, as `os.Getenv` does.
