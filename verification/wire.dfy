/** Byte strings as they cross the wire, and the `--` field separator shared
    by the challenge and the quote-request formats (protocol/hello.go:8). */
module Wire {
  import opened Results

  type byte = x: int | 0 <= x < 256

  const Dash: byte := 45       // '-'
  const Semicolon: byte := 59  // ';'

  /** The two-byte field separator `--`. */
  const Separator: seq<byte> := [Dash, Dash]

  predicate SeparatorAt(s: seq<byte>, i: int) {
    0 <= i && i + 1 < |s| && s[i] == Dash && s[i + 1] == Dash
  }

  predicate ContainsSeparator(s: seq<byte>) {
    exists i | 0 <= i < |s| :: SeparatorAt(s, i)
  }

  predicate EndsWithDash(s: seq<byte>) {
    |s| > 0 && s[|s| - 1] == Dash
  }

  /** A field that can be followed by a separator and still be cut off
      exactly there: it holds no `--` and does not end in `-`. */
  predicate IsCleanField(s: seq<byte>) {
    !ContainsSeparator(s) && !EndsWithDash(s)
  }

  /** The first position of `--` in `s`, as `bytes.Index` reports it. */
  function FirstSeparator(s: seq<byte>): (r: Option<nat>)
    ensures r.Some? ==> SeparatorAt(s, r.value)
    ensures r.Some? ==> forall j :: 0 <= j < r.value ==> !SeparatorAt(s, j)
    ensures r.None? ==> !ContainsSeparator(s)
  {
    SeparatorFrom(s, 0)
  }

  function SeparatorFrom(s: seq<byte>, i: nat): (r: Option<nat>)
    requires forall j :: 0 <= j < i ==> !SeparatorAt(s, j)
    ensures r.Some? ==> i <= r.value && SeparatorAt(s, r.value)
    ensures r.Some? ==> forall j :: 0 <= j < r.value ==> !SeparatorAt(s, j)
    ensures r.None? ==> !ContainsSeparator(s)
    decreases |s| - i
  {
    if i + 1 >= |s| then None
    else if s[i] == Dash && s[i + 1] == Dash then Some(i)
    else SeparatorFrom(s, i + 1)
  }

  /** The parts joined back together with `--` between neighbours. */
  function Join(parts: seq<seq<byte>>): seq<byte>
    requires |parts| >= 1
  {
    if |parts| == 1 then parts[0] else parts[0] + Separator + Join(parts[1..])
  }

  /** `bytes.SplitN(s, "--", n)` for n >= 1: at most n - 1 cuts, each at the
      first separator of what remains; the last part keeps the rest of the
      input, separators included. */
  function SplitN(s: seq<byte>, n: nat): (parts: seq<seq<byte>>)
    requires n >= 1
    ensures 1 <= |parts| <= n
    ensures Join(parts) == s
    ensures forall i :: 0 <= i < |parts| - 1 ==> IsCleanField(parts[i])
    ensures |parts| < n ==> !ContainsSeparator(parts[|parts| - 1])
    decreases n
  {
    if n == 1 then [s]
    else match FirstSeparator(s)
      case None => [s]
      case Some(m) =>
        PrefixBeforeFirstSeparator(s, m);
        assert s == s[..m] + Separator + s[m + 2..];
        [s[..m]] + SplitN(s[m + 2..], n - 1)
  }

  /** What precedes the first separator is a clean field. */
  lemma PrefixBeforeFirstSeparator(s: seq<byte>, m: nat)
    requires SeparatorAt(s, m)
    requires forall j :: 0 <= j < m ==> !SeparatorAt(s, j)
    ensures IsCleanField(s[..m])
  {
    var head := s[..m];
    forall j | 0 <= j < |head| ensures !SeparatorAt(head, j) {
      assert !SeparatorAt(s, j);
    }
    if m > 0 {
      assert !SeparatorAt(s, m - 1);
    }
  }

  /** A clean field followed by `--` is cut off exactly at its end. */
  lemma FirstSeparatorAfterField(a: seq<byte>, b: seq<byte>)
    requires IsCleanField(a)
    ensures FirstSeparator(a + Separator + b) == Some(|a|)
  {
    var s := a + Separator + b;
    assert SeparatorAt(s, |a|);
    forall j | 0 <= j < |a| ensures !SeparatorAt(s, j) {
      if j + 1 < |a| {
        assert !SeparatorAt(a, j);
      } else {
        assert s[j] == a[|a| - 1];
      }
    }
  }

  /** Input without a separator, or a limit of one part, is not cut at all. */
  lemma SplitNUncut(s: seq<byte>, n: nat)
    requires n >= 1
    requires n > 1 ==> !ContainsSeparator(s)
    ensures SplitN(s, n) == [s]
  {
  }

  /** A clean field followed by `--` becomes the first part, and SplitN
      carries on with what follows the separator. */
  lemma SplitNAfterField(head: seq<byte>, rest: seq<byte>, n: nat)
    requires n >= 2
    requires IsCleanField(head)
    ensures SplitN(head + Separator + rest, n) == [head] + SplitN(rest, n - 1)
  {
    var s := head + Separator + rest;
    FirstSeparatorAfterField(head, rest);
    assert s[..|head|] == head;
    assert s[|head| + 2..] == rest;
  }

  /** SplitN undoes Join whenever every cut falls where Join put a separator:
      the converse of SplitN's own `Join(parts) == s`. */
  lemma {:induction false} SplitNJoin(parts: seq<seq<byte>>, n: nat)
    requires 1 <= |parts| <= n
    requires forall i :: 0 <= i < |parts| - 1 ==> IsCleanField(parts[i])
    requires |parts| < n ==> !ContainsSeparator(parts[|parts| - 1])
    ensures SplitN(Join(parts), n) == parts
    decreases |parts|
  {
    if |parts| == 1 {
      SplitNUncut(parts[0], n);
    } else {
      var m: nat := n - 1;
      TailStaysClean(parts);
      SplitNJoin(parts[1..], m);
      SplitNJoinStep(parts[0], parts[1..], m, n);
      assert parts == [parts[0]] + parts[1..];
    }
  }

  /** One more clean field in front of parts that already split back. */
  lemma SplitNJoinStep(head: seq<byte>, tail: seq<seq<byte>>, m: nat, n: nat)
    requires m >= 1 && n == m + 1 && |tail| >= 1
    requires IsCleanField(head)
    requires SplitN(Join(tail), m) == tail
    ensures SplitN(Join([head] + tail), n) == [head] + tail
  {
    assert ([head] + tail)[1..] == tail;
    SplitNAfterField(head, Join(tail), n);
  }

  /** Dropping the first part keeps SplitNJoin's requirements on the rest. */
  lemma TailStaysClean(parts: seq<seq<byte>>)
    requires |parts| >= 2
    requires forall i :: 0 <= i < |parts| - 1 ==> IsCleanField(parts[i])
    ensures forall i :: 0 <= i < |parts[1..]| - 1 ==> IsCleanField(parts[1..][i])
    ensures parts[1..][|parts[1..]| - 1] == parts[|parts| - 1]
  {
    forall i | 0 <= i < |parts[1..]| - 1 ensures IsCleanField(parts[1..][i]) {
      assert parts[1..][i] == parts[i + 1];
    }
  }

  /** The first position holding byte `b`, if any. */
  function IndexOf(s: seq<byte>, b: byte): (r: Option<nat>)
    ensures r.Some? ==> r.value < |s| && s[r.value] == b
    ensures r.Some? ==> forall j :: 0 <= j < r.value ==> s[j] != b
    ensures r.None? ==> forall j :: 0 <= j < |s| ==> s[j] != b
  {
    if |s| == 0 then None
    else if s[0] == b then Some(0)
    else match IndexOf(s[1..], b)
      case None => None
      case Some(i) => Some(i + 1)
  }

  /** The last position holding byte `b`, if any. */
  function LastIndexOf(s: seq<byte>, b: byte): (r: Option<nat>)
    ensures r.Some? ==> r.value < |s| && s[r.value] == b
    ensures r.Some? ==> forall j :: r.value < j < |s| ==> s[j] != b
    ensures r.None? ==> forall j :: 0 <= j < |s| ==> s[j] != b
  {
    if |s| == 0 then None
    else if s[|s| - 1] == b then Some(|s| - 1)
    else LastIndexOf(s[..|s| - 1], b)
  }

  /** The first occurrence is the one with no occurrence before it. */
  lemma IndexOfAt(s: seq<byte>, b: byte, k: nat)
    requires k < |s| && s[k] == b
    requires forall j :: 0 <= j < k ==> s[j] != b
    ensures IndexOf(s, b) == Some(k)
  {
    var r := IndexOf(s, b);
    assert r.Some?;
    assert !(k < r.value);
  }

  /** The last occurrence is the one with no occurrence after it. */
  lemma LastIndexOfAt(s: seq<byte>, b: byte, k: nat)
    requires k < |s| && s[k] == b
    requires forall j :: k < j < |s| ==> s[j] != b
    ensures LastIndexOf(s, b) == Some(k)
  {
    var r := LastIndexOf(s, b);
    assert r.Some?;
    assert !(r.value < k);
  }
}
