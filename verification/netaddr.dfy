/** The part of Go's `netip.ParseAddrPort` and `Addr.String` that `stripPort`
    relies on, for IPv4 hosts: the address is cut at its last ':', the port
    must be a 16-bit decimal, and the host must be four dotted decimal octets
    with no leading zeros, which makes the host text its own canonical form. */
module NetAddr {
  import opened Results
  import opened Wire
  import opened Decimal

  const Colon: byte := 58
  const Dot: byte := 46
  const OpenBracket: byte := 91

  /** One IPv4 field: digits without a leading zero, at most 255. */
  predicate IsOctet(f: seq<byte>) {
    |f| > 0 && AllDigits(f) && (|f| > 1 ==> f[0] != Zero) && Value(f) <= 255
  }

  /** `s` is `n` octets joined by single dots. */
  predicate DottedOctets(s: seq<byte>, n: nat)
    decreases n
  {
    if n <= 1 then n == 1 && IsOctet(s)
    else match IndexOf(s, Dot)
      case None => false
      case Some(i) => IsOctet(s[..i]) && DottedOctets(s[i + 1..], n - 1)
  }

  /** Text `netip.ParseAddr` reads as an IPv4 address. */
  predicate IsIPv4Text(s: seq<byte>) {
    DottedOctets(s, 4)
  }

  /** Dotted octets are made of digits and dots only. */
  lemma {:induction false} DottedOctetsBytes(s: seq<byte>, n: nat)
    requires DottedOctets(s, n)
    ensures forall j :: 0 <= j < |s| ==> IsDigit(s[j]) || s[j] == Dot
    decreases n
  {
    if n > 1 {
      var i := IndexOf(s, Dot).value;
      DottedOctetsBytes(s[i + 1..], n - 1);
      forall j | 0 <= j < |s| ensures IsDigit(s[j]) || s[j] == Dot {
        if j < i {
          assert s[j] == s[..i][j];
        } else if j > i {
          assert s[j] == s[i + 1..][j - i - 1];
        }
      }
    }
  }

  /** The text cut at the last ':' is an IPv4 host and a 16-bit decimal port. */
  predicate SplitsAsHostPort(s: seq<byte>) {
    match LastIndexOf(s, Colon)
    case None => false
    case Some(i) => IsIPv4Text(s[..i]) && IsUintText(s[i + 1..], MaxUint16)
  }

  /** Dotted octets start with a digit, never with '['. */
  lemma DottedOctetsStart(s: seq<byte>)
    ensures IsIPv4Text(s) ==> |s| > 0 && IsDigit(s[0])
  {
    if IsIPv4Text(s) {
      var i := IndexOf(s, Dot).value;
      assert s[0] == s[..i][0];
    }
  }

  /** The host of `s` when `netip.ParseAddrPort` accepts it with an IPv4 host, else None.
      A host in brackets must be IPv6, which this model does not parse. */
  function ParseIPv4AddrPort(s: seq<byte>): (r: Option<seq<byte>>)
    ensures r.Some? <==> SplitsAsHostPort(s)
    ensures r.Some? ==> r.value == s[..LastIndexOf(s, Colon).value]
    ensures r.Some? ==> IsIPv4Text(r.value)
    ensures r.Some? ==> exists i :: 0 <= i < |s| && s[i] == Colon && r.value == s[..i]
  {
    match LastIndexOf(s, Colon)
    case None => None
    case Some(i) =>
      var host, port := s[..i], s[i + 1..];
      DottedOctetsStart(host);
      if |host| == 0 || |port| == 0 then None
      else if host[0] == OpenBracket then None
      else if ParseUint(port, MaxUint16).Err? then None
      else if !IsIPv4Text(host) then None
      else Some(host)
  }

  /** `stripPort`: the bare host when the address parses as ip:port, otherwise
      the address unchanged. */
  function StripPort(addr: seq<byte>): (r: seq<byte>)
    ensures r != addr <==> SplitsAsHostPort(addr)
    ensures r != addr ==> r == addr[..LastIndexOf(addr, Colon).value]
    ensures r == addr || (IsIPv4Text(r) && exists i :: 0 <= i < |addr| && addr[i] == Colon && r == addr[..i])
  {
    match ParseIPv4AddrPort(addr)
    case Some(host) => host
    case None => addr
  }

  /** An IPv4 host joined to a decimal port by ':' is stripped back to the host. */
  lemma StripPortOfHostPort(host: seq<byte>, port: seq<byte>)
    requires IsIPv4Text(host)
    requires IsUintText(port, MaxUint16)
    ensures StripPort(host + [Colon] + port) == host
  {
    var s := host + [Colon] + port;
    forall j | |host| < j < |s| ensures s[j] != Colon {
      assert s[j] == port[j - |host| - 1];
    }
    LastIndexOfAt(s, Colon, |host|);
    DottedOctetsBytes(host, 4);
    assert s[..|host|] == host;
    assert s[|host| + 1..] == port;
  }

  /** An address with no ':' is never cut. */
  lemma StripPortWithoutColon(addr: seq<byte>)
    requires forall j :: 0 <= j < |addr| ==> addr[j] != Colon
    ensures StripPort(addr) == addr
  {
  }

  /** An address whose port is not a 16-bit decimal is left whole. */
  lemma StripPortBadPort(host: seq<byte>, port: seq<byte>)
    requires !IsUintText(port, MaxUint16)
    requires forall j :: 0 <= j < |port| ==> port[j] != Colon
    ensures StripPort(host + [Colon] + port) == host + [Colon] + port
  {
    var s := host + [Colon] + port;
    forall j | |host| < j < |s| ensures s[j] != Colon {
      assert s[j] == port[j - |host| - 1];
    }
    LastIndexOfAt(s, Colon, |host|);
    assert s[|host| + 1..] == port;
  }

  /** An address whose host is not IPv4 text is left whole, even with a valid port. */
  lemma StripPortBadHost(host: seq<byte>, port: seq<byte>)
    requires !IsIPv4Text(host)
    requires forall j :: 0 <= j < |port| ==> port[j] != Colon
    ensures StripPort(host + [Colon] + port) == host + [Colon] + port
  {
    var s := host + [Colon] + port;
    forall j | |host| < j < |s| ensures s[j] != Colon {
      assert s[j] == port[j - |host| - 1];
    }
    LastIndexOfAt(s, Colon, |host|);
    assert s[..|host|] == host;
  }
}
