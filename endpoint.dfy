/**
 * The text handling of the outbound connections (src_server/connection.cpp):
 * splitting `user:password@host:port`, the default ports, the key the pool
 * looks a host up by, `stoi` on the port text, and the SOCKS5 messages of
 * RFC 1928 (sections 3 to 6) that `establish` exchanges with a proxy.
 * One char is one byte; a char is sent as its value modulo 256.
 */
module Endpoint {
  import opened Wrappers
  import opened Bytes
  import opened Text

  /** A host written with userinfo: the first '@' exists and is not at index 0. */
  predicate HasUserinfo(s: string)
  {
    |s| > 0 && s[0] != '@' && '@' in s
  }

  /** A host with a port: some ':' after index 0. */
  predicate HasPort(h: string)
  {
    exists i :: 0 < i < |h| && h[i] == ':'
  }

  /** The (userinfo, host) pair `establish` keeps; `userpw` is the slot's previous userinfo.
      `SplitUserinfoParts` states what the pair is. */
  function SplitUserinfo(newhost: string, userpw: string): (string, string)
  {
    match FindChar(newhost, '@')
    case Some(p) => if p > 0 then (newhost[..p], newhost[p + 1..]) else (userpw, newhost)
    case None => (userpw, newhost)
  }

  /** With userinfo the site is the userinfo, the first '@' and the host; without it the
      host is the whole site and the previous userinfo stays. */
  lemma SplitUserinfoParts(newhost: string, userpw: string)
    ensures var r := SplitUserinfo(newhost, userpw);
            && (HasUserinfo(newhost) ==> r.0 + "@" + r.1 == newhost && '@' !in r.0 && |r.0| > 0)
            && (!HasUserinfo(newhost) ==> r == (userpw, newhost))
  {
    match FindChar(newhost, '@')
    case Some(p) =>
      if p > 0 {
        assert newhost == newhost[..p] + "@" + newhost[p + 1..];
      }
    case None =>
  }

  /** The port used when the host names none. */
  function DefaultPort(tls: bool): string
  {
    if tls then "443" else "80"
  }

  /** The (host, port) pair the resolver receives; `SplitPortParts` states what it is. */
  function SplitPort(host: string, tls: bool): (string, string)
  {
    match RFind(host, ':')
    case Some(p) =>
      if p > 0 then
        var port := host[p + 1..];
        (host[..p], if port == [] then DefaultPort(tls) else port)
      else (host, DefaultPort(tls))
    case None => (host, DefaultPort(tls))
  }

  /** The port is the text after the last ':' when that ':' is after index 0, and the
      default when that text is empty or there is no such ':'; the host is the text before
      that ':'. */
  lemma SplitPortParts(host: string, tls: bool)
    ensures var r := SplitPort(host, tls);
            && r.1 != []
            && (!HasPort(host) ==> r == (host, DefaultPort(tls)))
            && (HasPort(host) ==>
                  && 0 < |r.0| < |host| && host[..|r.0|] == r.0 && host[|r.0|] == ':'
                  && ':' !in host[|r.0| + 1..]
                  && r.1 == (if |r.0| + 1 == |host| then DefaultPort(tls) else host[|r.0| + 1..]))
  {
    match RFind(host, ':')
    case Some(p) =>
      if p == 0 {
        assert !HasPort(host);
      }
    case None =>
  }

  /** `request_internal`'s lookup key: the text after the first '@', which is the whole
      text when there is none (npos + 1 wraps to 0). */
  function LookupKey(site: string): (k: string)
    ensures '@' !in site ==> k == site
    ensures '@' in site ==> |k| < |site| && site[|site| - |k| - 1] == '@' && site[|site| - |k|..] == k
                            && '@' !in site[..|site| - |k| - 1]
  {
    match FindChar(site, '@')
    case Some(p) => site[p + 1..]
    case None => site
  }

  /** The pool looks a site up under the same text that `establish` fingerprints, as long
      as the site does not start with '@'. */
  lemma KeyIsEstablishedHost(site: string, userpw: string)
    requires |site| > 0 && site[0] != '@'
    ensures LookupKey(site) == SplitUserinfo(site, userpw).1
  {
    SplitUserinfoParts(site, userpw);
    if '@' in site {
      var k := LookupKey(site);
      var r := SplitUserinfo(site, userpw);
      assert '@' !in r.0;
      assert site == r.0 + "@" + r.1;
      assert site[|r.0|] == '@';
    }
  }

  /** A site starting with '@' is looked up as the text after it but fingerprinted by
      `establish` with the '@' kept, so the two texts differ. */
  lemma LeadingAtKeyDiffers(site: string, userpw: string)
    requires |site| > 0 && site[0] == '@'
    ensures LookupKey(site) == site[1..]
    ensures SplitUserinfo(site, userpw).1 == site
    ensures LookupKey(site) != SplitUserinfo(site, userpw).1
  {
  }

  // ---------------------------------------------------------------------------
  // std::stoi on the port text

  predicate IsSpace(c: char)
  {
    c == ' ' || c == '\t' || c == '\n' || c == 11 as char || c == 12 as char || c == '\r'
  }

  const IntMax: int := 0x7FFF_FFFF
  const IntMin: int := -0x8000_0000

  /** The number of leading decimal digits of `s`. */
  function DigitRun(s: string): (n: nat)
    ensures n <= |s|
    ensures forall i :: 0 <= i < n ==> IsDigit(s[i])
    ensures n < |s| ==> !IsDigit(s[n])
  {
    if |s| > 0 && IsDigit(s[0]) then 1 + DigitRun(s[1..]) else 0
  }

  /** std::stoi: leading white space, an optional sign and at least one digit; `None`
      where it throws (no digits, or a value outside the 32-bit int range). */
  function Stoi(s: string): (r: Option<int>)
    ensures r.Some? ==> IntMin <= r.value <= IntMax
    decreases |s|
  {
    if |s| > 0 && IsSpace(s[0]) then Stoi(s[1..])
    else
      var negative := |s| > 0 && s[0] == '-';
      var t := if |s| > 0 && (s[0] == '-' || s[0] == '+') then s[1..] else s;
      var n := DigitRun(t);
      if n == 0 then None
      else
        var v: int := if negative then 0 - DecimalValue(t[..n]) as int else DecimalValue(t[..n]);
        if IntMin <= v <= IntMax then Some(v) else None
  }

  /** `(unsigned short)stoi(port) & 0xffff`: the value modulo 2^16, as two's complement gives. */
  function PortNumber(v: int): (p: nat)
    ensures p < 0x1_0000
    ensures 0 <= v < 0x1_0000 ==> p == v
  {
    v % 0x1_0000
  }

  /** Reading a rendered port number back gives the number. */
  lemma StoiOfDecimal(n: nat)
    requires n <= IntMax
    ensures Stoi(Decimal(n)) == Some(n)
    ensures PortNumber(n % 0x1_0000) == n % 0x1_0000
  {
    var s := Decimal(n);
    assert !IsSpace(s[0]) && s[0] != '-' && s[0] != '+' by {
      assert s[0] in s;
    }
    AllDigitsRun(s);
    assert s[..|s|] == s;
    DecimalRoundTrip(n);
  }

  lemma AllDigitsRun(s: string)
    requires forall c :: c in s ==> IsDigit(c)
    ensures DigitRun(s) == |s|
  {
  }

  // ---------------------------------------------------------------------------
  // SOCKS5 (RFC 1928)

  /** The method-selection message: version 5, one method, "no authentication". */
  const Greeting: seq<byte> := [5, 1, 0]

  /** The method-selection reply (2 bytes) passes when its second byte is 0. */
  predicate GreetingAccepted(resp: seq<byte>)
    requires |resp| == 2
  {
    resp[1] == 0
  }

  function ByteOf(c: char): byte
  {
    (c as int % 256) as byte
  }

  function HostBytes(h: string): (b: seq<byte>)
    ensures |b| == |h|
  {
    seq(|h|, i requires 0 <= i < |h| => ByteOf(h[i]))
  }

  /** The CONNECT request for a domain name: VER CMD RSV ATYP=3, the name's length
      modulo 256, the name, the port most significant byte first. */
  function ConnectRequest(host: string, port: nat): (m: seq<byte>)
    requires port < 0x1_0000
    ensures |m| == 7 + |host|
  {
    [5, 1, 0, 3, (|host| % 256) as byte] + HostBytes(host) + [(port / 256) as byte, (port % 256) as byte]
  }

  /** The CONNECT reply (10 bytes) passes when its second byte, REP, is 0. */
  predicate ConnectAccepted(resp: seq<byte>)
    requires |resp| == 10
  {
    resp[1] == 0
  }

  /** How a SOCKS5 server reads a CONNECT request for a domain name (section 4 of
      RFC 1928): the name and the port, or `None` for a malformed request. */
  function ParseConnect(m: seq<byte>): (r: Option<(seq<byte>, nat)>)
    ensures r.Some? ==> r.value.1 < 0x1_0000 && |r.value.0| < 256
  {
    if |m| < 5 || m[..4] != [5, 1, 0, 3] then None
    else
      var len := m[4] as int;
      if |m| != 7 + len then None
      else Some((m[5..5 + len], m[5 + len] as int * 256 + m[6 + len] as int))
  }

  /** A server reads back the host and the port `establish` sends, for every name
      shorter than 256 bytes. */
  lemma ConnectRoundTrip(host: string, port: nat)
    requires port < 0x1_0000 && |host| < 256
    ensures ParseConnect(ConnectRequest(host, port)) == Some((HostBytes(host), port))
  {
    var m := ConnectRequest(host, port);
    assert m[..4] == [5, 1, 0, 3];
    assert m[4] as int == |host|;
    assert m[5..5 + |host|] == HostBytes(host);
  }

  /** A name of 256 bytes or more is announced with its length modulo 256, so the
      request no longer parses. */
  lemma LongHostMalformed(host: string, port: nat)
    requires port < 0x1_0000 && |host| == 256
    ensures ConnectRequest(host, port)[4] == 0
    ensures ParseConnect(ConnectRequest(host, port)) == None
  {
  }
}
