/**
 * Where a forwarded request goes: the target read off the request URI and
 * the upstream peer descriptor built from it. The URI parser of the `http`
 * crate is not modelled; its answers (`scheme_str()`, `authority()`,
 * `port_u16()`) are the fields of `Uri`.
 */
module Target {
  import opened Wrappers
  import opened Strings

  /** Rust's `u16`. */
  type U16 = n: int | 0 <= n < 0x1_0000

  /** What the request URI reports: its scheme, its authority text and the port in that authority. */
  datatype Uri = Uri(scheme: Option<string>, authority: Option<string>, port: Option<U16>)

  /** `TargetInfo`: the upstream host text, port and whether to speak TLS to it. */
  datatype TargetInfo = TargetInfo(host: string, port: U16, useTls: bool)

  /**
   * The three arguments given to `HttpPeer::new`: the address string, the
   * TLS flag and the SNI host name. There is no local bind address in it.
   */
  datatype HttpPeer = HttpPeer(address: string, tls: bool, sni: string)

  const DefaultHost: string := "localhost"
  const HttpsPort: U16 := 443
  const HttpPort: U16 := 80

  /**
   * `extract_target_info`: the host is the whole authority (port included,
   * if the URI has one) or "localhost"; TLS exactly when the scheme is
   * "https"; the port is the URI's, else 443 with TLS and 80 without.
   */
  function ExtractTargetInfo(uri: Uri): (t: TargetInfo)
    ensures t.useTls <==> uri.scheme == Some("https")
    ensures uri.authority.Some? ==> t.host == uri.authority.value
    ensures uri.authority.None? ==> t.host == "localhost"
    ensures uri.port.Some? ==> t.port == uri.port.value
    ensures uri.port.None? ==> t.port == (if t.useTls then 443 else 80)
  {
    var host := uri.authority.UnwrapOr(DefaultHost);
    var useTls := uri.scheme == Some("https");
    var defaultPort := if useTls then HttpsPort else HttpPort;
    TargetInfo(host, uri.port.UnwrapOr(defaultPort), useTls)
  }

  /**
   * `create_http_peer`: the address is `host:port` with the port in decimal;
   * the TLS flag is passed through and the host doubles as the SNI name.
   */
  function CreateHttpPeer(target: TargetInfo): (peer: HttpPeer)
    ensures peer.tls == target.useTls && peer.sni == target.host
    ensures SplitHostPort(peer.address) == Some((target.host, target.port))
  {
    var address := target.host + ":" + NatToDecimal(target.port);
    HostPortRoundTrip(target.host, target.port);
    HttpPeer(address, target.useTls, target.host)
  }

  // ---------------------------------------------------------------------------
  // Reading an address back (the reference inverse of create_http_peer)
  // ---------------------------------------------------------------------------

  /** The position of the last `c` in `s`, if any. */
  function LastIndexOf(s: string, c: char): (r: Option<nat>)
    ensures r.Some? ==> r.value < |s| && s[r.value] == c && c !in s[r.value + 1..]
    ensures r.None? ==> c !in s
  {
    if s == [] then None
    else if s[|s| - 1] == c then Some(|s| - 1)
    else
      var r := LastIndexOf(s[..|s| - 1], c);
      assert s == s[..|s| - 1] + [s[|s| - 1]];
      r
  }

  /**
   * Splits `host:port` at the LAST ':' (as Rust's `rsplit_once(':')` does
   * when a host/port string is resolved) and reads the port as decimal.
   */
  function SplitHostPort(address: string): Option<(string, U16)> {
    match LastIndexOf(address, ':')
    case None => None
    case Some(i) =>
      var digits := address[i + 1..];
      if digits == [] || !AllDigits(digits) || DecimalValue(digits) >= 0x1_0000 then None
      else Some((address[..i], DecimalValue(digits)))
  }

  /** The host, whatever colons it contains, and the port come back out of `host:port`. */
  lemma HostPortRoundTrip(host: string, port: U16)
    ensures SplitHostPort(host + ":" + NatToDecimal(port)) == Some((host, port))
  {
    var digits := NatToDecimal(port);
    var address := host + ":" + digits;
    assert ':' !in digits;
    assert address[|host|] == ':';
    assert address[|host| + 1..] == digits;
    var i := LastIndexOf(address, ':');
    assert i == Some(|host|);
    assert address[..|host|] == host;
    DecimalRoundTrip(port);
  }

  /**
   * When the authority already names the port (`h:p`, as in every CONNECT
   * target), the peer address names it twice: `h:p:p`.
   */
  lemma AuthorityPortRepeated(scheme: Option<string>, h: string, p: U16)
    ensures CreateHttpPeer(ExtractTargetInfo(Uri(scheme, Some(h + ":" + NatToDecimal(p)), Some(p)))).address
            == h + ":" + NatToDecimal(p) + ":" + NatToDecimal(p)
  {
  }

  /** A URI with neither authority nor port nor scheme goes to port 80 of `localhost`, in the clear. */
  lemma EmptyUriDefaults()
    ensures var peer := CreateHttpPeer(ExtractTargetInfo(Uri(None, None, None)));
      && SplitHostPort(peer.address) == Some(("localhost", 80))
      && !peer.tls && peer.sni == "localhost"
  {
  }
}
