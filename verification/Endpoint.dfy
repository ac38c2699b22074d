// Service-frame endpoints: classification, the TCP parser and the rewriter
// (crates/broadwebd/src/service_frame.rs).
module Endpoint {
  import opened Text
  import opened MultiaddrText
  import opened SocketText

  datatype EndpointError = BadRequest | Unsupported

  datatype ConnectorKind = Tcp | Libp2p | Iroh | Ipns | Dnsaddr

  function TcpFromMultiaddr(text: AddressText, address: Multiaddr): Result<SocketAddr, EndpointError> {
    var segments := Segments(address);
    if |segments| != 4 then Err(Unsupported)
    else if segments[2] != "tcp" then Err(Unsupported)
    else if segments[0] != "ip4" && segments[0] != "ip6" then Err(Unsupported)
    else match text.parseIp(segments[1])
      case None => Err(BadRequest)
      case Some(ip) =>
        if (segments[0] == "ip4") != ip.V4? then Err(BadRequest)
        else match text.parsePort(segments[3])
          case None => Err(BadRequest)
          case Some(port) => Ok(SocketAddr(ip, port, 0))
  }

  function TcpFromEndpoint(text: AddressText, endpoint: string): Result<SocketAddr, EndpointError> {
    match text.parseSocket(endpoint)
    case Some(address) => Ok(address)
    case None => match ParseMultiaddr(endpoint)
      case Err(_) => Err(BadRequest)
      case Ok(address) => TcpFromMultiaddr(text, address)
  }

  predicate IsDeferredTarget(target: string) {
    IsValidSegment(target)
  }

  function KindOfMultiaddr(text: AddressText, address: Multiaddr): Result<ConnectorKind, EndpointError> {
    var segments := Segments(address);
    if TcpFromMultiaddr(text, address).Ok? then Ok(Tcp)
    else if |segments| >= 2 && segments[0] == "ipns" then Ok(Ipns)
    else if "p2p" in segments then Ok(Libp2p)
    else if |segments| >= 2 && segments[0] == "dnsaddr" then Ok(Dnsaddr)
    else if |segments| >= 2 && (segments[0] == "iroh" || segments[0] == "iroh-node") then Ok(Iroh)
    else Err(Unsupported)
  }

  function KindOfEndpoint(text: AddressText, endpoint: string): Result<ConnectorKind, EndpointError> {
    KindOfTrimmed(text, Trim(endpoint))
  }

  function KindOfTrimmed(text: AddressText, endpoint: string): Result<ConnectorKind, EndpointError> {
    if endpoint == "" then Err(BadRequest)
    else if text.parseSocket(endpoint).Some? then Ok(Tcp)
    else if StartsWith(endpoint, "iroh-node:") then
      if IsDeferredTarget(endpoint[10..]) then Ok(Iroh) else Err(BadRequest)
    else if StartsWith(endpoint, "ipns:") then
      if IsDeferredTarget(endpoint[5..]) then Ok(Ipns) else Err(BadRequest)
    else match ParseMultiaddr(endpoint)
      case Err(_) => Err(BadRequest)
      case Ok(address) => KindOfMultiaddr(text, address)
  }

  function MultiaddrOfSocket(text: AddressText, ip: IpAddr, port: Port): string {
    (if ip.V4? then "/ip4/" else "/ip6/") + text.showIp(ip) + "/tcp/" + text.showPort(port)
  }

  function ReachableIp(ip: IpAddr, source: SocketAddr): IpAddr {
    if ip.IsUnspecified() then source.ip else ip
  }

  function EndpointForSource(text: AddressText, endpoint: string, source: SocketAddr): Result<string, EndpointError> {
    match TcpFromEndpoint(text, endpoint)
    case Err(error) => Err(error)
    case Ok(address) =>
      var ip := ReachableIp(address.ip, source);
      if StartsWith(TrimStart(endpoint), "/")
      then Ok(MultiaddrOfSocket(text, ip, address.port))
      else Ok(text.showSocket(ip, address.port))
  }

  lemma NotSlashNotTcp(text: AddressText, endpoint: string)
    requires text.parseSocket(endpoint).None?
    requires endpoint == "" || endpoint[0] != '/'
    ensures TcpFromEndpoint(text, endpoint).Err?
  {
    assert ParseMultiaddr(endpoint).Err?;
  }

  lemma TrimmedTcpIffParsed(text: AddressText, endpoint: string)
    requires Faithful(text)
    ensures KindOfTrimmed(text, endpoint) == Ok(Tcp) <==> TcpFromEndpoint(text, endpoint).Ok?
  {
    if text.parseSocket(endpoint).None? {
      if endpoint == "" {
        NotSlashNotTcp(text, endpoint);
      } else if StartsWith(endpoint, "iroh-node:") {
        FirstChar(endpoint, "iroh-node:");
        NotSlashNotTcp(text, endpoint);
      } else if StartsWith(endpoint, "ipns:") {
        FirstChar(endpoint, "ipns:");
        NotSlashNotTcp(text, endpoint);
      }
    }
  }

  /** The classifier says TCP for exactly the endpoints the TCP parser then accepts. */
  lemma TcpIffParsed(text: AddressText, endpoint: string)
    requires Faithful(text)
    ensures KindOfEndpoint(text, endpoint) == Ok(Tcp) <==> TcpFromEndpoint(text, Trim(endpoint)).Ok?
  {
    TrimmedTcpIffParsed(text, Trim(endpoint));
  }

  // ---------- the two printed forms are read back ----------

  function SocketSegments(text: AddressText, ip: IpAddr, port: Port): seq<string> {
    [if ip.V4? then "ip4" else "ip6", text.showIp(ip), "tcp", text.showPort(port)]
  }

  lemma MultiaddrFormParses(text: AddressText, ip: IpAddr, port: Port)
    requires Faithful(text)
    ensures var address := Multiaddr(MultiaddrOfSocket(text, ip, port));
            ParseMultiaddr(address.text) == Ok(address) && Segments(address) == SocketSegments(text, ip, port)
  {
    var segments := SocketSegments(text, ip, port);
    RejoinOfFour(segments[0], segments[1], segments[2], segments[3]);
    assert MultiaddrOfSocket(text, ip, port) == Rejoin(segments);
    assert AllValidSegments(segments);
    MultiaddrAccepts(segments);
  }

  lemma MultiaddrIsNotSocket(text: AddressText, ip: IpAddr, port: Port)
    requires Faithful(text)
    ensures text.parseSocket(MultiaddrOfSocket(text, ip, port)).None?
  {
    assert MultiaddrOfSocket(text, ip, port)[0] == '/';
  }

  lemma MultiaddrFormRoundTrip(text: AddressText, ip: IpAddr, port: Port)
    requires Faithful(text)
    ensures TcpFromEndpoint(text, MultiaddrOfSocket(text, ip, port)) == Ok(SocketAddr(ip, port, 0))
  {
    MultiaddrFormParses(text, ip, port);
    MultiaddrIsNotSocket(text, ip, port);
    assert text.parseIp(text.showIp(ip)) == Some(ip) && text.parsePort(text.showPort(port)) == Some(port);
    assert TcpFromMultiaddr(text, Multiaddr(MultiaddrOfSocket(text, ip, port))) == Ok(SocketAddr(ip, port, 0));
  }

  // ---------- rewriting ----------

  /** An address printed as a socket address or as a multiaddr. */
  function Printed(text: AddressText, asSocket: bool, ip: IpAddr, port: Port): string {
    if asSocket then text.showSocket(ip, port) else MultiaddrOfSocket(text, ip, port)
  }

  lemma PrintedRoundTrip(text: AddressText, asSocket: bool, ip: IpAddr, port: Port)
    requires Faithful(text)
    ensures TcpFromEndpoint(text, Printed(text, asSocket, ip, port)) == Ok(SocketAddr(ip, port, 0))
    ensures text.parseSocket(Printed(text, asSocket, ip, port)).Some? <==> asSocket
  {
    if asSocket {
      assert text.parseSocket(text.showSocket(ip, port)) == Some(SocketAddr(ip, port, 0));
    } else {
      MultiaddrFormRoundTrip(text, ip, port);
      MultiaddrIsNotSocket(text, ip, port);
    }
  }

  lemma ParsedStart(text: AddressText, endpoint: string)
    requires Faithful(text)
    requires TcpFromEndpoint(text, endpoint).Ok?
    ensures endpoint != "" && !IsWhitespace(endpoint[0])
    ensures endpoint[0] == '/' <==> text.parseSocket(endpoint).None?
  {
  }

  lemma SlashForm(endpoint: string)
    requires endpoint != "" && !IsWhitespace(endpoint[0])
    ensures StartsWith(TrimStart(endpoint), "/") <==> endpoint[0] == '/'
  {
    assert TrimStart(endpoint) == endpoint;
    assert endpoint[..1] == [endpoint[0]];
  }

  /** What rewriting returns, once the endpoint is known to parse: the same form, printed anew. */
  lemma RewriteShape(text: AddressText, endpoint: string, address: SocketAddr, source: SocketAddr)
    requires Faithful(text)
    requires TcpFromEndpoint(text, endpoint) == Ok(address)
    ensures EndpointForSource(text, endpoint, source) ==
            Ok(Printed(text, text.parseSocket(endpoint).Some?, ReachableIp(address.ip, source), address.port))
  {
    ParsedStart(text, endpoint);
    SlashForm(endpoint);
  }

  /**
   * Rewriting keeps the endpoint's form and port, replaces the address exactly when it is
   * unspecified, and is read back by the TCP parser; a scope id is dropped.
   */
  lemma RewriteMeaning(text: AddressText, endpoint: string, address: SocketAddr, source: SocketAddr)
    requires Faithful(text)
    requires TcpFromEndpoint(text, endpoint) == Ok(address)
    ensures EndpointForSource(text, endpoint, source).Ok?
    ensures var rewritten := EndpointForSource(text, endpoint, source).value;
            && TcpFromEndpoint(text, rewritten) == Ok(SocketAddr(ReachableIp(address.ip, source), address.port, 0))
            && (text.parseSocket(rewritten).Some? <==> text.parseSocket(endpoint).Some?)
  {
    RewriteShape(text, endpoint, address, source);
    PrintedRoundTrip(text, text.parseSocket(endpoint).Some?, ReachableIp(address.ip, source), address.port);
  }

  /** A second rewrite for the same source changes nothing. */
  lemma RewriteIdempotent(text: AddressText, endpoint: string, rewritten: string, source: SocketAddr)
    requires Faithful(text)
    requires EndpointForSource(text, endpoint, source) == Ok(rewritten)
    ensures EndpointForSource(text, rewritten, source) == Ok(rewritten)
  {
    var address := TcpFromEndpoint(text, endpoint).value;
    var ip, asSocket := ReachableIp(address.ip, source), text.parseSocket(endpoint).Some?;
    RewriteShape(text, endpoint, address, source);
    PrintedRoundTrip(text, asSocket, ip, address.port);
    RewriteShape(text, rewritten, SocketAddr(ip, address.port, 0), source);
  }

  // ---------- deferred endpoints ----------

  lemma TrimmedBySegment(s: string, target: string)
    requires s != "" && !IsWhitespace(s[0]) && IsValidSegment(target)
    requires |target| <= |s| && s[|s| - |target|..] == target
    ensures Trim(s) == s
  {
    assert s[|s| - |target|..][|target| - 1] == s[|s| - 1];
    assert IsSegmentChar(target[|target| - 1]);
  }

  lemma RejoinOfTwo(protocol: string, target: string)
    ensures Rejoin([protocol, target]) == "/" + protocol + ("/" + target)
  {
    assert [protocol, target][1..] == [target] && [target][1..] == [];
    assert Rejoin([target]) == "/" + target + Rejoin([]);
  }

  /** A multiaddr of two segments is read as such. */
  lemma TwoSegments(s: string, protocol: string, target: string)
    requires IsValidSegment(protocol) && IsValidSegment(target)
    requires s == "/" + protocol + ("/" + target)
    ensures ParseMultiaddr(s) == Ok(Multiaddr(s)) && Segments(Multiaddr(s)) == [protocol, target]
  {
    RejoinOfTwo(protocol, target);
    MultiaddrAccepts([protocol, target]);
  }

  lemma SlashKind(text: AddressText, s: string)
    requires text.parseSocket(s).None? && s != "" && s[0] == '/' && ParseMultiaddr(s).Ok?
    ensures KindOfTrimmed(text, s) == KindOfMultiaddr(text, ParseMultiaddr(s).value)
  {
    if StartsWith(s, "iroh-node:") {
      FirstChar(s, "iroh-node:");
    }
    if StartsWith(s, "ipns:") {
      FirstChar(s, "ipns:");
    }
  }

  /** What a two-segment multiaddr is; it is never TCP. */
  lemma TwoSegmentKind(text: AddressText, address: Multiaddr, protocol: string, target: string)
    requires Segments(address) == [protocol, target]
    ensures protocol == "ipns" ==> KindOfMultiaddr(text, address) == Ok(Ipns)
    ensures protocol == "iroh-node" ==> KindOfMultiaddr(text, address) == Ok(if target == "p2p" then Libp2p else Iroh)
  {
    var segments := Segments(address);
    assert segments[0] == protocol && segments[1] == target;
    assert "p2p" in segments <==> protocol == "p2p" || target == "p2p";
    assert "iroh-node"[0] != "p2p"[0] && "iroh-node"[1] != "ipns"[1];
  }

  lemma MultiaddrKind(text: AddressText, s: string, protocol: string, target: string)
    requires text.parseSocket(s).None? && IsValidSegment(protocol) && IsValidSegment(target)
    requires s == "/" + protocol + ("/" + target)
    ensures protocol == "ipns" ==> KindOfTrimmed(text, s) == Ok(Ipns)
    ensures protocol == "iroh-node" ==> KindOfTrimmed(text, s) == Ok(if target == "p2p" then Libp2p else Iroh)
  {
    TwoSegments(s, protocol, target);
    assert s[0] == '/';
    SlashKind(text, s);
    TwoSegmentKind(text, Multiaddr(s), protocol, target);
  }

  lemma SecondChar(s: string, p: string)
    requires |p| > 1 && StartsWith(s, p)
    ensures |s| > 1 && s[1] == p[1]
  {
    assert s[..|p|][1] == s[1];
  }

  lemma ColonKind(text: AddressText, s: string, target: string)
    requires text.parseSocket(s).None? && IsValidSegment(target)
    ensures StartsWith(s, "iroh-node:") && s[10..] == target ==> KindOfTrimmed(text, s) == Ok(Iroh)
    ensures StartsWith(s, "ipns:") && s[5..] == target ==> KindOfTrimmed(text, s) == Ok(Ipns)
  {
    if StartsWith(s, "ipns:") {
      SecondChar(s, "ipns:");
    }
    if StartsWith(s, "iroh-node:") {
      SecondChar(s, "iroh-node:");
    }
  }

  lemma ColonText(prefix: string, target: string)
    requires prefix != ""
    ensures StartsWith(prefix + target, prefix) && (prefix + target)[|prefix|..] == target
    ensures (prefix + target)[0] == prefix[0]
  {
  }

  lemma NotSocket(text: AddressText, s: string)
    requires Faithful(text) && s != "" && (s[0] == 'i' || s[0] == '/')
    ensures text.parseSocket(s).None?
  {
  }

  predicate SameKind(text: AddressText, s: string, t: string, kind: ConnectorKind) {
    KindOfEndpoint(text, s) == Ok(kind) && KindOfEndpoint(text, t) == Ok(kind)
  }

  lemma IsSegment(s: string)
    requires s == "ipns" || s == "iroh-node"
    ensures IsValidSegment(s) && s[0] == 'i'
  {
  }

  /** The kinds of the two forms of an endpoint, once both are known not to be socket text. */
  lemma TwoForms(text: AddressText, protocol: string, target: string, s: string, t: string)
    requires protocol == "ipns" || protocol == "iroh-node"
    requires IsValidSegment(target) && s == protocol + ":" + target && t == "/" + protocol + ("/" + target)
    requires text.parseSocket(s).None? && text.parseSocket(t).None?
    ensures protocol == "ipns" ==> KindOfTrimmed(text, s) == Ok(Ipns) && KindOfTrimmed(text, t) == Ok(Ipns)
    ensures protocol == "iroh-node" ==>
              && KindOfTrimmed(text, s) == Ok(Iroh)
              && KindOfTrimmed(text, t) == Ok(if target == "p2p" then Libp2p else Iroh)
  {
    IsSegment(protocol);
    assert protocol + ":" == if protocol == "ipns" then "ipns:" else "iroh-node:";
    ColonText(protocol + ":", target);
    ColonKind(text, s, target);
    MultiaddrKind(text, t, protocol, target);
  }

  lemma FormTexts(protocol: string, target: string, s: string, t: string)
    requires protocol != "" && s == protocol + ":" + target && t == "/" + protocol + ("/" + target)
    ensures |target| <= |s| && s[|s| - |target|..] == target && s[0] == protocol[0]
    ensures |target| <= |t| && t[|t| - |target|..] == target && t[0] == '/'
  {
  }

  lemma KindOfTrimmedText(text: AddressText, s: string)
    requires Trim(s) == s
    ensures KindOfEndpoint(text, s) == KindOfTrimmed(text, s)
  {
  }

  /**
   * An IPNS name is the same kind of endpoint in its two forms, `ipns:name` and `/ipns/name`. So is
   * an iroh node, except one called p2p, which as a multiaddr is libp2p.
   */
  lemma DeferredFormsAgreeIff(text: AddressText, protocol: string, target: string, s: string, t: string)
    requires Faithful(text) && IsValidSegment(target)
    requires protocol == "ipns" || protocol == "iroh-node"
    requires s == protocol + ":" + target && t == "/" + protocol + ("/" + target)
    ensures SameKind(text, s, t, if protocol == "ipns" then Ipns else Iroh) <==> protocol == "ipns" || target != "p2p"
  {
    IsSegment(protocol);
    FormTexts(protocol, target, s, t);
    TrimmedBySegment(s, target);
    TrimmedBySegment(t, target);
    NotSocket(text, s);
    NotSocket(text, t);
    TwoForms(text, protocol, target, s, t);
    KindOfTrimmedText(text, s);
    KindOfTrimmedText(text, t);
  }
}
