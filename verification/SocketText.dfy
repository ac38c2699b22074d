// Text of IP and socket addresses, as the Rust library reads and prints it. IPv4 addresses,
// ports and scope ids are read digit by digit; the text of an IPv6 address is a parameter with a
// print/parse law. The endpoint code sees all of it through `AddressText`.
module SocketText {
  import opened Text
  import opened MultiaddrText

  type Port = n: int | 0 <= n < 0x1_0000

  type Ip6 = n: int | 0 <= n < 0x1_0000_0000_0000_0000_0000_0000_0000_0000

  datatype IpAddr = V4(a: Byte, b: Byte, c: Byte, d: Byte) | V6(bits: Ip6) {
    predicate IsUnspecified() {
      this == V4(0, 0, 0, 0) || this == V6(0)
    }
  }

  /** `scope` is the IPv6 scope id; it is 0 for an IPv4 address. */
  datatype SocketAddr = SocketAddr(ip: IpAddr, port: Port, scope: nat)

  /** The library's IPv6 text form, which this model does not spell out. */
  datatype Ip6Text = Ip6Text(parse: string -> Option<Ip6>, show: Ip6 -> string)

  predicate IsIp6Char(c: char) {
    IsDigit(c) || 'a' <= c <= 'f' || c == ':' || c == '.'
  }

  /** What the library promises: printing is read back, and printed text is hex, ':' and '.'. */
  ghost predicate FaithfulIp6(ip6: Ip6Text) {
    && (forall ip: Ip6 :: ip6.parse(ip6.show(ip)) == Some(ip))
    && (forall ip: Ip6 :: ':' in ip6.show(ip) && |ip6.show(ip)| <= 45)
    && (forall ip: Ip6, i | 0 <= i < |ip6.show(ip)| :: IsIp6Char(ip6.show(ip)[i]))
  }

  function ParseOctet(s: string): Option<Byte> {
    if 1 <= |s| <= 3 && AllDigits(s) && (|s| == 1 || s[0] != '0') && DecimalValue(s) < 256
    then Some(DecimalValue(s))
    else None
  }

  function ParseIp4(s: string): Option<IpAddr> {
    var parts := Split(s, '.');
    if |parts| != 4 then None
    else match (ParseOctet(parts[0]), ParseOctet(parts[1]), ParseOctet(parts[2]), ParseOctet(parts[3]))
      case (Some(a), Some(b), Some(c), Some(d)) => Some(V4(a, b, c, d))
      case _ => None
  }

  function ParseIp(ip6: Ip6Text, s: string): Option<IpAddr> {
    match ParseIp4(s)
    case Some(ip) => Some(ip)
    case None => match ip6.parse(s)
      case Some(bits) => Some(V6(bits))
      case None => None
  }

  /** A port inside a socket address: digits, leading zeros allowed. */
  function ParseSocketPort(s: string): Option<Port> {
    if s != "" && AllDigits(s) && DecimalValue(s) < 0x1_0000 then Some(DecimalValue(s)) else None
  }

  /** A port parsed on its own, as `u16`: one '+' is also allowed. */
  function ParsePort(s: string): Option<Port> {
    if s != "" && s[0] == '+' then ParseSocketPort(s[1..]) else ParseSocketPort(s)
  }

  function ParseScope(s: string): Option<nat> {
    if s != "" && AllDigits(s) && DecimalValue(s) < 0x1_0000_0000 then Some(DecimalValue(s)) else None
  }

  function ParseSocket4(s: string): Option<SocketAddr> {
    match SplitOnce(s, ':')
    case None => None
    case Some((host, port)) =>
      match (ParseIp4(host), ParseSocketPort(port))
      case (Some(ip), Some(p)) => Some(SocketAddr(ip, p, 0))
      case _ => None
  }

  function ParseScoped6(ip6: Ip6Text, s: string): Option<(Ip6, nat)> {
    match SplitOnce(s, '%')
    case None => (match ip6.parse(s) case Some(ip) => Some((ip, 0)) case None => None)
    case Some((address, scope)) =>
      match (ip6.parse(address), ParseScope(scope))
      case (Some(ip), Some(id)) => Some((ip, id))
      case _ => None
  }

  function ParseSocket6(ip6: Ip6Text, s: string): Option<SocketAddr> {
    if !StartsWith(s, "[") then None
    else match SplitOnce(s[1..], ']')
      case None => None
      case Some((inner, rest)) =>
        if !StartsWith(rest, ":") then None
        else match (ParseScoped6(ip6, inner), ParseSocketPort(rest[1..]))
          case (Some((ip, scope)), Some(port)) => Some(SocketAddr(V6(ip), port, scope))
          case _ => None
  }

  function ParseSocket(ip6: Ip6Text, s: string): Option<SocketAddr> {
    match ParseSocket4(s)
    case Some(address) => Some(address)
    case None => ParseSocket6(ip6, s)
  }

  function PrintIp(ip6: Ip6Text, ip: IpAddr): string {
    match ip
    case V4(a, b, c, d) => Join([Decimal(a), Decimal(b), Decimal(c), Decimal(d)], '.')
    case V6(bits) => ip6.show(bits)
  }

  /** The printed form of an address without a scope id, which is all the rewriter prints. */
  function PrintSocket(ip6: Ip6Text, ip: IpAddr, port: Port): string {
    match ip
    case V4(_, _, _, _) => PrintIp(ip6, ip) + ":" + Decimal(port)
    case V6(_) => "[" + PrintIp(ip6, ip) + "]:" + Decimal(port)
  }

  lemma OctetRoundTrip(n: Byte)
    ensures ParseOctet(Decimal(n)) == Some(n)
  {
    DecimalRoundTrip(n);
  }

  lemma Ip4RoundTrip(ip6: Ip6Text, ip: IpAddr)
    requires ip.V4?
    ensures ParseIp4(PrintIp(ip6, ip)) == Some(ip)
  {
    var parts := [Decimal(ip.a), Decimal(ip.b), Decimal(ip.c), Decimal(ip.d)];
    SplitOfJoin(parts, '.');
    OctetRoundTrip(ip.a);
    OctetRoundTrip(ip.b);
    OctetRoundTrip(ip.c);
    OctetRoundTrip(ip.d);
  }

  lemma Ip4Shape(ip6: Ip6Text, ip: IpAddr)
    requires ip.V4?
    ensures forall i :: 0 <= i < |PrintIp(ip6, ip)| ==> IsDigit(PrintIp(ip6, ip)[i]) || PrintIp(ip6, ip)[i] == '.'
    ensures 1 <= |PrintIp(ip6, ip)| <= 15
  {
    var a, b, c, d := Decimal(ip.a), Decimal(ip.b), Decimal(ip.c), Decimal(ip.d);
    DecimalRoundTrip(ip.a);
    DecimalRoundTrip(ip.b);
    DecimalRoundTrip(ip.c);
    DecimalRoundTrip(ip.d);
    JoinOfFour(a, b, c, d, '.');
  }

  lemma PortRoundTrip(port: Port)
    ensures ParseSocketPort(Decimal(port)) == Some(port)
    ensures ParsePort(Decimal(port)) == Some(port)
  {
    DecimalRoundTrip(port);
  }

  /** A printed IP is a valid multiaddr segment and is read back as itself. */
  lemma IpRoundTrip(ip6: Ip6Text, ip: IpAddr)
    requires FaithfulIp6(ip6)
    ensures ParseIp(ip6, PrintIp(ip6, ip)) == Some(ip)
    ensures IsValidSegment(PrintIp(ip6, ip))
  {
    match ip
    case V4(_, _, _, _) =>
      Ip4RoundTrip(ip6, ip);
      Ip4Shape(ip6, ip);
    case V6(bits) =>
      var s := ip6.show(bits);
      if ParseIp4(s).Some? {
        Ip4HasNoColon(s);
      }
      assert ip6.parse(s) == Some(bits);
  }

  lemma Ip4HasNoColon(s: string)
    requires ParseIp4(s).Some?
    ensures ':' !in s
  {
    var parts := Split(s, '.');
    JoinOfSplit(s, '.');
    assert parts == [parts[0], parts[1], parts[2], parts[3]];
    JoinOfFour(parts[0], parts[1], parts[2], parts[3], '.');
  }

  lemma Socket4RoundTrip(ip6: Ip6Text, ip: IpAddr, port: Port)
    requires ip.V4?
    ensures ParseSocket4(PrintSocket(ip6, ip, port)) == Some(SocketAddr(ip, port, 0))
  {
    PortRoundTrip(port);
    Ip4RoundTrip(ip6, ip);
    Ip4Shape(ip6, ip);
    SplitOnceAt(PrintIp(ip6, ip), Decimal(port), ':');
    assert PrintSocket(ip6, ip, port) == PrintIp(ip6, ip) + [':'] + Decimal(port);
  }

  lemma ScopedRoundTrip(ip6: Ip6Text, bits: Ip6)
    requires FaithfulIp6(ip6)
    ensures ParseScoped6(ip6, ip6.show(bits)) == Some((bits, 0))
    ensures ']' !in ip6.show(bits)
  {
    var text := ip6.show(bits);
    assert forall i :: 0 <= i < |text| ==> IsIp6Char(text[i]);
    assert SplitOnce(text, '%').None?;
    assert ip6.parse(text) == Some(bits);
  }

  lemma Socket6RoundTrip(ip6: Ip6Text, ip: IpAddr, port: Port)
    requires FaithfulIp6(ip6) && ip.V6?
    ensures ParseSocket6(ip6, PrintSocket(ip6, ip, port)) == Some(SocketAddr(ip, port, 0))
  {
    var s, text, tail := PrintSocket(ip6, ip, port), ip6.show(ip.bits), ":" + Decimal(port);
    PortRoundTrip(port);
    ScopedRoundTrip(ip6, ip.bits);
    assert s[..1] == "[" && s[1..] == text + [']'] + tail;
    SplitOnceAt(text, tail, ']');
    assert tail[..1] == ":" && tail[1..] == Decimal(port);
  }

  lemma SocketRoundTrip(ip6: Ip6Text, ip: IpAddr, port: Port)
    requires FaithfulIp6(ip6)
    ensures ParseSocket(ip6, PrintSocket(ip6, ip, port)) == Some(SocketAddr(ip, port, 0))
  {
    if ip.V4? {
      Socket4RoundTrip(ip6, ip, port);
    } else {
      Socket6RoundTrip(ip6, ip, port);
      SocketStart(ip6, PrintSocket(ip6, ip, port));
    }
  }

  lemma Ip4StartsWithDigit(s: string)
    requires ParseIp4(s).Some?
    ensures s != "" && IsDigit(s[0])
  {
    var parts := Split(s, '.');
    JoinOfSplit(s, '.');
    assert s == parts[0] + ['.'] + Join(parts[1..], '.');
  }

  lemma Socket4Start(s: string)
    requires ParseSocket4(s).Some?
    ensures s != "" && IsDigit(s[0])
  {
    Ip4StartsWithDigit(SplitOnce(s, ':').value.0);
  }

  lemma Socket6Start(ip6: Ip6Text, s: string)
    requires ParseSocket6(ip6, s).Some?
    ensures s != "" && s[0] == '['
  {
    FirstChar(s, "[");
  }

  /** A socket address starts with a digit (IPv4) or a bracket (IPv6). */
  lemma SocketStart(ip6: Ip6Text, s: string)
    ensures ParseSocket4(s).Some? ==> s != "" && IsDigit(s[0])
    ensures ParseSocket(ip6, s).Some? ==> s != "" && (IsDigit(s[0]) || s[0] == '[')
  {
    if ParseSocket4(s).Some? {
      Socket4Start(s);
    } else if ParseSocket6(ip6, s).Some? {
      Socket6Start(ip6, s);
    }
  }

  lemma DecimalTail(n: nat)
    requires n >= 10
    ensures |Decimal(n)| == |Decimal(n / 10)| + 1
  {
  }

  lemma DigitsAreSegment(s: string)
    requires 1 <= |s| <= 512 && AllDigits(s)
    ensures IsValidSegment(s)
  {
    forall i | 0 <= i < |s| ensures IsSegmentChar(s[i]) {
      assert IsDigit(s[i]);
    }
  }

  lemma PortIsSegment(port: Port)
    ensures IsValidSegment(Decimal(port))
  {
    var tens, hundreds := port / 10, port / 10 / 10;
    DecimalRoundTrip(hundreds);
    if port >= 10 {
      DecimalTail(port);
      if tens >= 10 {
        DecimalTail(tens);
      }
    }
    DigitsAreSegment(Decimal(port));
  }

  // ---------- the text operations the endpoint code calls ----------

  datatype AddressText = AddressText(
    parseSocket: string -> Option<SocketAddr>,
    parseIp: string -> Option<IpAddr>,
    parsePort: string -> Option<Port>,
    showSocket: (IpAddr, Port) -> string,
    showIp: IpAddr -> string,
    showPort: Port -> string)

  /** Printed text is read back, fits a multiaddr segment, and a socket address never starts like one. */
  ghost predicate Faithful(text: AddressText) {
    && (forall ip: IpAddr, port: Port :: text.parseSocket(text.showSocket(ip, port)) == Some(SocketAddr(ip, port, 0)))
    && (forall ip: IpAddr :: text.parseIp(text.showIp(ip)) == Some(ip))
    && (forall ip: IpAddr :: IsValidSegment(text.showIp(ip)))
    && (forall port: Port :: text.parsePort(text.showPort(port)) == Some(port))
    && (forall port: Port :: IsValidSegment(text.showPort(port)))
    && (forall s: string :: text.parseSocket(s).Some? ==> s != "" && (IsDigit(s[0]) || s[0] == '['))
  }

  /** The library's own text, given its IPv6 form. */
  function Standard(ip6: Ip6Text): AddressText {
    AddressText(
      (s: string) => ParseSocket(ip6, s),
      (s: string) => ParseIp(ip6, s),
      (s: string) => ParsePort(s),
      (ip: IpAddr, port: Port) => PrintSocket(ip6, ip, port),
      (ip: IpAddr) => PrintIp(ip6, ip),
      (port: Port) => Decimal(port))
  }

  lemma StandardIsFaithful(ip6: Ip6Text)
    requires FaithfulIp6(ip6)
    ensures Faithful(Standard(ip6))
  {
    var text := Standard(ip6);
    forall ip: IpAddr, port: Port
      ensures text.parseSocket(text.showSocket(ip, port)) == Some(SocketAddr(ip, port, 0))
    {
      SocketRoundTrip(ip6, ip, port);
    }
    forall ip: IpAddr
      ensures text.parseIp(text.showIp(ip)) == Some(ip) && IsValidSegment(text.showIp(ip))
    {
      IpRoundTrip(ip6, ip);
    }
    forall port: Port
      ensures text.parsePort(text.showPort(port)) == Some(port) && IsValidSegment(text.showPort(port))
    {
      PortRoundTrip(port);
      PortIsSegment(port);
    }
    forall s: string | text.parseSocket(s).Some?
      ensures s != "" && (IsDigit(s[0]) || s[0] == '[')
    {
      SocketStart(ip6, s);
    }
  }
}
