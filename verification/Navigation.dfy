// The address normaliser (crates/browser-core/src/lib.rs). The current directory is a parameter.
module Navigation {
  import opened Text
  import opened TextCoding

  // ---------- string helpers ----------

  function Lower1(c: char): char {
    if 'A' <= c <= 'Z' then (c as int + 32) as char else c
  }

  /** `to_ascii_lowercase`. */
  function Lower(s: string): (r: string)
    ensures |r| == |s|
    ensures forall i :: 0 <= i < |s| ==> r[i] == Lower1(s[i])
  {
    if s == "" then "" else [Lower1(s[0])] + Lower(s[1..])
  }

  predicate Contains(s: string, part: string) {
    StartsWith(s, part) || (s != "" && Contains(s[1..], part))
  }

  predicate EndsWith(s: string, suffix: string) {
    |suffix| <= |s| && s[|s| - |suffix|..] == suffix
  }

  /** Where the first of '/', '?' and '#' is, or the length. */
  function NameEnd(s: string): (n: nat)
    ensures n <= |s|
    ensures forall i :: 0 <= i < n ==> s[i] != '/' && s[i] != '?' && s[i] != '#'
    ensures n < |s| ==> s[n] == '/' || s[n] == '?' || s[n] == '#'
  {
    if s == "" || s[0] == '/' || s[0] == '?' || s[0] == '#' then 0 else 1 + NameEnd(s[1..])
  }

  function TrimEndDots(s: string): (r: string)
    ensures |r| <= |s| && r == s[..|r|]
  {
    if s != "" && s[|s| - 1] == '.' then TrimEndDots(s[..|s| - 1]) else s
  }

  /** The text before the first '#', if any. */
  function BeforeFragment(s: string): (r: string)
    ensures r <= s && '#' !in r
    ensures r != s ==> |r| < |s| && s[|r|] == '#'
  {
    if s == "" || s[0] == '#' then "" else [s[0]] + BeforeFragment(s[1..])
  }

  // ---------- recognisers ----------

  predicate IsOnionLabel(part: string) {
    part != "" && forall i :: 0 <= i < |part| ==> 'a' <= part[i] <= 'z' || IsDigit(part[i]) || part[i] == '-'
  }

  predicate IsOnionHost(text: string) {
    var host := Lower(TrimEndDots(text));
    && EndsWith(host, ".onion")
    && var name := host[..|host| - 6];
       && name != ""
       && forall i :: 0 <= i < |Split(name, '.')| ==> IsOnionLabel(Split(name, '.')[i])
  }

  predicate IsHttp(lower: string) {
    StartsWith(lower, "http://") || StartsWith(lower, "https://")
  }

  function HttpScheme(lower: string): (scheme: string)
    ensures IsHttp(lower) ==> StartsWith(lower, scheme)
  {
    if StartsWith(lower, "http://") then "http://" else "https://"
  }

  /** An `http` or `https` address of an onion host, rewritten to its `tor+` scheme. */
  function HttpOnionAddress(input: string): Option<string> {
    var lower := Lower(input);
    if !IsHttp(lower) then None
    else OnionUrl("tor+" + HttpScheme(lower), input[|HttpScheme(lower)|..])
  }

  /** The host and port of an authority. */
  function HostPort(authority: string): (r: (string, string))
    ensures r.0 <= authority
    ensures r.1 != "" ==> authority == r.0 + ":" + r.1
    ensures r.1 == "" ==> authority == r.0 || authority == r.0 + ":"
  {
    match SplitOnce(authority, ':')
    case Some(pair) => pair
    case None => (authority, "")
  }

  predicate IsOnionAuthority(authority: string) {
    var (host, port) := HostPort(authority);
    authority != "" && '@' !in authority && IsOnionHost(host) && (port == "" || AllDigits(port))
  }

  function AuthorityText(authority: string): string {
    var (host, port) := HostPort(authority);
    Lower(TrimEndDots(host)) + (if port == "" then "" else ":" + port)
  }

  /** A path or query after the authority; a missing path becomes a slash. */
  function SuffixText(suffix: string): string {
    if suffix == "" then "/" else if suffix[0] == '?' then "/" + suffix else suffix
  }

  function OnionUrl(scheme: string, rest: string): Option<string> {
    var end := NameEnd(rest);
    if !IsOnionAuthority(rest[..end]) then None
    else Some(scheme + (AuthorityText(rest[..end]) + SuffixText(BeforeFragment(rest[end..]))))
  }

  predicate IsHttpWithOnionHint(lower: string) {
    IsHttp(lower) && Contains(lower, ".onion")
  }

  predicate HasSupportedScheme(lower: string) {
    || StartsWith(lower, "slate://")
    || StartsWith(lower, "https://")
    || StartsWith(lower, "http://")
    || StartsWith(lower, "tor+http://")
    || StartsWith(lower, "tor+https://")
    || StartsWith(lower, "ipfs://")
    || StartsWith(lower, "ipns://")
    || StartsWith(lower, "i2p://")
    || StartsWith(lower, "gemini://")
    || StartsWith(lower, "magnet:")
    || StartsWith(lower, "file://")
  }

  function IpfsPathAddress(input: string): Option<string> {
    var path := if StartsWith(input, "/") then input[1..] else input;
    var lower := Lower(path);
    if !StartsWith(lower, "ipfs/") && !StartsWith(lower, "ipns/") then None
    else
      var rest := path[5..];
      if rest == "" || !NoWhitespace(rest) || NameEnd(rest) == 0 then None
      else Some((if StartsWith(lower, "ipfs/") then "ipfs://" else "ipns://") + rest)
  }

  predicate IsBase58(c: char) {
    IsAsciiAlphanumeric(c) && c != '0' && c != 'O' && c != 'I' && c != 'l'
  }

  predicate IsCidV0(s: string) {
    |s| == 46 && StartsWith(s, "Qm") && forall i :: 0 <= i < |s| ==> IsBase58(s[i])
  }

  predicate IsCidV1(s: string) {
    && |s| >= 32
    && (StartsWith(s, "bafy") || StartsWith(s, "bafk"))
    && forall i :: 0 <= i < |s| ==> 'a' <= s[i] <= 'z' || '2' <= s[i] <= '7'
  }

  function BareCidAddress(input: string): Option<string> {
    if IsCidV0(input) then Some("ipfs://" + input)
    else if IsCidV1(Lower(input)) && forall i :: 0 <= i < |input| ==> IsAsciiAlphanumeric(input[i])
    then Some("ipfs://" + Lower(input))
    else None
  }

  function OnionAddress(input: string): Option<string> {
    if !NoWhitespace(input) then None
    else
      var end := NameEnd(input);
      var name, rest := input[..end], input[end..];
      if !IsOnionHost(name) then None
      else Some("tor+http://" + (Lower(TrimEndDots(name)) + SuffixText(rest)))
  }

  predicate LooksLikeLocalHtml(lower: string) {
    EndsWith(lower, ".html") || EndsWith(lower, ".htm")
  }

  /** Joining a path to the current directory: an absolute path replaces it. */
  function JoinPath(directory: string, path: string): string {
    if StartsWith(path, "/") || directory == "" then path
    else if EndsWith(directory, "/") then directory + path
    else directory + "/" + path
  }

  function LocalFileAddress(directory: string, path: string): string {
    "file://" + EncodePath(Utf8All(JoinPath(directory, path)))
  }

  predicate IsIp4Like(s: string) {
    var parts := Split(s, '.');
    |parts| == 4 && forall i :: 0 <= i < |parts| ==> parts[i] != "" && AllDigits(parts[i])
  }

  predicate LooksLikeHost(s: string) {
    NoWhitespace(s) && ('.' in s || StartsWith(s, "localhost") || IsIp4Like(Split(s, ':')[0]))
  }

  function SearchAddress(s: string): string {
    "slate://search?q=" + EncodeQuery(s)
  }

  // ---------- the normaliser ----------

  /** The branch a trimmed, non-empty input takes. */
  datatype Route = Rewritten(address: string) | Kept | Search | LocalFile | Host(scheme: string)

  /** The rewritings tried on text without a supported scheme. */
  function BareRewriting(s: string): Option<string> {
    match IpfsPathAddress(s)
    case Some(address) => Some(address)
    case None => match BareCidAddress(s)
      case Some(address) => Some(address)
      case None => OnionAddress(s)
  }

  function BareRoute(s: string, lower: string): Route {
    if LooksLikeLocalHtml(lower) then LocalFile
    else if Contains(lower, "://") then Search
    else if !LooksLikeHost(s) then Search
    else if StartsWith(lower, "localhost") || Contains(lower, ".i2p") then Host("http://")
    else Host("https://")
  }

  function RouteOf(s: string): Route {
    match HttpOnionAddress(s)
    case Some(address) => Rewritten(address)
    case None =>
      if IsHttpWithOnionHint(Lower(s)) then Search
      else if HasSupportedScheme(Lower(s)) then Kept
      else match BareRewriting(s)
        case Some(address) => Rewritten(address)
        case None => BareRoute(s, Lower(s))
  }

  function Address(directory: string, s: string): string {
    match RouteOf(s)
    case Rewritten(address) => address
    case Kept => s
    case Search => SearchAddress(s)
    case LocalFile => LocalFileAddress(directory, s)
    case Host(scheme) => scheme + s
  }

  datatype NavigationError = Empty

  function Normalize(directory: string, input: string): Result<string, NavigationError> {
    var s := Trim(input);
    if s == "" then Err(Empty) else Ok(Address(directory, s))
  }

  // ---------- prefixes ----------

  lemma PrefixOfAppend(p: string, s: string)
    ensures StartsWith(p + s, p) && (p + s)[|p|..] == s
  {
  }

  lemma LowerAppend(a: string, b: string)
    ensures Lower(a + b) == Lower(a) + Lower(b)
  {
  }

  /** Text that starts with a lower-case prefix still does after lower-casing. */
  lemma LowerPrefix(p: string, s: string)
    requires Lower(p) == p && StartsWith(s, p)
    ensures StartsWith(Lower(s), p)
  {
    assert s == p + s[|p|..];
    LowerAppend(p, s[|p|..]);
    PrefixOfAppend(p, Lower(s[|p|..]));
  }

  /** The schemes the normaliser introduces, other than plain http. */
  predicate IsOwnScheme(p: string) {
    || p == "slate://" || p == "tor+http://" || p == "tor+https://"
    || p == "ipfs://" || p == "ipns://" || p == "file://"
  }

  lemma OwnSchemeShape(p: string)
    requires IsOwnScheme(p)
    ensures p != "" && p[0] != 'h' && Lower1(p[0]) == p[0] && p[|p| - 1] == '/'
    ensures !IsWhitespace(p[0])
  {
  }

  lemma LowerFixed(p: string)
    requires forall i :: 0 <= i < |p| ==> Lower1(p[i]) == p[i]
    ensures Lower(p) == p
  {
  }

  lemma OwnSchemeLower(p: string)
    requires IsOwnScheme(p)
    ensures Lower(p) == p
  {
    assert forall i :: 0 <= i < |p| ==> !('A' <= p[i] <= 'Z');
    LowerFixed(p);
  }

  lemma OwnSchemeIsSupported(lower: string, p: string)
    requires IsOwnScheme(p) && StartsWith(lower, p)
    ensures HasSupportedScheme(lower)
  {
  }

  lemma NotHttp(lower: string)
    requires lower == "" || lower[0] != 'h'
    ensures !StartsWith(lower, "http://") && !StartsWith(lower, "https://")
  {
    if StartsWith(lower, "http://") {
      FirstChar(lower, "http://");
    }
    if StartsWith(lower, "https://") {
      FirstChar(lower, "https://");
    }
  }

  /** Text with one of these schemes is kept as it is. */
  lemma OwnSchemeKept(s: string, p: string)
    requires IsOwnScheme(p) && StartsWith(s, p)
    ensures RouteOf(s) == Kept && HasSupportedScheme(Lower(s))
  {
    OwnSchemeShape(p);
    OwnSchemeLower(p);
    LowerPrefix(p, s);
    OwnSchemeIsSupported(Lower(s), p);
    FirstChar(s, p);
    NotHttp(Lower(s));
  }

  // ---------- trimming ----------

  lemma TrimNothing(s: string)
    requires s != "" && !IsWhitespace(s[0]) && !IsWhitespace(s[|s| - 1])
    ensures Trim(s) == s
  {
  }

  lemma {:induction false} TrimEndKeepsPrefix(s: string, p: string)
    requires p != "" && StartsWith(s, p) && !IsWhitespace(p[|p| - 1])
    ensures StartsWith(TrimEnd(s), p)
  {
    if IsWhitespace(s[|s| - 1]) {
      assert s[|p| - 1] == p[|p| - 1];
      TrimEndKeepsPrefix(s[..|s| - 1], p);
    }
  }

  lemma TrimIdempotent(s: string)
    ensures Trim(Trim(s)) == Trim(s)
  {
    if Trim(s) != "" {
      TrimNothing(Trim(s));
    }
  }

  /** Normalising text with one of the normaliser's own schemes only trims its end. */
  lemma OwnSchemeNormalized(directory: string, s: string, p: string)
    requires IsOwnScheme(p) && StartsWith(s, p)
    ensures Normalize(directory, s) == Ok(TrimEnd(s))
    ensures TrimEnd(s) == s <==> !IsWhitespace(s[|s| - 1])
  {
    OwnSchemeShape(p);
    FirstChar(s, p);
    assert Trim(s) == TrimEnd(s);
    TrimEndKeepsPrefix(s, p);
    OwnSchemeKept(TrimEnd(s), p);
    FirstChar(TrimEnd(s), p);
  }

  // ---------- what rewriting produces ----------

  lemma {:induction false} BeforeFragmentAppend(a: string, b: string)
    requires '#' !in a
    ensures BeforeFragment(a + b) == a + BeforeFragment(b)
  {
    if a == "" {
      assert a + b == b;
    } else {
      assert (a + b)[0] == a[0] && (a + b)[1..] == a[1..] + b;
      BeforeFragmentAppend(a[1..], b);
    }
  }

  lemma OnionHostEnd(host: string)
    requires IsOnionHost(host)
    ensures host != "" && !IsWhitespace(host[|host| - 1])
  {
    var lower := Lower(TrimEndDots(host));
    assert lower[|lower| - 1] == ".onion"[5];
    if host[|host| - 1] != '.' {
      assert TrimEndDots(host) == host;
      assert Lower1(host[|host| - 1]) == 'n';
    }
  }

  predicate EndsInSpace(s: string) {
    s != "" && IsWhitespace(s[|s| - 1])
  }

  lemma LastOfAppend(a: string, b: string)
    requires b != ""
    ensures EndsInSpace(a + b) <==> EndsInSpace(b)
  {
    assert (a + b)[|a + b| - 1] == b[|b| - 1];
  }

  lemma OnionAuthorityEnd(authority: string)
    requires IsOnionAuthority(authority)
    ensures authority != "" && !EndsInSpace(authority)
  {
    var (host, port) := HostPort(authority);
    OnionHostEnd(host);
    if port != "" {
      LastOfAppend(host + ":", port);
      assert IsDigit(port[|port| - 1]);
    }
  }

  lemma SuffixEnd(front: string, suffix: string)
    ensures EndsInSpace(front + SuffixText(suffix)) <==> EndsInSpace(suffix)
  {
    LastOfAppend(front, SuffixText(suffix));
    if suffix != "" {
      LastOfAppend("/", suffix);
    }
  }

  lemma FragmentAfterName(rest: string)
    ensures var end := NameEnd(rest);
            BeforeFragment(rest) == rest[..end] + BeforeFragment(rest[end..])
  {
    var end := NameEnd(rest);
    assert rest == rest[..end] + rest[end..];
    BeforeFragmentAppend(rest[..end], rest[end..]);
  }

  lemma JoinedShape(scheme: string, front: string, authority: string, suffix: string)
    requires authority != "" && !EndsInSpace(authority)
    ensures StartsWith(scheme + (front + SuffixText(suffix)), scheme)
    ensures EndsInSpace(scheme + (front + SuffixText(suffix))) <==> EndsInSpace(authority + suffix)
  {
    SuffixEnd(scheme + front, suffix);
    assert scheme + (front + SuffixText(suffix)) == (scheme + front) + SuffixText(suffix);
    PrefixOfAppend(scheme, front + SuffixText(suffix));
    if suffix == "" {
      assert authority + suffix == authority;
    } else {
      LastOfAppend(authority, suffix);
    }
  }

  /** A rewritten onion URL keeps its scheme, and ends in a space only if the text before the fragment does. */
  lemma OnionUrlShape(scheme: string, rest: string)
    requires OnionUrl(scheme, rest).Some?
    ensures StartsWith(OnionUrl(scheme, rest).value, scheme)
    ensures BeforeFragment(rest) != ""
    ensures EndsInSpace(OnionUrl(scheme, rest).value) <==> EndsInSpace(BeforeFragment(rest))
  {
    var end := NameEnd(rest);
    var authority, suffix := rest[..end], BeforeFragment(rest[end..]);
    OnionAuthorityEnd(authority);
    FragmentAfterName(rest);
    JoinedShape(scheme, AuthorityText(authority), authority, suffix);
  }

  /** The text before the first '#' ends in whitespace, so dropping the fragment leaves it at the end. */
  predicate SpaceBeforeFragment(s: string) {
    EndsInSpace(BeforeFragment(s))
  }

  lemma SchemeHasNoFragment(s: string, scheme: string)
    requires '#' !in scheme && StartsWith(Lower(s), scheme)
    ensures BeforeFragment(s) == s[..|scheme|] + BeforeFragment(s[|scheme|..])
  {
    var front := s[..|scheme|];
    forall i | 0 <= i < |front| ensures front[i] != '#' {
      assert Lower(s)[..|scheme|][i] == scheme[i];
      assert Lower1(s[i]) == scheme[i];
      assert scheme[i] in scheme;
    }
    assert s == front + s[|scheme|..];
    BeforeFragmentAppend(front, s[|scheme|..]);
  }

  lemma TorSchemes(lower: string)
    ensures IsOwnScheme("tor+" + HttpScheme(lower)) && '#' !in HttpScheme(lower)
  {
    assert "tor+" + "http://" == "tor+http://" && "tor+" + "https://" == "tor+https://";
  }

  lemma HttpOnionShape(s: string)
    requires HttpOnionAddress(s).Some?
    ensures StartsWith(HttpOnionAddress(s).value, "tor+" + HttpScheme(Lower(s)))
    ensures EndsInSpace(HttpOnionAddress(s).value) <==> SpaceBeforeFragment(s)
  {
    var scheme := HttpScheme(Lower(s));
    var rest := s[|scheme|..];
    TorSchemes(Lower(s));
    SchemeHasNoFragment(s, scheme);
    OnionUrlShape("tor+" + scheme, rest);
    LastOfAppend(s[..|scheme|], BeforeFragment(rest));
  }

  lemma SchemeText(p: string, s: string)
    requires IsOwnScheme(p) && NoWhitespace(s)
    ensures StartsWith(p + s, p) && NoWhitespace(p + s)
  {
    assert NoWhitespace(p);
    NoWhitespaceAppend(p, s);
    PrefixOfAppend(p, s);
  }

  lemma IpfsShape(s: string)
    requires IpfsPathAddress(s).Some?
    ensures var address := IpfsPathAddress(s).value;
            NoWhitespace(address) && (StartsWith(address, "ipfs://") || StartsWith(address, "ipns://"))
  {
    var path := if StartsWith(s, "/") then s[1..] else s;
    SchemeText(if StartsWith(Lower(path), "ipfs/") then "ipfs://" else "ipns://", path[5..]);
  }

  lemma AlphanumericNoWhitespace(s: string)
    requires forall i :: 0 <= i < |s| ==> IsAsciiAlphanumeric(s[i])
    ensures NoWhitespace(s) && NoWhitespace(Lower(s))
  {
    forall i | 0 <= i < |s| ensures !IsWhitespace(Lower(s)[i]) {
      assert Lower(s)[i] == Lower1(s[i]);
    }
  }

  lemma CidText(s: string)
    requires BareCidAddress(s).Some?
    ensures forall i :: 0 <= i < |s| ==> IsAsciiAlphanumeric(s[i])
    ensures BareCidAddress(s).value == "ipfs://" + s || BareCidAddress(s).value == "ipfs://" + Lower(s)
  {
    if IsCidV0(s) {
      assert forall i :: 0 <= i < |s| ==> IsBase58(s[i]);
    }
  }

  lemma CidShape(s: string)
    requires BareCidAddress(s).Some?
    ensures NoWhitespace(BareCidAddress(s).value) && StartsWith(BareCidAddress(s).value, "ipfs://")
  {
    CidText(s);
    AlphanumericNoWhitespace(s);
    SchemeText("ipfs://", s);
    SchemeText("ipfs://", Lower(s));
  }

  lemma LowerNoWhitespace(s: string)
    requires NoWhitespace(s)
    ensures NoWhitespace(Lower(s))
  {
    forall i | 0 <= i < |s| ensures !IsWhitespace(Lower(s)[i]) {
      assert Lower(s)[i] == Lower1(s[i]);
    }
  }

  lemma OnionShape(s: string)
    requires OnionAddress(s).Some?
    ensures NoWhitespace(OnionAddress(s).value) && StartsWith(OnionAddress(s).value, "tor+http://")
  {
    var end := NameEnd(s);
    var name, rest := s[..end], s[end..];
    var host := Lower(TrimEndDots(name));
    assert s == name + rest;
    NoWhitespaceAppend(name, rest);
    LowerNoWhitespace(TrimEndDots(name));
    NoWhitespaceAppend("/", rest);
    NoWhitespaceAppend(host, SuffixText(rest));
    SchemeText("tor+http://", host + SuffixText(rest));
  }

  lemma SearchPrefix()
    ensures NoWhitespace("search?q=") && "slate://" + "search?q=" == "slate://search?q="
  {
  }

  lemma SearchShape(s: string)
    ensures StartsWith(SearchAddress(s), "slate://") && NoWhitespace(SearchAddress(s))
  {
    var query := EncodeQuery(s);
    QueryNoWhitespace(s);
    SearchPrefix();
    NoWhitespaceAppend("search?q=", query);
    SchemeText("slate://", "search?q=" + query);
    assert ("slate://" + "search?q=") + query == "slate://" + ("search?q=" + query);
  }

  lemma FileShape(directory: string, s: string)
    ensures StartsWith(LocalFileAddress(directory, s), "file://") && NoWhitespace(LocalFileAddress(directory, s))
  {
    var path := Utf8All(JoinPath(directory, s));
    PathNoWhitespace(path);
    SchemeText("file://", EncodePath(path));
  }

  lemma BareShape(s: string) returns (p: string)
    requires BareRewriting(s).Some?
    ensures IsOwnScheme(p) && StartsWith(BareRewriting(s).value, p) && NoWhitespace(BareRewriting(s).value)
  {
    if IpfsPathAddress(s).Some? {
      IpfsShape(s);
      p := if StartsWith(BareRewriting(s).value, "ipfs://") then "ipfs://" else "ipns://";
    } else if BareCidAddress(s).Some? {
      CidShape(s);
      p := "ipfs://";
    } else {
      OnionShape(s);
      p := "tor+http://";
    }
  }

  lemma NoWhitespaceEnd(s: string)
    requires NoWhitespace(s)
    ensures !EndsInSpace(s)
  {
  }

  /** Every route but Kept and Host ends in an address with one of the normaliser's own schemes. */
  lemma OwnRoute(directory: string, s: string) returns (p: string)
    requires !RouteOf(s).Kept? && !RouteOf(s).Host?
    ensures IsOwnScheme(p) && StartsWith(Address(directory, s), p)
    ensures EndsInSpace(Address(directory, s)) <==> HttpOnionAddress(s).Some? && SpaceBeforeFragment(s)
  {
    if HttpOnionAddress(s).Some? {
      TorSchemes(Lower(s));
      HttpOnionShape(s);
      p := "tor+" + HttpScheme(Lower(s));
    } else {
      match RouteOf(s)
      case Search =>
        SearchShape(s);
        p := "slate://";
      case LocalFile =>
        FileShape(directory, s);
        p := "file://";
      case Rewritten(_) =>
        p := BareShape(s);
      NoWhitespaceEnd(Address(directory, s));
    }
  }

  // ---------- containment ----------

  lemma {:induction false} ContainsAt(s: string, part: string, i: nat)
    requires i + |part| <= |s| && s[i..i + |part|] == part
    ensures Contains(s, part)
  {
    if i > 0 {
      assert s[1..][i - 1..i - 1 + |part|] == part;
      ContainsAt(s[1..], part, i - 1);
    }
  }

  lemma {:induction false} ContainsAfter(p: string, s: string, part: string)
    requires Contains(s, part)
    ensures Contains(p + s, part)
  {
    if p == "" {
      assert p + s == s;
    } else {
      ContainsAfter(p[1..], s, part);
      assert (p + s)[1..] == p[1..] + s;
    }
  }

  lemma {:induction false} ContainsBeyond(p: string, s: string)
    requires '.' !in p && Contains(p + s, ".onion")
    ensures Contains(s, ".onion")
  {
    if p == "" {
      assert p + s == s;
    } else {
      assert (p + s)[0] == p[0] && (p + s)[1..] == p[1..] + s;
      if StartsWith(p + s, ".onion") {
        FirstChar(p + s, ".onion");
      }
      ContainsBeyond(p[1..], s);
    }
  }

  lemma OnionAuthorityContains(authority: string, s: string)
    requires IsOnionAuthority(authority) && authority <= s
    ensures Contains(Lower(s), ".onion")
  {
    OnionHostContains(HostPort(authority).0, s);
  }

  lemma OnionHostContains(host: string, s: string)
    requires IsOnionHost(host) && host <= s
    ensures Contains(Lower(s), ".onion")
  {
    var lower := Lower(TrimEndDots(host));
    var i := |lower| - 6;
    assert Lower(s)[i..i + 6] == lower[i..];
    ContainsAt(Lower(s), ".onion", i);
  }

  // ---------- the host branch ----------

  lemma HostRoute(s: string)
    requires RouteOf(s).Host?
    ensures RouteOf(s).scheme == "http://" || RouteOf(s).scheme == "https://"
    ensures NoWhitespace(s)
  {
  }

  lemma HttpSchemeLower(scheme: string, s: string)
    requires scheme == "http://" || scheme == "https://"
    ensures Lower(scheme + s) == scheme + Lower(s)
  {
    LowerFixed(scheme);
    LowerAppend(scheme, s);
  }

  lemma HttpIsSupported(lower: string)
    requires StartsWith(lower, "http://") || StartsWith(lower, "https://")
    ensures HasSupportedScheme(lower)
  {
  }

  lemma HttpSchemeSupported(scheme: string, s: string)
    requires scheme == "http://" || scheme == "https://"
    ensures Lower(scheme + s) == scheme + Lower(s) && HasSupportedScheme(Lower(scheme + s))
    ensures StartsWith(Lower(scheme + s), scheme)
  {
    HttpSchemeLower(scheme, s);
    PrefixOfAppend(scheme, Lower(s));
    HttpIsSupported(scheme + Lower(s));
  }

  lemma HttpsIsNotHttp(s: string)
    ensures !StartsWith("https://" + s, "http://")
  {
    assert ("https://" + s)[..7][4] == 's';
  }

  lemma PrefixedScheme(scheme: string, s: string)
    requires scheme == "http://" || scheme == "https://"
    ensures IsHttp(Lower(scheme + s)) && HttpScheme(Lower(scheme + s)) == scheme
  {
    HttpSchemeSupported(scheme, s);
    HttpsIsNotHttp(Lower(s));
  }

  lemma NoOnionNoAddress(scheme: string, s: string)
    requires scheme == "http://" || scheme == "https://"
    requires !Contains(Lower(s), ".onion")
    ensures HttpOnionAddress(scheme + s).None?
  {
    PrefixedScheme(scheme, s);
    PrefixOfAppend(scheme, s);
    var authority := s[..NameEnd(s)];
    if IsOnionAuthority(authority) {
      OnionAuthorityContains(authority, s);
    }
  }

  lemma NoOnionNoHint(scheme: string, s: string)
    requires scheme == "http://" || scheme == "https://"
    requires !Contains(Lower(s), ".onion")
    ensures !Contains(Lower(scheme + s), ".onion")
  {
    HttpSchemeSupported(scheme, s);
    if Contains(scheme + Lower(s), ".onion") {
      ContainsBeyond(scheme, Lower(s));
    }
  }

  lemma KeptRoute(s: string)
    requires HttpOnionAddress(s).None? && !Contains(Lower(s), ".onion") && HasSupportedScheme(Lower(s))
    ensures RouteOf(s) == Kept
  {
  }

  /** Putting an http scheme in front of a text without ".onion" yields an address that is kept. */
  lemma HostWithoutOnion(scheme: string, s: string)
    requires scheme == "http://" || scheme == "https://"
    requires !Contains(Lower(s), ".onion")
    ensures RouteOf(scheme + s) == Kept
  {
    NoOnionNoAddress(scheme, s);
    NoOnionNoHint(scheme, s);
    HttpSchemeSupported(scheme, s);
    KeptRoute(scheme + s);
  }

  /** With ".onion" in it, the new address is not kept: it becomes a tor+ address or a search. */
  lemma HostWithOnion(scheme: string, s: string)
    requires scheme == "http://" || scheme == "https://"
    requires Contains(Lower(s), ".onion")
    ensures !RouteOf(scheme + s).Kept? && !RouteOf(scheme + s).Host?
  {
    HttpSchemeSupported(scheme, s);
    ContainsAfter(scheme, Lower(s), ".onion");
  }

  // ---------- main results ----------

  lemma AddressIsSupported(directory: string, s: string)
    requires s != ""
    ensures HasSupportedScheme(Lower(Address(directory, s)))
  {
    match RouteOf(s)
    case Host(scheme) =>
      HostRoute(s);
      HttpSchemeSupported(scheme, s);
    case Kept =>
    case _ =>
      var p := OwnRoute(directory, s);
      OwnSchemeKept(Address(directory, s), p);
  }

  /** Every non-blank input, and no other, is normalised, to an address of a supported scheme. */
  lemma NormalizedIsSupported(directory: string, input: string)
    ensures Normalize(directory, input).Ok? <==> Trim(input) != ""
    ensures Normalize(directory, input).Ok? ==> HasSupportedScheme(Lower(Normalize(directory, input).value))
  {
    if Trim(input) != "" {
      AddressIsSupported(directory, Trim(input));
    }
  }

  /** The inputs whose address changes again: a host with ".onion" in it that is not an onion address,
      and an http onion URL with whitespace before its fragment. */
  predicate ChangesAgain(s: string) {
    || (RouteOf(s).Host? && Contains(Lower(s), ".onion"))
    || (HttpOnionAddress(s).Some? && SpaceBeforeFragment(s))
  }

  lemma HostTwice(directory: string, s: string)
    requires s != "" && RouteOf(s).Host?
    ensures var r := Address(directory, s);
            Normalize(directory, r) == Ok(r) <==> !Contains(Lower(s), ".onion")
  {
    HostRoute(s);
    var scheme, r := RouteOf(s).scheme, Address(directory, s);
    NoWhitespaceAppend(scheme, s);
    TrimNothing(r);
    if Contains(Lower(s), ".onion") {
      HostWithOnion(scheme, s);
      var p := OwnRoute(directory, r);
      OwnSchemeShape(p);
      FirstChar(Address(directory, r), p);
    } else {
      HostWithoutOnion(scheme, s);
    }
  }

  /** Normalising twice is normalising once, exactly for the inputs outside those two families. */
  lemma NormalizeTwiceIff(directory: string, input: string)
    requires Trim(input) != ""
    ensures var r := Normalize(directory, input).value;
            Normalize(directory, r) == Ok(r) <==> !ChangesAgain(Trim(input))
  {
    var s := Trim(input);
    if RouteOf(s).Host? {
      HostTwice(directory, s);
      HostIsNotHttpOnion(s);
    } else if RouteOf(s).Kept? {
      TrimIdempotent(input);
      KeptTwice(directory, s);
    } else {
      OwnTwice(directory, s);
    }
  }

  lemma KeptTwice(directory: string, s: string)
    requires s != "" && Trim(s) == s && RouteOf(s).Kept?
    ensures Address(directory, s) == s && Normalize(directory, s) == Ok(s) && !ChangesAgain(s)
  {
    HostIsNotHttpOnion(s);
  }

  lemma OwnTwice(directory: string, s: string)
    requires s != "" && !RouteOf(s).Kept? && !RouteOf(s).Host?
    ensures var r := Address(directory, s);
            Normalize(directory, r) == Ok(r) <==> !ChangesAgain(s)
  {
    var r := Address(directory, s);
    var p := OwnRoute(directory, s);
    OwnSchemeNormalized(directory, r, p);
    OwnSchemeShape(p);
    FirstChar(r, p);
  }

  lemma NoSpaceBeforeFragment(s: string)
    requires NoWhitespace(s)
    ensures !SpaceBeforeFragment(s)
  {
    var front := BeforeFragment(s);
    if front != "" {
      assert front[|front| - 1] == s[|front| - 1];
    }
  }

  /** Text without whitespace that is neither kept nor a host turns into an address that changes no more. */
  lemma OwnSettled(directory: string, s: string)
    requires NoWhitespace(s) && !RouteOf(s).Kept? && !RouteOf(s).Host?
    ensures Normalize(directory, Address(directory, s)) == Ok(Address(directory, s))
  {
    NoSpaceBeforeFragment(s);
    var p := OwnRoute(directory, s);
    OwnSchemeNormalized(directory, Address(directory, s), p);
    OwnSchemeShape(p);
    FirstChar(Address(directory, s), p);
  }

  lemma PrefixedText(scheme: string, s: string)
    requires scheme == "http://" || scheme == "https://"
    requires NoWhitespace(s)
    ensures NoWhitespace(scheme + s) && Trim(scheme + s) == scheme + s
  {
    NoWhitespaceAppend(scheme, s);
    NoWhitespaceTrim(scheme + s);
  }

  lemma HostAddress(directory: string, s: string)
    requires RouteOf(s).Host?
    ensures Address(directory, s) == RouteOf(s).scheme + s
  {
  }

  lemma HostText(directory: string, s: string)
    requires s != "" && RouteOf(s).Host?
    ensures var r := Address(directory, s);
            r != "" && NoWhitespace(r) && Trim(r) == r
  {
    HostRoute(s);
    HostAddress(directory, s);
    PrefixedText(RouteOf(s).scheme, s);
  }

  /** The address a host with ".onion" turns into changes no more. */
  lemma HostThrice(directory: string, s: string)
    requires s != "" && RouteOf(s).Host? && Contains(Lower(s), ".onion")
    ensures var r := Address(directory, s);
            Trim(r) == r && r != "" && Normalize(directory, Address(directory, r)) == Ok(Address(directory, r))
  {
    HostText(directory, s);
    HostRoute(s);
    HostWithOnion(RouteOf(s).scheme, s);
    OwnSettled(directory, Address(directory, s));
  }

  lemma TrimmedOwn(r: string, p: string)
    requires IsOwnScheme(p) && StartsWith(r, p)
    ensures StartsWith(TrimEnd(r), p) && !EndsInSpace(TrimEnd(r)) && TrimEnd(r) != ""
  {
    OwnSchemeShape(p);
    TrimEndKeepsPrefix(r, p);
    FirstChar(TrimEnd(r), p);
  }

  lemma TrimmedSettled(directory: string, t: string, p: string)
    requires IsOwnScheme(p) && StartsWith(t, p) && !EndsInSpace(t) && t != ""
    ensures Normalize(directory, t) == Ok(t)
  {
    OwnSchemeNormalized(directory, t, p);
  }

  /** An address with an own scheme is settled once its end is trimmed. */
  lemma OwnThrice(directory: string, r: string, p: string)
    requires IsOwnScheme(p) && StartsWith(r, p)
    ensures Normalize(directory, r) == Ok(TrimEnd(r)) && Normalize(directory, TrimEnd(r)) == Ok(TrimEnd(r))
  {
    OwnSchemeNormalized(directory, r, p);
    TrimmedOwn(r, p);
    TrimmedSettled(directory, TrimEnd(r), p);
  }

  lemma ThriceFromTwice(directory: string, r: string, t: string)
    requires Normalize(directory, r) == Ok(t) && Normalize(directory, t) == Ok(t)
    ensures SettlesAt(directory, r)
  {
  }

  /** Normalising this address gives one that normalising leaves alone. */
  predicate SettlesAt(directory: string, r: string) {
    match Normalize(directory, r)
    case Ok(t) => Normalize(directory, t) == Ok(t)
    case Err(_) => false
  }

  /** For every non-blank input the second address is final: a third normalisation changes nothing. */
  lemma NormalizeThrice(directory: string, input: string)
    requires Trim(input) != ""
    ensures SettlesAt(directory, Normalize(directory, input).value)
  {
    var s := Trim(input);
    var r := Address(directory, s);
    if RouteOf(s).Host? && Contains(Lower(s), ".onion") {
      HostThrice(directory, s);
      ThriceFromTwice(directory, r, Address(directory, r));
    } else if RouteOf(s).Host? {
      HostTwice(directory, s);
      ThriceFromTwice(directory, r, r);
    } else if RouteOf(s).Kept? {
      TrimIdempotent(input);
      KeptTwice(directory, s);
      ThriceFromTwice(directory, r, r);
    } else {
      var p := OwnRoute(directory, s);
      OwnThrice(directory, r, p);
      ThriceFromTwice(directory, r, TrimEnd(r));
    }
  }

  lemma HostIsNotHttpOnion(s: string)
    requires RouteOf(s).Host? || RouteOf(s).Kept?
    ensures HttpOnionAddress(s).None?
  {
  }

  /** In particular it is so for every input without ".onion", in any letter case. */
  lemma NormalizeTwiceWithoutOnion(directory: string, input: string)
    requires Trim(input) != "" && !Contains(Lower(Trim(input)), ".onion")
    ensures var r := Normalize(directory, input).value;
            Normalize(directory, r) == Ok(r)
  {
    var s := Trim(input);
    NormalizeTwiceIff(directory, input);
    if HttpOnionAddress(s).Some? {
      HttpOnionContains(s);
    }
  }

  lemma HttpOnionAuthority(s: string, rest: string)
    requires HttpOnionAddress(s).Some? && rest == s[|HttpScheme(Lower(s))|..]
    ensures IsOnionAuthority(rest[..NameEnd(rest)])
  {
  }

  lemma OnionRestContains(rest: string)
    requires IsOnionAuthority(rest[..NameEnd(rest)])
    ensures Contains(Lower(rest), ".onion")
  {
    OnionAuthorityContains(rest[..NameEnd(rest)], rest);
  }

  lemma HttpOnionRest(s: string) returns (n: nat)
    requires HttpOnionAddress(s).Some?
    ensures n <= |s| && Contains(Lower(s[n..]), ".onion")
  {
    n := |HttpScheme(Lower(s))|;
    HttpOnionAuthority(s, s[n..]);
    OnionRestContains(s[n..]);
  }

  lemma ContainsInRest(s: string, n: nat, part: string)
    requires n <= |s| && Contains(Lower(s[n..]), part)
    ensures Contains(Lower(s), part)
  {
    var front, rest := s[..n], s[n..];
    assert s == front + rest;
    LowerAppend(front, rest);
    ContainsAfter(Lower(front), Lower(rest), part);
  }

  lemma HttpOnionContains(s: string)
    requires HttpOnionAddress(s).Some?
    ensures Contains(Lower(s), ".onion")
  {
    var n := HttpOnionRest(s);
    ContainsInRest(s, n, ".onion");
  }

  // ---------- both families are inhabited ----------

  lemma {:induction false} ContainsNeeds(s: string, part: string, k: nat)
    requires Contains(s, part) && k < |part|
    ensures part[k] in s
  {
    if StartsWith(s, part) {
      assert s[..|part|][k] == s[k];
    } else {
      ContainsNeeds(s[1..], part, k);
    }
  }

  lemma LastChar(s: string, suffix: string)
    requires suffix != "" && EndsWith(s, suffix)
    ensures s[|s| - 1] == suffix[|suffix| - 1]
  {
    assert s[|s| - |suffix|..][|suffix| - 1] == s[|s| - 1];
  }

  lemma NotPrefix(s: string, p: string)
    requires s != "" && p != "" && s[0] != p[0]
    ensures !StartsWith(s, p)
  {
    if StartsWith(s, p) {
      FirstChar(s, p);
    }
  }

  lemma NoSchemeStart(lower: string)
    requires lower != "" && 'a' <= lower[0] <= 'b'
    ensures !HasSupportedScheme(lower) && !IsHttp(lower)
    ensures !StartsWith(lower, "ipfs/") && !StartsWith(lower, "ipns/") && !StartsWith(lower, "/")
  {
    NotPrefix(lower, "slate://"); NotPrefix(lower, "https://"); NotPrefix(lower, "http://");
    NotPrefix(lower, "tor+http://"); NotPrefix(lower, "tor+https://");
    NotPrefix(lower, "ipfs://"); NotPrefix(lower, "ipns://"); NotPrefix(lower, "i2p://");
    NotPrefix(lower, "gemini://"); NotPrefix(lower, "magnet:"); NotPrefix(lower, "file://");
    NotPrefix(lower, "ipfs/"); NotPrefix(lower, "ipns/"); NotPrefix(lower, "/");
  }

  lemma DigitEnd(s: string)
    requires s != "" && IsDigit(s[|s| - 1])
    ensures !IsOnionHost(s) && !LooksLikeLocalHtml(Lower(s))
  {
    assert TrimEndDots(s) == s && Lower(s)[|s| - 1] == s[|s| - 1];
    if EndsWith(Lower(s), ".onion") { LastChar(Lower(s), ".onion"); }
    if EndsWith(Lower(s), ".html") { LastChar(Lower(s), ".html"); }
    if EndsWith(Lower(s), ".htm") { LastChar(Lower(s), ".htm"); }
  }

  predicate NoDelimiters(s: string) {
    forall i :: 0 <= i < |s| ==> s[i] != '/' && s[i] != '?' && s[i] != '#'
  }

  lemma {:induction false} NoDelimiter(s: string)
    requires NoDelimiters(s)
    ensures NameEnd(s) == |s|
  {
  }

  lemma NotAnUrl(s: string)
    requires NoDelimiters(s)
    ensures !Contains(Lower(s), "://")
  {
    forall i | 0 <= i < |s| ensures Lower(s)[i] != '/' {
      assert Lower(s)[i] == Lower1(s[i]);
    }
    if Contains(Lower(s), "://") {
      ContainsNeeds(Lower(s), "://", 1);
    }
  }

  lemma NoBareRewriting(s: string)
    requires 0 < |s| < 32 && 'a' <= s[0] <= 'b' && IsDigit(s[|s| - 1]) && NoDelimiters(s)
    ensures BareRewriting(s).None?
  {
    assert Lower(s)[0] == s[0];
    NoSchemeStart(Lower(s));
    NoSchemeStart(s);
    DigitEnd(s);
    NoDelimiter(s);
    assert s[..|s|] == s;
  }

  /** A short host with a port takes the host branch. */
  lemma HostWithPort(s: string)
    requires 0 < |s| < 32 && 'a' <= s[0] <= 'b' && IsDigit(s[|s| - 1]) && '.' in s && NoWhitespace(s) && NoDelimiters(s)
    ensures RouteOf(s).Host?
  {
    var lower := Lower(s);
    assert lower[0] == s[0];
    NoSchemeStart(lower);
    NoBareRewriting(s);
    DigitEnd(s);
    NotAnUrl(s);
    HostOfParts(s, lower);
  }

  lemma HostOfParts(s: string, lower: string)
    requires lower == Lower(s) && !IsHttp(lower) && !HasSupportedScheme(lower) && BareRewriting(s).None?
    requires !LooksLikeLocalHtml(lower) && !Contains(lower, "://") && NoWhitespace(s) && '.' in s
    ensures RouteOf(s).Host?
  {
    assert HttpOnionAddress(s).None?;
    assert BareRoute(s, lower).Host?;
  }

  /** The bare onion host `a.onion` with port 80: its https address is rewritten to tor+https the second time. */
  lemma OnionPortChangesAgain(s: string)
    requires |s| == 10 && s[0] == 'a' && s[1..7] == ".onion" && s[7] == ':' && s[8] == '8' && s[9] == '0'
    ensures Trim(s) == s && ChangesAgain(s)
  {
    OnionPortChars(s);
    TrimNothing(s);
    HostWithPort(s);
    ContainsAt(Lower(s), ".onion", 1);
  }

  lemma OnionLetters(part: string)
    requires part == ".onion"
    ensures part[0] == '.' && part[1] == 'o' && part[2] == 'n' && part[3] == 'i' && part[4] == 'o' && part[5] == 'n'
  {
  }

  /** A plain character: not a delimiter, not whitespace, not changed by lower-casing. */
  predicate IsPlain(c: char) {
    c == '.' || c == ':' || 'a' <= c <= 'z' || IsDigit(c)
  }

  lemma PlainText(s: string)
    requires forall i :: 0 <= i < |s| ==> IsPlain(s[i])
    ensures NoWhitespace(s) && NoDelimiters(s) && Lower(s) == s
  {
    LowerFixed(s);
  }

  lemma OnionPortChars(s: string)
    requires |s| == 10 && s[0] == 'a' && s[1..7] == ".onion" && s[7] == ':' && s[8] == '8' && s[9] == '0'
    ensures s[1] == '.' && NoWhitespace(s) && NoDelimiters(s) && Lower(s)[1..7] == ".onion"
  {
    var part := s[1..7];
    OnionLetters(part);
    forall i | 0 <= i < |s| ensures IsPlain(s[i]) {
      assert 1 <= i < 7 ==> s[i] == part[i - 1];
    }
    PlainText(s);
    assert s[1] == part[0];
  }

  lemma {:induction false} NameEndAt(a: string, b: string)
    requires NoDelimiters(a) && b != "" && b[0] == '/'
    ensures NameEnd(a + b) == |a|
  {
    if a == "" {
      assert a + b == b;
    } else {
      assert (a + b)[0] == a[0] && (a + b)[1..] == a[1..] + b;
      NameEndAt(a[1..], b);
    }
  }

  lemma HttpOnionOf(authority: string, tail: string)
    requires IsOnionAuthority(authority) && NoDelimiters(authority) && tail != "" && tail[0] == '/'
    ensures HttpOnionAddress("http://" + (authority + tail)).Some?
  {
    var rest := authority + tail;
    PrefixedScheme("http://", rest);
    PrefixOfAppend("http://", rest);
    NameEndAt(authority, tail);
    assert rest[..|authority|] == authority;
  }

  lemma FragmentAt(front: string, fragment: string)
    requires '#' !in front && fragment != "" && fragment[0] == '#'
    ensures BeforeFragment(front + fragment) == front
  {
    BeforeFragmentAppend(front, fragment);
    assert front + "" == front;
  }

  lemma SpacedFragment(authority: string, path: string, fragment: string)
    requires EndsInSpace(path) && '#' !in authority && '#' !in path
    requires fragment != "" && fragment[0] == '#' && !EndsInSpace(fragment)
    ensures var s := "http://" + (authority + (path + fragment));
            SpaceBeforeFragment(s) && !EndsInSpace(s) && s[0] == 'h'
  {
    var s := "http://" + (authority + (path + fragment));
    var front := "http://" + (authority + path);
    assert s == front + fragment;
    HttpHasNoFragment(authority + path);
    FragmentAt(front, fragment);
    LastOfAppend("http://" + authority, path);
    assert front == ("http://" + authority) + path;
    LastOfAppend(front, fragment);
    assert s[0] == "http://"[0];
  }

  lemma SecondFamily(s: string)
    requires HttpOnionAddress(s).Some? && SpaceBeforeFragment(s)
    ensures ChangesAgain(s)
  {
  }

  /** The http URL of an onion authority, with a space before the fragment: the rewriting drops the
      fragment and leaves the space at the end, which normalising again trims. */
  lemma SpacedFragmentChangesAgain(s: string, authority: string, path: string, fragment: string)
    requires s == "http://" + (authority + (path + fragment))
    requires IsOnionAuthority(authority) && NoDelimiters(authority)
    requires EndsInSpace(path) && path[0] == '/' && '#' !in path
    requires fragment != "" && fragment[0] == '#' && !EndsInSpace(fragment)
    ensures Trim(s) == s && ChangesAgain(s)
  {
    HttpOnionOf(authority, path + fragment);
    SpacedFragment(authority, path, fragment);
    SecondFamily(s);
    TrimNothing(s);
  }

  lemma HttpHasNoFragment(rest: string)
    requires '#' !in rest
    ensures '#' !in "http://" + rest
  {
    assert '#' !in "http://";
  }

  /** `a.onion` is such an authority. */
  lemma ShortOnionAuthority(host: string)
    requires |host| == 7 && host[0] == 'a' && host[1..] == ".onion"
    ensures IsOnionAuthority(host) && NoDelimiters(host)
  {
    ShortOnionChars(host);
    assert TrimEndDots(host) == host;
    LowerFixed(host);
    assert host[..1] == ['a'];
    SplitWithoutSeparator(host[..1], '.');
    assert SplitOnce(host, ':').None?;
  }

  lemma ShortOnionChars(host: string)
    requires |host| == 7 && host[0] == 'a' && host[1..] == ".onion"
    ensures host[6] == 'n' && NoDelimiters(host) && ':' !in host && '@' !in host
    ensures forall i :: 0 <= i < |host| ==> Lower1(host[i]) == host[i]
  {
    var part := host[1..];
    assert part[0] == '.' && part[1] == 'o' && part[2] == 'n' && part[3] == 'i' && part[4] == 'o' && part[5] == 'n';
    assert forall i :: 0 <= i < 6 ==> host[i + 1] == part[i];
    assert host[1] == '.' && host[2] == 'o' && host[3] == 'n' && host[4] == 'i' && host[5] == 'o' && host[6] == 'n';
  }

  // ---------- the plain web ----------

  lemma OwnSchemeNotPlain(s: string, p: string)
    requires IsOwnScheme(p) && StartsWith(s, p)
    ensures !IsHttp(Lower(s))
  {
    OwnSchemeShape(p);
    OwnSchemeLower(p);
    LowerPrefix(p, s);
    FirstChar(Lower(s), p);
    NotHttp(Lower(s));
  }

  lemma KeptHasNoOnion(s: string)
    requires RouteOf(s).Kept? && IsHttp(Lower(s))
    ensures !Contains(Lower(s), ".onion")
  {
  }

  lemma HostContains(scheme: string, s: string)
    requires scheme == "http://" || scheme == "https://"
    ensures Contains(Lower(scheme + s), ".onion") <==> Contains(Lower(s), ".onion")
  {
    HttpSchemeSupported(scheme, s);
    if Contains(Lower(s), ".onion") {
      ContainsAfter(scheme, Lower(s), ".onion");
    } else {
      NoOnionNoHint(scheme, s);
    }
  }

  /**
   * An address is on the plain web exactly when it was typed as one and kept, or a host was; and it
   * then contains ".onion" exactly in the first of the two families above.
   */
  lemma PlainWebIff(directory: string, s: string)
    requires s != ""
    ensures var r := Address(directory, s);
            IsHttp(Lower(r)) <==> RouteOf(s).Host? || (RouteOf(s).Kept? && IsHttp(Lower(s)))
    ensures var r := Address(directory, s);
            IsHttp(Lower(r)) && Contains(Lower(r), ".onion") <==> RouteOf(s).Host? && Contains(Lower(s), ".onion")
  {
    match RouteOf(s)
    case Host(scheme) =>
      HostRoute(s);
      HttpSchemeSupported(scheme, s);
      HostContains(scheme, s);
    case Kept =>
      if IsHttp(Lower(s)) {
        KeptHasNoOnion(s);
      }
    case _ =>
      var p := OwnRoute(directory, s);
      OwnSchemeNotPlain(Address(directory, s), p);
  }

  // ---------- the two forms of an onion address ----------

  lemma {:induction false} SplitCovers(s: string, separator: char, i: nat) returns (k: nat)
    requires i < |s| && s[i] != separator
    ensures k < |Split(s, separator)| && s[i] in Split(s, separator)[k]
  {
    var rest := Split(s[1..], separator);
    if i == 0 {
      k := 0;
      assert Split(s, separator)[0] == [s[0]] + rest[0];
    } else {
      var j := SplitCovers(s[1..], separator, i - 1);
      k := if s[0] == separator then j + 1 else j;
      assert Split(s, separator)[k] == if s[0] != separator && j == 0 then [s[0]] + rest[0] else rest[j];
    }
  }

  lemma {:induction false} TrimmedDots(s: string, i: nat)
    requires |TrimEndDots(s)| <= i < |s|
    ensures s[i] == '.'
  {
    if i < |s| - 1 {
      TrimmedDots(s[..|s| - 1], i);
    }
  }

  lemma LabelChars(name: string, i: nat)
    requires forall k :: 0 <= k < |Split(name, '.')| ==> IsOnionLabel(Split(name, '.')[k])
    requires i < |name|
    ensures name[i] != ':' && name[i] != '@'
  {
    if name[i] != '.' {
      var k := SplitCovers(name, '.', i);
      assert IsOnionLabel(Split(name, '.')[k]);
    }
  }

  lemma OnionSuffixChars(lower: string, i: nat)
    requires EndsWith(lower, ".onion") && |lower| - 6 <= i < |lower|
    ensures lower[i] != ':' && lower[i] != '@'
  {
    var suffix := lower[|lower| - 6..];
    assert suffix[0] == '.' && suffix[1] == 'o' && suffix[2] == 'n' && suffix[3] == 'i' && suffix[4] == 'o' && suffix[5] == 'n';
    assert lower[i] == suffix[i - (|lower| - 6)];
  }

  lemma OnionHostChars(host: string, i: nat)
    requires IsOnionHost(host) && i < |host|
    ensures host[i] != ':' && host[i] != '@'
  {
    var kept := TrimEndDots(host);
    var lower := Lower(kept);
    if i >= |kept| {
      TrimmedDots(host, i);
    } else {
      assert lower[i] == Lower1(host[i]);
      if i >= |lower| - 6 {
        OnionSuffixChars(lower, i);
      } else {
        LabelChars(lower[..|lower| - 6], i);
      }
    }
  }

  lemma OnionHostIsAuthority(host: string)
    requires IsOnionHost(host)
    ensures IsOnionAuthority(host) && AuthorityText(host) == Lower(TrimEndDots(host))
  {
    OnionHostEnd(host);
    forall i | 0 <= i < |host| ensures host[i] != ':' && host[i] != '@' {
      OnionHostChars(host, i);
    }
    assert SplitOnce(host, ':').None?;
    assert Lower(TrimEndDots(host)) + "" == Lower(TrimEndDots(host));
  }

  lemma NoFragment(s: string)
    requires '#' !in s
    ensures BeforeFragment(s) == s
  {
  }

  lemma OnionUrlOf(scheme: string, s: string)
    requires OnionAddress(s).Some? && '#' !in s && scheme == "tor+http://"
    ensures OnionUrl(scheme, s) == OnionAddress(s)
  {
    var end := NameEnd(s);
    OnionHostIsAuthority(s[..end]);
    NoFragment(s[end..]);
  }

  lemma HttpRest(url: string, scheme: string)
    requires IsHttp(Lower(url)) && HttpScheme(Lower(url)) == scheme
    ensures HttpOnionAddress(url) == OnionUrl("tor+" + scheme, url[|scheme|..])
  {
  }

  predicate IsHttpUrlOf(url: string, s: string) {
    IsHttp(Lower(url)) && HttpScheme(Lower(url)) == "http://" && |url| >= 7 && url[7..] == s
  }

  lemma HttpUrlOf(url: string, s: string)
    requires url == "http://" + s
    ensures IsHttpUrlOf(url, s)
  {
    PrefixedScheme("http://", s);
    PrefixOfAppend("http://", s);
  }

  lemma HttpUrlText(url: string, s: string)
    requires url == "http://" + s && NoWhitespace(s)
    ensures url != "" && NoWhitespace(url)
  {
    NoWhitespaceAppend("http://", s);
  }

  /** Behind `http://`, an onion address without a fragment is rewritten to the same text. */
  lemma HttpOfOnion(url: string, s: string)
    requires OnionAddress(s).Some? && '#' !in s && IsHttpUrlOf(url, s)
    ensures HttpOnionAddress(url) == OnionAddress(s)
  {
    var scheme := HttpScheme(Lower(url));
    HttpRest(url, scheme);
    assert "tor+" + scheme == "tor+http://";
    OnionUrlOf("tor+" + scheme, s);
  }

  lemma OnionLength(host: string)
    requires IsOnionHost(host)
    ensures |host| >= 7 && exists i :: 0 <= i < |host| && host[i] == '.'
  {
    var lower := Lower(TrimEndDots(host));
    assert lower[|lower| - 6..][0] == lower[|lower| - 6];
    assert host[|lower| - 6] == '.';
  }

  lemma LowerKeepsMarks(s: string, i: nat)
    requires i < |s|
    ensures Lower(s)[i] == ':' <==> s[i] == ':'
    ensures Lower(s)[i] == '/' <==> s[i] == '/'
    ensures Lower(s)[i] == '?' <==> s[i] == '?'
    ensures Lower(s)[i] == '#' <==> s[i] == '#'
  {
  }

  lemma PrefixChar(lower: string, p: string, i: nat)
    requires StartsWith(lower, p) && i < |p|
    ensures lower[i] == p[i]
  {
    assert lower[..|p|][i] == p[i];
  }

  /** The k-th character is a colon, and no mark comes before it. */
  predicate ColonAt(s: string, k: nat) {
    k < |s| && s[k] == ':' && forall i :: 0 <= i < k ==> s[i] != '/' && s[i] != '?' && s[i] != '#'
  }

  lemma ColonBeforeMarks(s: string, p: string, k: nat)
    requires StartsWith(Lower(s), p) && k < |p| && p[k] == ':' && NoDelimiters(p[..k])
    ensures ColonAt(s, k)
  {
    forall i | 0 <= i < k ensures s[i] != '/' && s[i] != '?' && s[i] != '#' {
      assert p[..k][i] == p[i];
      PrefixChar(Lower(s), p, i);
      LowerKeepsMarks(s, i);
    }
    PrefixChar(Lower(s), p, k);
    LowerKeepsMarks(s, k);
  }

  lemma NoMarksBefore(s: string, k: nat)
    requires ColonAt(s, k)
    ensures k < NameEnd(s)
  {
    var n := NameEnd(s);
    assert n < |s| ==> s[n] == '/' || s[n] == '?' || s[n] == '#';
  }

  /** An onion address has no scheme in front: its name holds no colon. */
  lemma OnionHasNoScheme(s: string, p: string, k: nat)
    requires OnionAddress(s).Some? && k < |p| && p[k] == ':' && NoDelimiters(p[..k])
    ensures !StartsWith(Lower(s), p)
  {
    if StartsWith(Lower(s), p) {
      ColonBeforeMarks(s, p, k);
      NoMarksBefore(s, k);
      var name := s[..NameEnd(s)];
      assert name[k] == s[k];
      OnionHostChars(name, k);
    }
  }

  predicate IsScheme(p: string) {
    || p == "slate://" || p == "https://" || p == "http://" || p == "tor+http://" || p == "tor+https://"
    || p == "ipfs://" || p == "ipns://" || p == "i2p://" || p == "gemini://" || p == "magnet:" || p == "file://"
  }

  lemma SchemeOf(lower: string) returns (p: string)
    requires HasSupportedScheme(lower)
    ensures IsScheme(p) && StartsWith(lower, p)
  {
    p := if StartsWith(lower, "slate://") then "slate://"
         else if StartsWith(lower, "https://") then "https://"
         else if StartsWith(lower, "http://") then "http://"
         else if StartsWith(lower, "tor+http://") then "tor+http://"
         else if StartsWith(lower, "tor+https://") then "tor+https://"
         else if StartsWith(lower, "ipfs://") then "ipfs://"
         else if StartsWith(lower, "ipns://") then "ipns://"
         else if StartsWith(lower, "i2p://") then "i2p://"
         else if StartsWith(lower, "gemini://") then "gemini://"
         else if StartsWith(lower, "magnet:") then "magnet:"
         else "file://";
  }

  lemma SchemeColon(p: string) returns (k: nat)
    requires IsScheme(p)
    ensures k < |p| && p[k] == ':' && NoDelimiters(p[..k])
  {
    k := if p[|p| - 1] == ':' then |p| - 1 else |p| - 3;
  }

  lemma OnionIsUnsupported(s: string)
    requires OnionAddress(s).Some?
    ensures !HasSupportedScheme(Lower(s)) && !IsHttp(Lower(s))
  {
    if HasSupportedScheme(Lower(s)) {
      var p := SchemeOf(Lower(s));
      var k := SchemeColon(p);
      OnionHasNoScheme(s, p, k);
    }
  }

  lemma SlashIsNotOnion(s: string, p: string)
    requires |p| == 5 && p[4] == '/' && (s == "" || s[0] != '/') && StartsWith(Lower(s), p)
    ensures OnionAddress(s).None?
  {
    assert Lower(s)[..5][4] == Lower(s)[4];
    LowerKeepsMarks(s, 4);
    if IsOnionHost(s[..NameEnd(s)]) {
      OnionLength(s[..NameEnd(s)]);
    }
  }

  lemma OnionIsNotIpfs(s: string)
    requires OnionAddress(s).Some?
    ensures IpfsPathAddress(s).None?
  {
    OnionLength(s[..NameEnd(s)]);
    assert s[0] != '/';
    assert !StartsWith(s, "/") by {
      if StartsWith(s, "/") {
        FirstChar(s, "/");
      }
    }
    if StartsWith(Lower(s), "ipfs/") {
      SlashIsNotOnion(s, "ipfs/");
    }
    if StartsWith(Lower(s), "ipns/") {
      SlashIsNotOnion(s, "ipns/");
    }
  }

  lemma OnionIsNotCid(s: string)
    requires OnionAddress(s).Some?
    ensures BareCidAddress(s).None?
  {
    var name := s[..NameEnd(s)];
    OnionLength(name);
    var i :| 0 <= i < |name| && name[i] == '.';
    assert s[i] == '.';
    if BareCidAddress(s).Some? {
      CidText(s);
    }
  }

  lemma OnionRoute(s: string)
    requires OnionAddress(s).Some?
    ensures RouteOf(s) == Rewritten(OnionAddress(s).value)
  {
    OnionIsUnsupported(s);
    OnionIsNotIpfs(s);
    OnionIsNotCid(s);
  }

  lemma NoWhitespaceTrim(s: string)
    requires s != "" && NoWhitespace(s)
    ensures Trim(s) == s
  {
    TrimNothing(s);
  }

  lemma NormalizeRewritten(directory: string, s: string, address: string)
    requires s != "" && NoWhitespace(s) && RouteOf(s) == Rewritten(address)
    ensures Normalize(directory, s) == Ok(address)
  {
    NoWhitespaceTrim(s);
  }

  lemma NormalizeHttpOnion(directory: string, url: string)
    requires HttpOnionAddress(url).Some? && url != "" && NoWhitespace(url)
    ensures Normalize(directory, url) == Ok(HttpOnionAddress(url).value)
  {
    NormalizeRewritten(directory, url, HttpOnionAddress(url).value);
  }

  lemma NormalizeOnion(directory: string, s: string)
    requires OnionAddress(s).Some?
    ensures s != "" && NoWhitespace(s) && Normalize(directory, s) == Ok(OnionAddress(s).value)
  {
    OnionLength(s[..NameEnd(s)]);
    OnionRoute(s);
    NormalizeRewritten(directory, s, OnionAddress(s).value);
  }

  /** An onion address without a fragment is the same address typed bare or behind `http://`. */
  lemma OnionFormsAgree(directory: string, s: string, url: string)
    requires OnionAddress(s).Some? && '#' !in s && url == "http://" + s
    ensures Normalize(directory, s) == Normalize(directory, url) == Ok(OnionAddress(s).value)
  {
    NormalizeOnion(directory, s);
    HttpUrlOf(url, s);
    HttpUrlText(url, s);
    HttpOfOnion(url, s);
    NormalizeHttpOnion(directory, url);
  }
}
