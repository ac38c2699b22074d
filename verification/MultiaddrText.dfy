// Multiaddr text (crates/routing/src/lib.rs).
module MultiaddrText {
  import opened Text

  datatype MultiaddrError = Empty | MissingLeadingSlash | EmptySegment | InvalidSegment(segment: string)

  datatype Multiaddr = Multiaddr(text: string)

  predicate IsSegmentChar(c: char) {
    || IsAsciiAlphanumeric(c)
    || c == '-' || c == '_' || c == '.' || c == ':' || c == '~' || c == '%' || c == '+' || c == '='
  }

  predicate IsValidSegment(segment: string) {
    && segment != ""
    && |segment| <= 512
    && forall i :: 0 <= i < |segment| ==> IsSegmentChar(segment[i])
  }

  predicate AllValidSegments(segments: seq<string>) {
    forall i :: 0 <= i < |segments| ==> IsValidSegment(segments[i])
  }

  function FirstInvalid(segments: seq<string>): Option<string> {
    if segments == [] then None
    else if !IsValidSegment(segments[0]) then Some(segments[0])
    else FirstInvalid(segments[1..])
  }

  function ParseMultiaddr(input: string): Result<Multiaddr, MultiaddrError> {
    if input == "" then Err(Empty)
    else if input[0] != '/' then Err(MissingLeadingSlash)
    else
      var parts := Split(input, '/')[1..];
      if "" in parts then Err(EmptySegment)
      else match FirstInvalid(parts)
        case Some(segment) => Err(InvalidSegment(segment))
        case None => Ok(Multiaddr(input))
  }

  function NonEmpty(parts: seq<string>): (r: seq<string>)
    ensures "" !in r
  {
    if parts == [] then []
    else if parts[0] == "" then NonEmpty(parts[1..])
    else [parts[0]] + NonEmpty(parts[1..])
  }

  function Segments(address: Multiaddr): seq<string> {
    NonEmpty(Split(address.text, '/'))
  }

  /** The text of a segment list: every segment with a slash in front of it. */
  function Rejoin(segments: seq<string>): string {
    if segments == [] then "" else "/" + segments[0] + Rejoin(segments[1..])
  }

  lemma {:induction false} NonEmptyIsIdentity(parts: seq<string>)
    requires "" !in parts
    ensures NonEmpty(parts) == parts
  {
    if parts != [] {
      NonEmptyIsIdentity(parts[1..]);
      assert parts[0] in parts;
    }
  }

  lemma {:induction false} FirstInvalidNone(parts: seq<string>)
    ensures FirstInvalid(parts).None? <==> AllValidSegments(parts)
  {
    if parts != [] {
      FirstInvalidNone(parts[1..]);
      assert forall i :: 1 <= i < |parts| ==> parts[i] == parts[1..][i - 1];
    }
  }

  lemma {:induction false} RejoinIsJoin(segments: seq<string>)
    requires segments != []
    ensures Rejoin(segments) == "/" + Join(segments, '/')
  {
    if |segments| > 1 {
      RejoinIsJoin(segments[1..]);
    } else {
      assert Rejoin(segments[1..]) == "";
    }
  }

  lemma SplitOfRejoin(segments: seq<string>)
    requires segments != [] && AllValidSegments(segments)
    ensures Split(Rejoin(segments), '/') == [""] + segments
    ensures "" !in segments
  {
    RejoinIsJoin(segments);
    SplitOfJoin(segments, '/');
    SplitAtSeparator("", Join(segments, '/'), '/');
    assert "" + ['/'] + Join(segments, '/') == Rejoin(segments);
  }

  /** Every non-empty list of valid segments is the segment list of the address it spells. */
  lemma MultiaddrAccepts(segments: seq<string>)
    requires segments != [] && AllValidSegments(segments)
    ensures ParseMultiaddr(Rejoin(segments)) == Ok(Multiaddr(Rejoin(segments)))
    ensures Segments(Multiaddr(Rejoin(segments))) == segments
  {
    SplitOfRejoin(segments);
    FirstInvalidNone(segments);
    assert ([""] + segments)[1..] == segments;
    NonEmptyIsIdentity(segments);
  }

  /** And nothing else parses: an accepted address is its own segments rejoined. */
  lemma MultiaddrIsItsSegments(input: string)
    requires ParseMultiaddr(input).Ok?
    ensures ParseMultiaddr(input).value.text == input
    ensures var segments := Segments(ParseMultiaddr(input).value);
            segments != [] && AllValidSegments(segments) && Rejoin(segments) == input
  {
    var parts := Split(input, '/');
    JoinOfSplit(input, '/');
    SplitAtSeparator("", input[1..], '/');
    assert "" + ['/'] + input[1..] == input;
    assert parts == [""] + parts[1..];
    FirstInvalidNone(parts[1..]);
    NonEmptyIsIdentity(parts[1..]);
    RejoinIsJoin(parts[1..]);
  }

  lemma RejoinOfFour(a: string, b: string, c: string, d: string)
    ensures Rejoin([a, b, c, d]) == "/" + a + ("/" + b + ("/" + c + ("/" + d + "")))
  {
    assert [a, b, c, d][1..] == [b, c, d] && [b, c, d][1..] == [c, d] && [c, d][1..] == [d];
    assert Rejoin([d]) == "/" + d + Rejoin([]);
    assert Rejoin([c, d]) == "/" + c + Rejoin([d]);
    assert Rejoin([b, c, d]) == "/" + b + Rejoin([c, d]);
  }
}
