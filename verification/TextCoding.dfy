// UTF-8 and percent encoding of search terms and file paths (crates/browser-core/src/lib.rs).
module TextCoding {
  import opened Text

  type Bytes = seq<Byte>

  // ---------- UTF-8 ----------

  function Utf8(c: char): (b: Bytes)
    ensures 1 <= |b| <= 4
  {
    var n := c as int;
    if n < 0x80 then [n]
    else if n < 0x800 then [0xC0 + n / 0x40, 0x80 + n % 0x40]
    else if n < 0x1_0000 then [0xE0 + n / 0x1000, 0x80 + n / 0x40 % 0x40, 0x80 + n % 0x40]
    else [0xF0 + n / 0x4_0000, 0x80 + n / 0x1000 % 0x40, 0x80 + n / 0x40 % 0x40, 0x80 + n % 0x40]
  }

  function Utf8All(s: string): Bytes {
    if s == "" then [] else Utf8(s[0]) + Utf8All(s[1..])
  }

  predicate IsScalar(n: int) {
    0 <= n < 0xD800 || 0xE000 <= n < 0x11_0000
  }

  /** The number of bytes the lead byte announces, and the code point they spell. */
  function FromUtf8(b: Bytes): (int, nat)
    requires b != []
  {
    var b0: int := b[0];
    if b0 < 0x80 then (b0, 1)
    else if b0 < 0xE0 && |b| >= 2 then
      var b1: int := b[1];
      ((b0 - 0xC0) * 0x40 + (b1 - 0x80), 2)
    else if b0 < 0xF0 && |b| >= 3 then
      var b1: int, b2: int := b[1], b[2];
      ((b0 - 0xE0) * 0x1000 + (b1 - 0x80) * 0x40 + (b2 - 0x80), 3)
    else if |b| >= 4 then
      var b1: int, b2: int, b3: int := b[1], b[2], b[3];
      ((b0 - 0xF0) * 0x4_0000 + (b1 - 0x80) * 0x1000 + (b2 - 0x80) * 0x40 + (b3 - 0x80), 4)
    else (-1, 1)
  }

  function Utf8Decode(b: Bytes): Option<string>
    decreases |b|
  {
    if b == [] then Some("")
    else
      var (n, used) := FromUtf8(b);
      if !IsScalar(n) then None
      else match Utf8Decode(b[used..])
        case None => None
        case Some(rest) => Some([n as char] + rest)
  }

  lemma FromUtf8Char(c: char, rest: Bytes)
    ensures FromUtf8(Utf8(c) + rest) == (c as int, |Utf8(c)|)
  {
    var n := c as int;
    var low, mid := n % 0x40, n / 0x40;
    assert n == mid * 0x40 + low;
    assert mid == mid / 0x40 * 0x40 + mid % 0x40;
    assert n / 0x1000 == mid / 0x40;
    var high := n / 0x1000;
    assert high == high / 0x40 * 0x40 + high % 0x40;
    assert n / 0x4_0000 == high / 0x40;
  }

  /** UTF-8 is read back as written. */
  lemma {:induction false} Utf8RoundTrip(s: string)
    ensures Utf8Decode(Utf8All(s)) == Some(s)
  {
    if s != "" {
      var rest := Utf8All(s[1..]);
      FromUtf8Char(s[0], rest);
      Utf8RoundTrip(s[1..]);
      assert (Utf8(s[0]) + rest)[|Utf8(s[0])|..] == rest;
      assert s == [s[0]] + s[1..];
    }
  }

  // ---------- percent encoding ----------

  function Hex(n: nat): char
    requires n < 16
  {
    if n < 10 then Digit(n) else ('A' as int + n - 10) as char
  }

  function HexValue(c: char): Option<nat> {
    if IsDigit(c) then Some(DigitValue(c))
    else if 'A' <= c <= 'F' then Some(c as int - 'A' as int + 10)
    else if 'a' <= c <= 'f' then Some(c as int - 'a' as int + 10)
    else None
  }

  function Escape(b: Byte): string {
    ['%', Hex(b / 16), Hex(b % 16)]
  }

  function EscapeAll(bytes: Bytes): string {
    if bytes == [] then "" else Escape(bytes[0]) + EscapeAll(bytes[1..])
  }

  /**
   * The standard decoder of section 2.1 of RFC 3986 on ASCII text; with `plus`, a '+' is read as a
   * space, as in form queries.
   */
  function Unescape(s: string, plus: bool): Option<Bytes>
    decreases |s|
  {
    if s == "" then Some([])
    else if s[0] == '%' then
      if |s| < 3 then None
      else match (HexValue(s[1]), HexValue(s[2]), Unescape(s[3..], plus))
        case (Some(high), Some(low), Some(rest)) => Some([high * 16 + low] + rest)
        case _ => None
    else if s[0] as int >= 0x80 then None
    else match Unescape(s[1..], plus)
      case Some(rest) => Some([if plus && s[0] == '+' then 0x20 else s[0] as int] + rest)
      case None => None
  }

  predicate IsPathByte(b: Byte) {
    b < 0x80 && (IsAsciiAlphanumeric(b as char)
                 || b as char == '/' || b as char == '.' || b as char == '-' || b as char == '_' || b as char == '~')
  }

  function EncodeByte(b: Byte): string {
    if IsPathByte(b) then [b as char] else Escape(b)
  }

  function EncodePath(bytes: Bytes): string {
    if bytes == [] then "" else EncodeByte(bytes[0]) + EncodePath(bytes[1..])
  }

  lemma PathStep(bytes: Bytes, i: nat, output: string)
    requires i < |bytes|
    ensures output + EncodePath(bytes[i..]) == output + EncodeByte(bytes[i]) + EncodePath(bytes[i + 1..])
  {
    assert bytes[i..][1..] == bytes[i + 1..];
  }

  method PercentEncodeFilePath(input: string) returns (output: string)
    ensures output == EncodePath(Utf8All(input))
  {
    var bytes := Utf8All(input);
    ghost var encoded := EncodePath(bytes);
    output := "";
    assert bytes[0..] == bytes && "" + encoded == encoded;
    for i := 0 to |bytes|
      invariant encoded == output + EncodePath(bytes[i..])
    {
      PathStep(bytes, i, output);
      if IsPathByte(bytes[i]) {
        output := output + [bytes[i] as char];
      } else {
        output := output + ['%', Hex(bytes[i] / 16), Hex(bytes[i] % 16)];
      }
    }
    assert output + EncodePath([]) == output;
  }

  predicate IsQueryChar(c: char) {
    IsAsciiAlphanumeric(c) || c == '-' || c == '_' || c == '.' || c == '~'
  }

  function EncodeChar(c: char): string {
    if IsQueryChar(c) then [c] else if IsWhitespace(c) then "+" else EscapeAll(Utf8(c))
  }

  function EncodeQuery(s: string): string {
    if s == "" then "" else EncodeChar(s[0]) + EncodeQuery(s[1..])
  }

  lemma QueryStep(s: string, i: nat, output: string)
    requires i < |s|
    ensures output + EncodeQuery(s[i..]) == output + EncodeChar(s[i]) + EncodeQuery(s[i + 1..])
  {
    assert s[i..][1..] == s[i + 1..];
  }

  lemma EscapeStep(bytes: Bytes, k: nat, output: string)
    requires k < |bytes|
    ensures output + EscapeAll(bytes[k..]) == output + Escape(bytes[k]) + EscapeAll(bytes[k + 1..])
  {
    assert bytes[k..][1..] == bytes[k + 1..];
  }

  /** The inner loop: one character's bytes, each as a percent triple. */
  method PushEscaped(output: string, ch: char) returns (r: string)
    ensures r == output + EscapeAll(Utf8(ch))
  {
    var bytes := Utf8(ch);
    ghost var pushed := output + EscapeAll(bytes);
    r := output;
    assert bytes[0..] == bytes;
    for k := 0 to |bytes|
      invariant pushed == r + EscapeAll(bytes[k..])
    {
      EscapeStep(bytes, k, r);
      r := r + ['%', Hex(bytes[k] / 16), Hex(bytes[k] % 16)];
    }
    assert r + EscapeAll([]) == r;
  }

  method EncodeQueryText(input: string) returns (output: string)
    ensures output == EncodeQuery(input)
  {
    ghost var encoded := EncodeQuery(input);
    output := "";
    assert input[0..] == input && "" + encoded == encoded;
    for i := 0 to |input|
      invariant encoded == output + EncodeQuery(input[i..])
    {
      var ch := input[i];
      QueryStep(input, i, output);
      if IsQueryChar(ch) {
        output := output + [ch];
      } else if IsWhitespace(ch) {
        output := output + "+";
      } else {
        output := PushEscaped(output, ch);
      }
    }
    assert output + EncodeQuery("") == output;
  }

  // ---------- decoding what was encoded ----------

  lemma HexRoundTrip(n: nat)
    requires n < 16
    ensures HexValue(Hex(n)) == Some(n)
  {
  }

  lemma UnescapeEscape(b: Byte, rest: string, plus: bool)
    requires Unescape(rest, plus).Some?
    ensures Unescape(Escape(b) + rest, plus) == Some([b] + Unescape(rest, plus).value)
  {
    var s := Escape(b) + rest;
    HexRoundTrip(b / 16);
    HexRoundTrip(b % 16);
    assert s[0] == '%' && s[1] == Hex(b / 16) && s[2] == Hex(b % 16) && s[3..] == rest;
  }

  lemma {:induction false} UnescapeEscapeAll(bytes: Bytes, rest: string, plus: bool)
    requires Unescape(rest, plus).Some?
    ensures Unescape(EscapeAll(bytes) + rest, plus) == Some(bytes + Unescape(rest, plus).value)
  {
    var decoded := Unescape(rest, plus).value;
    if bytes == [] {
      assert EscapeAll(bytes) + rest == rest;
      assert [] + decoded == decoded;
    } else {
      var head, tail := bytes[0], bytes[1..];
      UnescapeEscapeAll(tail, rest, plus);
      UnescapeEscape(head, EscapeAll(tail) + rest, plus);
      AppendAssociative(Escape(head), EscapeAll(tail), rest);
      AppendAssociative([head], tail, decoded);
      assert [head] + tail == bytes;
    }
  }

  lemma UnescapePlain(c: char, rest: string, plus: bool)
    requires c != '%' && c as int < 0x80 && Unescape(rest, plus).Some?
    ensures Unescape([c] + rest, plus) == Some([if plus && c == '+' then 0x20 else c as int] + Unescape(rest, plus).value)
  {
    assert ([c] + rest)[1..] == rest;
  }

  lemma UnescapeByte(b: Byte, rest: string)
    requires Unescape(rest, false).Some?
    ensures Unescape(EncodeByte(b) + rest, false) == Some([b] + Unescape(rest, false).value)
  {
    if IsPathByte(b) {
      UnescapePlain(b as char, rest, false);
    } else {
      UnescapeEscape(b, rest, false);
    }
  }

  /** Decoding an encoded path gives back its bytes, whatever they are. */
  lemma {:induction false} PathRoundTrip(bytes: Bytes)
    ensures Unescape(EncodePath(bytes), false) == Some(bytes)
  {
    if bytes != [] {
      PathRoundTrip(bytes[1..]);
      UnescapeByte(bytes[0], EncodePath(bytes[1..]));
      assert bytes == [bytes[0]] + bytes[1..];
    }
  }

  /** The text with every whitespace character replaced by a space. */
  function Spaced(s: string): string {
    if s == "" then "" else [if IsWhitespace(s[0]) then ' ' else s[0]] + Spaced(s[1..])
  }

  lemma UnescapeChar(c: char, rest: string)
    requires Unescape(rest, true).Some?
    ensures Unescape(EncodeChar(c) + rest, true)
         == Some(Utf8(if IsWhitespace(c) then ' ' else c) + Unescape(rest, true).value)
  {
    if IsQueryChar(c) {
      UnescapePlain(c, rest, true);
    } else if IsWhitespace(c) {
      UnescapePlain('+', rest, true);
    } else {
      UnescapeEscapeAll(Utf8(c), rest, true);
    }
  }

  lemma {:induction false} QueryBytes(s: string)
    ensures Unescape(EncodeQuery(s), true) == Some(Utf8All(Spaced(s)))
  {
    if s != "" {
      QueryBytes(s[1..]);
      UnescapeChar(s[0], EncodeQuery(s[1..]));
      assert Spaced(s)[1..] == Spaced(s[1..]);
    }
  }

  /** Decoding an encoded search term gives back the term, whitespace read as spaces. */
  lemma QueryRoundTrip(s: string)
    ensures Unescape(EncodeQuery(s), true).Some?
    ensures Utf8Decode(Unescape(EncodeQuery(s), true).value) == Some(Spaced(s))
  {
    QueryBytes(s);
    Utf8RoundTrip(Spaced(s));
  }

  // ---------- what encoded text looks like ----------

  predicate NoWhitespace(s: string) {
    forall i :: 0 <= i < |s| ==> !IsWhitespace(s[i])
  }

  lemma NoWhitespaceAppend(a: string, b: string)
    ensures NoWhitespace(a + b) <==> NoWhitespace(a) && NoWhitespace(b)
  {
    assert forall i :: 0 <= i < |a| ==> (a + b)[i] == a[i];
    assert forall i :: 0 <= i < |b| ==> (a + b)[|a| + i] == b[i];
  }

  lemma {:induction false} EscapeAllNoWhitespace(bytes: Bytes)
    ensures NoWhitespace(EscapeAll(bytes))
  {
    if bytes != [] {
      EscapeAllNoWhitespace(bytes[1..]);
      NoWhitespaceAppend(Escape(bytes[0]), EscapeAll(bytes[1..]));
    }
  }

  lemma {:induction false} QueryNoWhitespace(s: string)
    ensures NoWhitespace(EncodeQuery(s))
  {
    if s != "" {
      QueryNoWhitespace(s[1..]);
      EscapeAllNoWhitespace(Utf8(s[0]));
      NoWhitespaceAppend(EncodeChar(s[0]), EncodeQuery(s[1..]));
    }
  }

  lemma {:induction false} PathNoWhitespace(bytes: Bytes)
    ensures NoWhitespace(EncodePath(bytes))
  {
    if bytes != [] {
      PathNoWhitespace(bytes[1..]);
      NoWhitespaceAppend(EncodeByte(bytes[0]), EncodePath(bytes[1..]));
    }
  }
}
