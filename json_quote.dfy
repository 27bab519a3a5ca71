/** DomainObjectReader.quote, which turns a JSON field name into the JSON string literal that
    doMergeNestedMap hands to ObjectMapper.readValue to decode a map key, and a model of how
    Jackson reads such a literal back (RFC 8259, section 7: `"` and `\` must be escaped, and so must
    every character below U+0020; `\uXXXX` names a UTF-16 code unit). Jackson stops at the closing
    quote and, by default, ignores whatever follows it. */
module JsonQuote {
  import opened Wrappers

  /** quote(source) as written: the text between two double quotes, with nothing escaped. */
  function Quote(source: Option<string>): (r: Option<string>)
    ensures r.None? <==> source.None?
    ensures r.Some? ==> |r.value| == |source.value| + 2 && r.value[0] == '"' && r.value[|r.value| - 1] == '"'
                        && r.value[1..|r.value| - 1] == source.value
  {
    if source.None? then None else Some("\"" + source.value + "\"")
  }

  // ---------------------------------------------------------------------------------------
  // Reading a JSON string literal
  // ---------------------------------------------------------------------------------------

  function HexValue(c: char): (r: Option<nat>)
    ensures r.Some? ==> r.value < 16
  {
    if '0' <= c <= '9' then Some(c as nat - '0' as nat)
    else if 'a' <= c <= 'f' then Some(c as nat - 'a' as nat + 10)
    else if 'A' <= c <= 'F' then Some(c as nat - 'A' as nat + 10)
    else None
  }

  /** The code unit four hex digits name. */
  function Hex4(s: string): (r: Option<nat>)
    requires |s| == 4
    ensures r.Some? ==> r.value < 0x1_0000
  {
    var a :- HexValue(s[0]);
    var b :- HexValue(s[1]);
    var c :- HexValue(s[2]);
    var d :- HexValue(s[3]);
    Some(((a * 16 + b) * 16 + c) * 16 + d)
  }

  /** The character a two-character escape `\c` stands for. */
  function SimpleEscape(c: char): Option<char> {
    if c == '"' then Some('"')
    else if c == '\\' then Some('\\')
    else if c == '/' then Some('/')
    else if c == 'b' then Some(8 as char)
    else if c == 'f' then Some(12 as char)
    else if c == 'n' then Some('\n')
    else if c == 'r' then Some('\r')
    else if c == 't' then Some('\t')
    else None
  }

  /** The characters of a string literal after its opening quote, up to the closing quote, with
      escapes resolved; None for an unterminated literal, a bad escape or a raw control character. */
  function DecodeBody(s: string): Option<string>
    decreases |s|
  {
    if s == [] then None
    else if s[0] == '"' then Some([])
    else if s[0] == '\\' then
      if |s| < 2 then None
      else if SimpleEscape(s[1]).Some? then
        var rest :- DecodeBody(s[2..]);
        Some([SimpleEscape(s[1]).value] + rest)
      else if s[1] == 'u' && |s| >= 6 then
        var code :- Hex4(s[2..6]);
        if 0xD800 <= code < 0xE000 then None
        else
          var rest :- DecodeBody(s[6..]);
          Some([code as char] + rest)
      else None
    else if (s[0] as int) < 0x20 then None
    else
      var rest :- DecodeBody(s[1..]);
      Some([s[0]] + rest)
  }

  /** What a JSON string literal decodes to; text after the closing quote is ignored. */
  function DecodeLiteral(literal: string): Option<string> {
    if |literal| > 0 && literal[0] == '"' then DecodeBody(literal[1..]) else None
  }

  // ---------------------------------------------------------------------------------------
  // quote as written: faithful only for keys that need no escaping
  // ---------------------------------------------------------------------------------------

  /** A key with no double quote, no backslash and no control character. */
  predicate NeedsNoEscape(s: string) {
    forall i :: 0 <= i < |s| ==> s[i] != '"' && s[i] != '\\' && (s[i] as int) >= 0x20
  }

  lemma {:induction false} DecodePlain(s: string, rest: string)
    requires NeedsNoEscape(s)
    ensures DecodeBody(s + ['"'] + rest) == Some(s)
    decreases |s|
  {
    if s == [] {
      assert s + ['"'] + rest == ['"'] + rest;
    } else {
      DecodePlain(s[1..], rest);
      assert (s + ['"'] + rest)[1..] == s[1..] + ['"'] + rest;
      assert [s[0]] + s[1..] == s;
    }
  }

  /** For a key that needs no escaping, quote is read back as the key. */
  lemma QuotePlainRoundTrip(s: string)
    requires NeedsNoEscape(s)
    ensures DecodeLiteral(Quote(Some(s)).value) == Some(s)
  {
    DecodePlain(s, []);
    assert Quote(Some(s)).value[1..] == s + ['"'] + [];
  }

  /** An ordinary character stands for itself. */
  lemma DecodePlainChar(c: char, s: string)
    requires c != '"' && c != '\\' && (c as int) >= 0x20
    ensures DecodeBody([c] + s) == (var rest :- DecodeBody(s); Some([c] + rest))
  {
    assert ([c] + s)[1..] == s;
  }

  /** A key holding a backslash is read back with the escape it happens to form resolved:
      `C:\temp` comes back with a tab in place of `\t`. */
  lemma QuoteMisreadsBackslash()
    ensures DecodeLiteral(Quote(Some("C:\\temp")).value) == Some("C:\temp")
    ensures "C:\temp" != "C:\\temp"
  {
    var tail := "emp" + ['"'] + [];
    DecodePlain("emp", []);
    var escape := ['\\', 't'] + tail;
    assert escape[2..] == tail;
    assert DecodeBody(escape) == Some(['\t'] + "emp");
    DecodePlainChar(':', escape);
    DecodePlainChar('C', [':'] + escape);
    assert Quote(Some("C:\\temp")).value[1..] == ['C'] + ([':'] + escape);
    assert ['C'] + ([':'] + (['\t'] + "emp")) == "C:\temp";
  }

  /** A key holding a double quote is cut short at it: `a"b` comes back as `a`. */
  lemma QuoteTruncatesAtQuote()
    ensures DecodeLiteral(Quote(Some("a\"b")).value) == Some("a")
  {
    var lit := Quote(Some("a\"b")).value;
    assert lit[1..] == "a\"b\"";
    var s1 := "a\"b\"";
    assert s1[1..] == "\"b\"";
    assert DecodeBody(s1[1..]) == Some([]);
    assert ['a'] + [] == "a";
  }

  /** A key holding a line break gives a literal Jackson refuses. */
  lemma QuoteRejectsLineBreak()
    ensures DecodeLiteral(Quote(Some("a\nb")).value) == None
  {
    var lit := Quote(Some("a\nb")).value;
    assert lit[1..] == "a\nb\"";
    assert DecodeBody("\nb\"") == None;
  }

  // ---------------------------------------------------------------------------------------
  // quote with escaping: the literal reads back as the key, whatever the key
  // ---------------------------------------------------------------------------------------

  const HEX_DIGITS: string := "0123456789abcdef"

  /** A character as it must appear inside a JSON string literal. */
  function EscapedChar(c: char): string {
    if c == '"' then ['\\', '"']
    else if c == '\\' then ['\\', '\\']
    else if (c as int) < 0x20 then ['\\', 'u', '0', '0', HEX_DIGITS[c as int / 16], HEX_DIGITS[c as int % 16]]
    else [c]
  }

  function Escaped(s: string): string
    decreases |s|
  {
    if s == [] then [] else EscapedChar(s[0]) + Escaped(s[1..])
  }

  /** quote as it is evidently meant: a JSON string literal that stands for `source`. */
  function QuoteEscaped(source: string): string {
    "\"" + Escaped(source) + "\""
  }

  lemma HexDigitValue(d: nat)
    requires d < 16
    ensures HexValue(HEX_DIGITS[d]) == Some(d)
  {
  }

  lemma DecodeControlChar(c: char, tail: string)
    requires (c as int) < 0x20
    ensures DecodeBody(EscapedChar(c) + tail) == (var rest :- DecodeBody(tail); Some([c] + rest))
  {
    var e := EscapedChar(c) + tail;
    var code := c as int;
    var hi, lo := code / 16, code % 16;
    HexDigitValue(hi);
    HexDigitValue(lo);
    assert e[2..6] == ['0', '0', HEX_DIGITS[hi], HEX_DIGITS[lo]];
    assert ((0 * 16 + 0) * 16 + hi) * 16 + lo == code;
    assert Hex4(e[2..6]) == Some(code);
    assert e[6..] == tail;
  }

  lemma DecodeEscapedChar(c: char, tail: string)
    ensures DecodeBody(EscapedChar(c) + tail) == (var rest :- DecodeBody(tail); Some([c] + rest))
  {
    var e := EscapedChar(c) + tail;
    if c == '"' || c == '\\' {
      assert e[2..] == tail;
    } else if (c as int) < 0x20 {
      DecodeControlChar(c, tail);
    } else {
      assert e[1..] == tail;
    }
  }

  lemma {:induction false} DecodeEscaped(s: string, rest: string)
    ensures DecodeBody(Escaped(s) + ['"'] + rest) == Some(s)
    decreases |s|
  {
    if s == [] {
      assert Escaped(s) + ['"'] + rest == ['"'] + rest;
    } else {
      var tail := Escaped(s[1..]) + ['"'] + rest;
      DecodeEscaped(s[1..], rest);
      assert Escaped(s) + ['"'] + rest == EscapedChar(s[0]) + tail;
      DecodeEscapedChar(s[0], tail);
      assert [s[0]] + s[1..] == s;
    }
  }

  /** The escaped literal reads back as exactly the key. */
  lemma QuoteEscapedRoundTrip(s: string)
    ensures DecodeLiteral(QuoteEscaped(s)) == Some(s)
  {
    DecodeEscaped(s, []);
    assert QuoteEscaped(s)[1..] == Escaped(s) + ['"'] + [];
  }

  /** Escaping changes nothing for a key that needs none: the correction agrees with quote there. */
  lemma {:induction false} EscapedPlain(s: string)
    requires NeedsNoEscape(s)
    ensures Escaped(s) == s
    decreases |s|
  {
    if s != [] {
      EscapedPlain(s[1..]);
      assert [s[0]] + s[1..] == s;
    }
  }
}
