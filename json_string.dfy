/** What JSON.parse does with the text of one quoted value (src/index.ts:259):
    the string grammar and escapes of section 7 of RFC 8259. None stands for
    the SyntaxError JSON.parse throws. */
module JsonString {
  import opened JsString

  function HexValue(c: char): (r: Option<nat>)
    ensures r.Some? ==> r.value < 16
  {
    if '0' <= c <= '9' then Some(c as nat - '0' as nat)
    else if 'a' <= c <= 'f' then Some(c as nat - 'a' as nat + 10)
    else if 'A' <= c <= 'F' then Some(c as nat - 'A' as nat + 10)
    else None
  }

  /** The four hexadecimal digits of a \u escape. */
  function Hex4(s: string): (r: Option<nat>)
    requires |s| == 4
    ensures r.Some? ==> r.value < 0x10000
  {
    match (HexValue(s[0]), HexValue(s[1]), HexValue(s[2]), HexValue(s[3]))
    case (Some(a), Some(b), Some(c), Some(d)) => Some(((a * 16 + b) * 16 + c) * 16 + d)
    case _ => None
  }

  predicate IsHighSurrogate(u: nat) { 0xD800 <= u <= 0xDBFF }
  predicate IsLowSurrogate(u: nat) { 0xDC00 <= u <= 0xDFFF }

  function Prepend(c: char, r: Option<string>): Option<string>
  {
    if r.Some? then Some([c] + r.value) else None
  }

  /** Decodes the first character or escape of a string body: the character
      it stands for and how many characters of `body` it takes, or None when
      the body does not start with a legal character or escape. A raw
      character must not be a quote, a backslash or a control character
      (below U+0020); a backslash starts one of the escapes \" \\ \/ \b \f \n
      \r \t or \uXXXX. A \u pair of surrogates decodes to one character; a
      lone surrogate decodes to U+FFFD. */
  function DecodeUnit(body: string): (r: Option<(char, nat)>)
    requires body != []
    ensures r.Some? ==> 1 <= r.value.1 <= |body|
  {
    if body[0] == '\\' then
      if |body| < 2 then None
      else if body[1] == '"' then Some(('"', 2))
      else if body[1] == '\\' then Some(('\\', 2))
      else if body[1] == '/' then Some(('/', 2))
      else if body[1] == 'b' then Some((8 as char, 2))
      else if body[1] == 'f' then Some((12 as char, 2))
      else if body[1] == 'n' then Some(('\n', 2))
      else if body[1] == 'r' then Some(('\r', 2))
      else if body[1] == 't' then Some(('\t', 2))
      else if body[1] == 'u' then
        if |body| < 6 then None
        else match Hex4(body[2..6])
          case None => None
          case Some(u) =>
            if IsHighSurrogate(u) && |body| >= 12 && body[6] == '\\' && body[7] == 'u'
               && Hex4(body[8..12]).Some? && IsLowSurrogate(Hex4(body[8..12]).value)
            then
              var lo := Hex4(body[8..12]).value;
              Some(((0x10000 + (u - 0xD800) * 0x400 + (lo - 0xDC00)) as char, 12))
            else if IsHighSurrogate(u) || IsLowSurrogate(u) then Some((0xFFFD as char, 6))
            else Some((u as char, 6))
      else None
    else if body[0] == '"' || (body[0] as int) < 0x20 then None
    else Some((body[0], 1))
  }

  /** Decodes the characters between the quotes of a JSON string, one unit at
      a time; None when some unit is not legal. */
  function Unescape(body: string): (r: Option<string>)
    decreases |body|, 1
  {
    if body == [] then Some([]) else UnescapeUnits(body)
  }

  /** A non-empty body: its first unit, then the rest. */
  function UnescapeUnits(body: string): (r: Option<string>)
    requires body != []
    decreases |body|, 0
  {
    match DecodeUnit(body)
    case None => None
    case Some((c, n)) => Prepend(c, Unescape(body[n..]))
  }

  /** JSON.parse applied to a complete quoted literal. */
  function ParseStringLiteral(text: string): (r: Option<string>)
    ensures (|text| < 2 || text[0] != '"' || text[|text| - 1] != '"') ==> r.None?
  {
    if |text| >= 2 && text[0] == '"' && text[|text| - 1] == '"' then Unescape(text[1..|text| - 1])
    else None
  }

  function HexDigit(n: nat): (c: char)
    requires n < 16
    ensures HexValue(c) == Some(n)
  {
    if n < 10 then ('0' as nat + n) as char else ('a' as nat + n - 10) as char
  }

  /** An escaper whose output JSON.parse reads back: quotes and backslashes
      get a backslash, control characters become \u00XX. */
  function EscapeChar(c: char): string
  {
    if c == '"' then ['\\', '"']
    else if c == '\\' then ['\\', '\\']
    else if (c as int) < 0x20 then ['\\', 'u', '0', '0', HexDigit(c as nat / 16), HexDigit(c as nat % 16)]
    else [c]
  }

  function Escape(s: string): string
  {
    if s == [] then [] else EscapeChar(s[0]) + Escape(s[1..])
  }

  lemma UnescapeEscapeChar(c: char, rest: string)
    ensures Unescape(EscapeChar(c) + rest) == Prepend(c, Unescape(rest))
  {
    var e := EscapeChar(c) + rest;
    if c == '"' || c == '\\' {
      assert DecodeUnit(e) == Some((c, 2));
      assert e[2..] == rest;
    } else if (c as int) < 0x20 {
      var hi, lo := c as nat / 16, c as nat % 16;
      assert e[2..6] == ['0', '0', HexDigit(hi), HexDigit(lo)];
      assert Hex4(e[2..6]) == Some(hi * 16 + lo);
      assert DecodeUnit(e) == Some((c, 6));
      assert e[6..] == rest;
    } else {
      assert DecodeUnit(e) == Some((c, 1));
      assert e[1..] == rest;
    }
  }

  /** Decoding undoes encoding: every string survives the trip through a
      JSON string literal. */
  lemma {:induction false} UnescapeEscape(s: string)
    ensures Unescape(Escape(s)) == Some(s)
  {
    if s != [] {
      UnescapeEscape(s[1..]);
      UnescapeEscapeChar(s[0], Escape(s[1..]));
      assert [s[0]] + s[1..] == s;
    }
  }

  lemma ParseStringLiteralEscape(s: string)
    ensures ParseStringLiteral("\"" + Escape(s) + "\"") == Some(s)
  {
    var t := "\"" + Escape(s) + "\"";
    assert t[1..|t| - 1] == Escape(s);
    UnescapeEscape(s);
  }
}
