/** parseValue (src/index.ts:242-288): reads one attribute value that starts
    at `fromIndex` — a quoted string, a `<...>` token, or the rest of the line. */
module ValueTokenizer {
  import opened JsString
  import opened PlanTypes
  import opened Scanners
  import opened JsonString

  /** A value, the position it ends at (the index of its closing delimiter,
      or the line length when it runs to the end), and the errors reading it
      appends. */
  datatype Token = Token(val: AttributeValue, endPos: nat, errors: seq<ParseError>)

  /** `contents === 'computed'`, spelled out character by character. */
  predicate IsComputedWord(s: string)
  {
    && |s| == 8 && s[0] == 'c' && s[1] == 'o' && s[2] == 'm' && s[3] == 'p'
    && s[4] == 'u' && s[5] == 't' && s[6] == 'e' && s[7] == 'd'
  }

  lemma IsComputedWordIsEquality(s: string)
    ensures IsComputedWord(s) <==> s == "computed"
  {
  }

  function TokenizeValue(line: string, fromIndex: nat): Completion<Token>
  {
    if fromIndex < |line| && line[fromIndex] == '"' then QuotedToken(line, fromIndex)
    else if fromIndex < |line| && line[fromIndex] == '<' then AngleToken(line, fromIndex)
    else BareToken(line, fromIndex)
  }

  /** A value opened by a double quote: a JSON string literal up to the
      closing quote, or the rest of the line when there is none. */
  function QuotedToken(line: string, fromIndex: nat): Completion<Token>
    requires fromIndex < |line|
  {
    var endPos := QuoteEnd(line, fromIndex + 1, false);
    if endPos == -1 then
      Normal(Token(AttributeValue(UnknownValue, Some(line[fromIndex..])), |line|, [UnterminatedString]))
    else ClosedString(line, fromIndex, endPos)
  }

  /** The literal from the opening quote at `fromIndex` to the closing one at
      `endPos`, through JSON.parse. */
  function ClosedString(line: string, fromIndex: nat, endPos: nat): Completion<Token>
    requires fromIndex <= endPos < |line|
  {
    match ParseStringLiteral(line[fromIndex..endPos + 1])
    case None => Thrown
    case Some(v) => Normal(Token(AttributeValue(StringValue, Some(v)), endPos, []))
  }

  /** A value opened by `<`: `<computed>`, another `<...>` token, or the
      rest of the line when no `>` follows. */
  function AngleToken(line: string, fromIndex: nat): Completion<Token>
    requires fromIndex < |line|
  {
    match ReadUpTo(line, fromIndex + 1, '>')
    case None => Normal(Token(AttributeValue(UnknownValue, Some(line[fromIndex..])), |line|, []))
    case Some(contents) =>
      var endPos := fromIndex + |contents| + 1;
      if IsComputedWord(contents) then Normal(Token(AttributeValue(ComputedValue, None), endPos, []))
      else Normal(Token(AttributeValue(UnknownValue, Some(line[fromIndex..endPos])), endPos, []))
  }

  /** Any other value: the rest of the line. */
  function BareToken(line: string, fromIndex: nat): Completion<Token>
  {
    var v := SubstringFrom(line, fromIndex);
    Normal(Token(AttributeValue(UnknownValue, Some(v)), fromIndex + |v|, []))
  }

  /** The tokenizer as the source runs it: scanner calls, then a push onto
      `errors` for an unterminated string. `threw` reports the JSON.parse
      SyntaxError. */
  method ParseValue(line: string, fromIndex: nat, res: ParseResult)
    returns (threw: bool, v: AttributeValue, endPos: nat)
    modifies res`errors
    ensures threw <==> TokenizeValue(line, fromIndex).Thrown?
    ensures !threw ==>
      var t := TokenizeValue(line, fromIndex).value;
      v == t.val && endPos == t.endPos && res.errors == old(res.errors) + t.errors
  {
    threw := false;
    if fromIndex < |line| && line[fromIndex] == '"' {
      var closing := FindStringEndDelimiterPos(line, fromIndex + 1);
      if closing == -1 {
        endPos := |line|;
        v := AttributeValue(UnknownValue, Some(line[fromIndex..]));
        res.errors := res.errors + [UnterminatedString];
      } else {
        endPos := closing;
        var parsed := ParseStringLiteral(line[fromIndex..endPos + 1]);
        if parsed.None? {
          threw := true;
          v := AttributeValue(UnknownValue, None);
          return;
        }
        v := AttributeValue(StringValue, Some(parsed.value));
      }
    } else if fromIndex < |line| && line[fromIndex] == '<' {
      var contents := ReadUpToChar(line, fromIndex + 1, '>');
      if contents.None? {
        v := AttributeValue(UnknownValue, Some(line[fromIndex..]));
        endPos := |line|;
      } else {
        endPos := fromIndex + |contents.value| + 1;
        IsComputedWordIsEquality(contents.value);
        if contents.value == "computed" {
          v := AttributeValue(ComputedValue, None);
        } else {
          v := AttributeValue(UnknownValue, Some(line[fromIndex..endPos]));
        }
      }
    } else {
      var value := SubstringFrom(line, fromIndex);
      endPos := fromIndex + |value|;
      v := AttributeValue(UnknownValue, Some(value));
    }
  }

  /** `<computed>` yields COMPUTED with no value, ending at the `>`. */
  lemma TokenizeComputed(line: string, fromIndex: nat)
    requires fromIndex + 10 <= |line| && line[fromIndex..fromIndex + 10] == "<computed>"
    ensures TokenizeValue(line, fromIndex) == Normal(Token(AttributeValue(ComputedValue, None), fromIndex + 9, []))
  {
    var w := line[fromIndex..fromIndex + 10];
    assert line[fromIndex] == w[0] == '<';
    assert line[fromIndex + 9] == w[9] == '>';
    forall k | fromIndex + 1 <= k < fromIndex + 9 ensures line[k] != '>' {
      assert line[k] == w[k - fromIndex];
    }
    SliceOfSlice(line, fromIndex, fromIndex + 10, 1, 9);
    assert w[1..9] == "computed";
    IndexOfCharFirst(line, '>', fromIndex + 1);
    IsComputedWordIsEquality(line[fromIndex + 1..fromIndex + 9]);
  }

  /** Any other closed `<...>` yields UNKNOWN whose value runs from the `<` up
      to, but not including, the first `>`, and ends at that `>`. */
  lemma TokenizeAngle(line: string, fromIndex: nat, close: nat)
    requires fromIndex < close < |line|
    requires line[fromIndex] == '<' && line[close] == '>'
    requires forall k :: fromIndex < k < close ==> line[k] != '>'
    requires line[fromIndex + 1..close] != "computed"
    ensures TokenizeValue(line, fromIndex) == Normal(Token(AttributeValue(UnknownValue, Some(line[fromIndex..close])), close, []))
  {
    IndexOfCharFirst(line, '>', fromIndex + 1);
    IsComputedWordIsEquality(line[fromIndex + 1..close]);
  }

  /** A `<` with no `>` after it, like bare text, takes the rest of the line
      as an UNKNOWN value and ends at the line's length. */
  lemma TokenizeRestOfLine(line: string, fromIndex: nat)
    requires fromIndex <= |line|
    requires fromIndex < |line| ==> line[fromIndex] != '"'
    requires fromIndex < |line| && line[fromIndex] == '<' ==> forall k :: fromIndex < k < |line| ==> line[k] != '>'
    ensures TokenizeValue(line, fromIndex) == Normal(Token(AttributeValue(UnknownValue, Some(line[fromIndex..])), |line|, []))
  {
    IndexOfCharFirst(line, '>', fromIndex + 1);
  }

  /** No quote in [from, to) that is not escaped, escapes counted from `from`. */
  predicate NoUnescapedQuote(line: string, from: nat, to: nat)
  {
    forall q :: from <= q < to ==> !UnescapedQuoteAt(line, from, q)
  }

  /** An opening quote with no unescaped closing quote after it appends one
      UNTERMINATED_STRING error; the value is the rest of the line, opening
      quote included. */
  lemma TokenizeUnterminated(line: string, fromIndex: nat)
    requires fromIndex < |line| && line[fromIndex] == '"'
    requires NoUnescapedQuote(line, fromIndex + 1, |line|)
    ensures TokenizeValue(line, fromIndex) == Normal(Token(AttributeValue(UnknownValue, Some(line[fromIndex..])), |line|, [UnterminatedString]))
  {
    QuoteEndFindsFirstUnescaped(line, fromIndex + 1);
  }

  /** A terminated string ends at its first unescaped quote and appends no
      error; it is a STRING holding the JSON-decoded text, unless the decoding
      throws. */
  lemma TokenizeTerminated(line: string, fromIndex: nat, close: nat)
    requires fromIndex < |line| && line[fromIndex] == '"'
    requires UnescapedQuoteAt(line, fromIndex + 1, close)
    requires NoUnescapedQuote(line, fromIndex + 1, close)
    ensures TokenizeValue(line, fromIndex).Thrown? <==> Unescape(line[fromIndex + 1..close]).None?
    ensures TokenizeValue(line, fromIndex).Normal? ==>
      TokenizeValue(line, fromIndex).value ==
        Token(AttributeValue(StringValue, Unescape(line[fromIndex + 1..close])), close, [])
  {
    QuoteEndFindsFirstUnescaped(line, fromIndex + 1);
    var r := QuoteEnd(line, fromIndex + 1, false);
    assert r == close;
    var lit := line[fromIndex..close + 1];
    assert |lit| == close + 1 - fromIndex;
    assert lit[0] == '"' && lit[|lit| - 1] == '"';
    SliceOfSlice(line, fromIndex, close + 1, 1, |lit| - 1);
    assert lit[1..|lit| - 1] == line[fromIndex + 1..close];
    assert ParseStringLiteral(lit) == Unescape(line[fromIndex + 1..close]);
  }

  /** The quote scan passes over one escaped character with the escape
      flag clear before and after. */
  lemma QuoteEndSkipsEscapedChar(line: string, pos: nat, c: char)
    requires pos + |EscapeChar(c)| <= |line|
    requires forall k :: 0 <= k < |EscapeChar(c)| ==> line[pos + k] == EscapeChar(c)[k]
    ensures QuoteEnd(line, pos, false) == QuoteEnd(line, pos + |EscapeChar(c)|, false)
  {
    var e := EscapeChar(c);
    assert line[pos] == e[0];
    if c == '"' || c == '\\' {
      assert line[pos] == '\\';
      assert QuoteEnd(line, pos, false) == QuoteEnd(line, pos + 1, true);
    } else if (c as int) < 0x20 {
      assert line[pos] == '\\';
      assert QuoteEnd(line, pos, false) == QuoteEnd(line, pos + 1, true) == QuoteEnd(line, pos + 2, false);
      assert e == ['\\', 'u', '0', '0', HexDigit(c as nat / 16), HexDigit(c as nat % 16)];
      assert line[pos + 2] == e[2] && line[pos + 3] == e[3];
      assert line[pos + 4] == e[4] && line[pos + 5] == e[5];
      assert QuoteEnd(line, pos + 2, false) == QuoteEnd(line, pos + 3, false) == QuoteEnd(line, pos + 4, false);
      assert QuoteEnd(line, pos + 4, false) == QuoteEnd(line, pos + 5, false) == QuoteEnd(line, pos + 6, false);
    }
  }

  /** The quote scan over an escaped body never stops inside it and leaves
      the escape flag clear. */
  lemma {:induction false} QuoteEndSkipsEscaped(line: string, pos: nat, s: string)
    requires pos + |Escape(s)| <= |line| && line[pos..pos + |Escape(s)|] == Escape(s)
    ensures QuoteEnd(line, pos, false) == QuoteEnd(line, pos + |Escape(s)|, false)
    decreases |s|
  {
    if s != [] {
      var e := EscapeChar(s[0]);
      var tail := Escape(s[1..]);
      assert Escape(s) == e + tail;
      SplitSlice(line, pos, e, tail);
      QuoteEndSkipsEscapedChar(line, pos, s[0]);
      QuoteEndSkipsEscaped(line, pos + |e|, s[1..]);
    }
  }

  /** Quoted values round-trip: a string written as a JSON literal, followed
      by anything, reads back as a STRING with that text, ending at the
      literal's closing quote. */
  lemma TokenizeClosedString(line: string, fromIndex: nat, close: nat, v: string)
    requires fromIndex < |line| && line[fromIndex] == '"'
    requires QuoteEnd(line, fromIndex + 1, false) == close
    requires ParseStringLiteral(line[fromIndex..close + 1]) == Some(v)
    ensures TokenizeValue(line, fromIndex) == Normal(Token(AttributeValue(StringValue, Some(v)), close, []))
  {
    assert TokenizeValue(line, fromIndex) == QuotedToken(line, fromIndex) == ClosedString(line, fromIndex, close);
  }

  /** A JSON string literal written at `start` reads back as that string,
      ending at the literal's closing quote. */
  lemma TokenizeQuotedAt(line: string, start: nat, s: string)
    requires MatchesAt(line, start, "\"" + Escape(s) + "\"")
    ensures TokenizeValue(line, start) == Normal(Token(AttributeValue(StringValue, Some(s)), start + 1 + |Escape(s)|, []))
  {
    var close := start + 1 + |Escape(s)|;
    QuotedLiteralAt(line, start, s);
    QuotedLiteralScan(line, start, s);
    QuotedLiteralDecodes(line, start, s);
    TokenizeClosedString(line, start, close, s);
  }

  /** The pieces of a JSON string literal written at `start`. */
  lemma QuotedLiteralAt(line: string, start: nat, s: string)
    requires MatchesAt(line, start, "\"" + Escape(s) + "\"")
    ensures start + 1 + |Escape(s)| < |line|
    ensures line[start] == '"' && line[start + 1 + |Escape(s)|] == '"'
    ensures line[start + 1..start + 1 + |Escape(s)|] == Escape(s)
  {
    MatchesAtOccurs(line, start, "\"" + Escape(s) + "\"");
    SplitSlice(line, start, "\"", Escape(s) + "\"");
    SplitSlice(line, start + 1, Escape(s), "\"");
  }

  lemma QuotedLiteralScan(line: string, start: nat, s: string)
    requires start + 1 + |Escape(s)| < |line|
    requires line[start + 1 + |Escape(s)|] == '"'
    requires line[start + 1..start + 1 + |Escape(s)|] == Escape(s)
    ensures QuoteEnd(line, start + 1, false) == start + 1 + |Escape(s)|
  {
    QuoteEndSkipsEscaped(line, start + 1, s);
  }

  lemma QuotedLiteralDecodes(line: string, start: nat, s: string)
    requires start + 2 + |Escape(s)| <= |line| && MatchesAt(line, start, "\"" + Escape(s) + "\"")
    ensures ParseStringLiteral(line[start..start + 2 + |Escape(s)|]) == Some(s)
  {
    MatchesAtOccurs(line, start, "\"" + Escape(s) + "\"");
    ParseStringLiteralEscape(s);
  }

  lemma TokenizeQuotedRoundTrip(line: string, pre: string, s: string, post: string)
    requires line == pre + ("\"" + Escape(s) + "\"") + post
    ensures TokenizeValue(line, |pre|) == Normal(Token(AttributeValue(StringValue, Some(s)), |pre| + 1 + |Escape(s)|, []))
  {
    MatchesAtMiddle(pre, "\"" + Escape(s) + "\"", post);
    TokenizeQuotedAt(line, |pre|, s);
  }

  /** The escaped quote of the literal `"abc\"d"` does not end it: the value
      is STRING `abc"d`. */
  lemma TokenizeEscapedQuoteExample()
    ensures TokenizeValue("\"abc\\\"d\"", 0) == Normal(Token(AttributeValue(StringValue, Some("abc\"d")), 7, []))
  {
    assert Escape("abc\"d") == "abc\\\"d" by {
      assert Escape("abc\"d") == EscapeChar('a') + Escape("bc\"d");
      assert Escape("bc\"d") == EscapeChar('b') + Escape("c\"d");
      assert Escape("c\"d") == EscapeChar('c') + Escape("\"d");
      assert Escape("\"d") == EscapeChar('"') + Escape("d");
      assert Escape("d") == EscapeChar('d') + Escape([]);
    }
    TokenizeQuotedRoundTrip("\"abc\\\"d\"", [], "abc\"d", []);
  }
}
