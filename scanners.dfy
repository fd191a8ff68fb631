/** The three position scanners of the value tokenizer (src/index.ts:174-230),
    each a loop that advances `pos` one character at a time. Each method is
    proved against a recursive function that the rest of the model uses. */
module Scanners {
  import opened JsString

  /** First position at or after `pos` that holds a character other than a
      space, or -1. */
  function NextNonSpace(str: string, pos: nat): (r: int)
    ensures r == -1 || (pos <= r < |str| && str[r] != ' ')
    decreases |str| - pos
  {
    if pos >= |str| then -1
    else if str[pos] != ' ' then pos
    else NextNonSpace(str, pos + 1)
  }

  /** Only spaces stand between `pos` and the position found, and -1 means
      only spaces follow `pos`. */
  lemma {:induction false} NextNonSpaceFirst(str: string, pos: nat)
    ensures NextNonSpace(str, pos) == -1 <==> forall k :: pos <= k < |str| ==> str[k] == ' '
    ensures NextNonSpace(str, pos) != -1 ==> forall k :: pos <= k < NextNonSpace(str, pos) ==> str[k] == ' '
    decreases |str| - pos
  {
    if pos < |str| && str[pos] == ' ' {
      NextNonSpaceFirst(str, pos + 1);
    }
  }

  /** Past a run of spaces, the first other character is what the scan
      finds. */
  lemma {:induction false} NextNonSpaceAt(str: string, pos: nat, k: nat)
    requires pos <= k < |str| && str[k] != ' ' && forall j :: pos <= j < k ==> str[j] == ' '
    ensures NextNonSpace(str, pos) == k
    decreases k - pos
  {
    if pos < k {
      NextNonSpaceAt(str, pos + 1, k);
    }
  }

  method FindPosOfNextNonSpaceChar(str: string, fromIndex: nat) returns (pos: int)
    ensures pos == NextNonSpace(str, fromIndex)
    ensures pos == -1 <==> forall k :: fromIndex <= k < |str| ==> str[k] == ' '
  {
    NextNonSpaceFirst(str, fromIndex);
    var p := fromIndex;
    var end := |str|;
    while p < end
      invariant fromIndex <= p
      invariant NextNonSpace(str, p) == NextNonSpace(str, fromIndex)
      decreases end - p
    {
      if str[p] != ' ' {
        return p;
      }
      p := p + 1;
    }
    return -1;
  }

  /** The text from `pos` up to the first `terminator` at or after it, or None
      when the terminator does not occur there. */
  function ReadUpTo(str: string, pos: nat, terminator: char): (r: Option<string>)
    ensures r.Some? ==>
      && pos + |r.value| < |str|
      && str[pos..pos + |r.value|] == r.value
      && str[pos + |r.value|] == terminator
  {
    var end := IndexOfChar(str, terminator, pos);
    if end == -1 then None else Some(str[pos..end])
  }

  /** The text read stops at the first terminator, and nothing is read
      exactly when no terminator follows `pos`. */
  lemma ReadUpToFirst(str: string, pos: nat, terminator: char)
    ensures ReadUpTo(str, pos, terminator).None? <==> forall k :: pos <= k < |str| ==> str[k] != terminator
    ensures ReadUpTo(str, pos, terminator).Some? ==> terminator !in ReadUpTo(str, pos, terminator).value
  {
    IndexOfCharFirst(str, terminator, pos);
    var end := IndexOfChar(str, terminator, pos);
    if end != -1 {
      assert forall k :: 0 <= k < end - pos ==> str[pos..end][k] == str[pos + k];
    }
  }

  method ReadUpToChar(str: string, fromIndex: nat, terminatorChar: char) returns (r: Option<string>)
    ensures r == ReadUpTo(str, fromIndex, terminatorChar)
  {
    IndexOfCharFirst(str, terminatorChar, fromIndex);
    var pos := fromIndex;
    var end := |str|;
    while pos < end
      invariant fromIndex <= pos
      invariant forall k :: fromIndex <= k < pos && k < |str| ==> str[k] != terminatorChar
      decreases end - pos
    {
      if str[pos] == terminatorChar {
        return Some(str[fromIndex..pos]);
      }
      pos := pos + 1;
    }
    return None;
  }

  /** The closing-quote search with its `escaped` flag: a backslash escapes the
      next character, whatever it is. Returns the position of the first quote
      that is not escaped, or -1. */
  function QuoteEnd(str: string, pos: nat, escaped: bool): (r: int)
    ensures r == -1 || (pos <= r < |str| && str[r] == '"')
    decreases |str| - pos
  {
    if pos >= |str| then -1
    else if escaped then QuoteEnd(str, pos + 1, false)
    else if str[pos] == '"' then pos
    else QuoteEnd(str, pos + 1, str[pos] == '\\')
  }

  /** Number of backslashes that stand right before `p`, counted back no
      further than `from`. */
  function BackslashRun(str: string, from: nat, p: nat): nat
    requires p <= |str|
    decreases p
  {
    if p <= from then 0
    else if str[p - 1] == '\\' then BackslashRun(str, from, p - 1) + 1
    else 0
  }

  /** A quote at `p` that an even number of backslashes (counted from `from`)
      precede: one that is not escaped. */
  predicate UnescapedQuoteAt(str: string, from: nat, p: nat)
  {
    from <= p < |str| && str[p] == '"' && BackslashRun(str, from, p) % 2 == 0
  }

  lemma {:induction false} QuoteEndFrom(str: string, from: nat, pos: nat, escaped: bool)
    requires from <= pos
    requires pos <= |str|
    requires escaped <==> BackslashRun(str, from, pos) % 2 == 1
    requires forall q :: from <= q < pos ==> !UnescapedQuoteAt(str, from, q)
    ensures var r := QuoteEnd(str, pos, escaped);
      && (r == -1 <==> forall q :: from <= q < |str| ==> !UnescapedQuoteAt(str, from, q))
      && (r != -1 ==> UnescapedQuoteAt(str, from, r) && forall q :: from <= q < r ==> !UnescapedQuoteAt(str, from, q))
    decreases |str| - pos
  {
    if pos < |str| {
      assert BackslashRun(str, from, pos + 1) == if str[pos] == '\\' then BackslashRun(str, from, pos) + 1 else 0;
      if escaped {
        QuoteEndFrom(str, from, pos + 1, false);
      } else if str[pos] != '"' {
        QuoteEndFrom(str, from, pos + 1, str[pos] == '\\');
      } else {
        assert UnescapedQuoteAt(str, from, pos);
      }
    }
  }

  /** The search finds the first quote that is not escaped, and answers -1
      exactly when every quote after `from` is escaped. */
  lemma QuoteEndFindsFirstUnescaped(str: string, from: nat)
    ensures var r := QuoteEnd(str, from, false);
      && (r == -1 <==> forall q :: from <= q < |str| ==> !UnescapedQuoteAt(str, from, q))
      && (r != -1 ==> UnescapedQuoteAt(str, from, r) && forall q :: from <= q < r ==> !UnescapedQuoteAt(str, from, q))
  {
    if from <= |str| {
      QuoteEndFrom(str, from, from, false);
    }
  }

  method FindStringEndDelimiterPos(str: string, fromIndex: nat) returns (pos: int)
    ensures pos == QuoteEnd(str, fromIndex, false)
    ensures pos == -1 <==> forall q :: fromIndex <= q < |str| ==> !UnescapedQuoteAt(str, fromIndex, q)
    ensures pos != -1 ==>
      && UnescapedQuoteAt(str, fromIndex, pos)
      && forall q :: fromIndex <= q < pos ==> !UnescapedQuoteAt(str, fromIndex, q)
  {
    var p := fromIndex;
    var escaped := false;
    var end := |str|;
    while p < end
      invariant fromIndex <= p
      invariant QuoteEnd(str, p, escaped) == QuoteEnd(str, fromIndex, false)
      decreases end - p
    {
      if escaped {
        escaped := false;
      } else {
        if str[p] == '"' {
          QuoteEndFindsFirstUnescaped(str, fromIndex);
          return p;
        } else if str[p] == '\\' {
          escaped := true;
        }
      }
      p := p + 1;
    }
    QuoteEndFindsFirstUnescaped(str, fromIndex);
    return -1;
  }
}
