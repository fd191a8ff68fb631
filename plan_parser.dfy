/** parseStdout (src/index.ts:350-436): finds the part of the plan text
    between the start and end markers (src/index.ts:55-82) and reads it line
    by line. The only state carried from one line to the next is
    `lastChange`, the change that attribute lines are added to. */
module PlanParser {
  import opened JsString
  import opened PlanTypes
  import opened AttributeLine
  import opened ActionLine

  // ---------------------------------------------------------------------------
  // Markers

  /** findParseableContentStartPos: the index just past the first start
      marker, or -1 when there is none. */
  function ContentStartPos(logOutput: string): (r: int)
    ensures r == -1 <==> !Contains(logOutput, CONTENT_START_STRING)
    ensures r != -1 ==>
      && |CONTENT_START_STRING| <= r <= |logOutput|
      && OccursAt(logOutput, CONTENT_START_STRING, r - |CONTENT_START_STRING|)
      && forall k :: 0 <= k < r - |CONTENT_START_STRING| ==> !OccursAt(logOutput, CONTENT_START_STRING, k)
  {
    var pos := IndexOf(logOutput, CONTENT_START_STRING, 0);
    if pos == -1 then pos else pos + |CONTENT_START_STRING|
  }

  /** findParseableContentEndPos: the first end marker at or after `startPos`. */
  function ContentEndPos(logOutput: string, startPos: nat): (r: int)
    ensures r != -1 ==> startPos <= r && OccursAt(logOutput, CONTENT_END_STRING, r)
    ensures r != -1 ==> forall k :: startPos <= k < r ==> !OccursAt(logOutput, CONTENT_END_STRING, k)
    ensures r == -1 <==> forall k :: startPos <= k ==> !OccursAt(logOutput, CONTENT_END_STRING, k)
  {
    IndexOf(logOutput, CONTENT_END_STRING, startPos)
  }

  // ---------------------------------------------------------------------------
  // Classifying a line

  /** ATTRIBUTE_LINE_REGEX `^ {6}[^ ]`: six spaces and then a character that is
      not a space. */
  predicate AttributeShaped(line: string)
  {
    |line| >= 7 && (forall k :: 0 <= k < 6 ==> line[k] == ' ') && line[6] != ' '
  }

  /** The possible action symbol and the index where the text after it starts. */
  datatype ActionSymbol = ActionSymbol(symbol: string, offset: nat)

  /** The first three characters, trimmed. With no space left in them the
      offset is 4; otherwise the symbol ends at the last space, and the offset
      one past that space is applied to the line itself. */
  function ActionSymbolOf(line: string): ActionSymbol
  {
    var possible := Trim(Substring(line, 0, 3));
    var spacePos := LastIndexOfChar(possible, ' ');
    if spacePos == -1 then ActionSymbol(possible, 4) else ActionSymbol(possible[..spacePos], spacePos + 1)
  }

  /** A symbol right-aligned in three columns, as in `  + type.name` or
      `-/+ type.name`: the symbol is read whole and the text starts at 4. */
  lemma PaddedSymbol(line: string, symbol: string)
    requires 1 <= |symbol| <= 3 && |line| >= 3
    requires forall k :: 0 <= k < |symbol| ==> !IsJsWhitespace(symbol[k])
    requires forall k :: 0 <= k < 3 - |symbol| ==> line[k] == ' '
    requires line[3 - |symbol|..3] == symbol
    ensures ActionSymbolOf(line) == ActionSymbol(symbol, 4)
  {
    var s := Substring(line, 0, 3);
    var pad := 3 - |symbol|;
    assert s[pad..] == symbol;
    TrimStartSkips(s, pad);
    TrimEndKeeps(symbol);
    var sp := LastIndexOfChar(symbol, ' ');
    if sp != -1 {
      assert IsJsWhitespace(symbol[sp]);
    }
  }

  /** Trimming the start drops exactly the leading whitespace. */
  lemma {:induction false} TrimStartSkips(s: string, k: nat)
    requires k < |s| && !IsJsWhitespace(s[k])
    requires forall j :: 0 <= j < k ==> IsJsWhitespace(s[j])
    ensures TrimStart(s) == s[k..]
    decreases k
  {
    if k > 0 {
      TrimStartSkips(s[1..], k - 1);
      assert s[1..][k - 1..] == s[k..];
    }
  }

  lemma TrimEndKeeps(s: string)
    requires s != [] && !IsJsWhitespace(s[|s| - 1])
    ensures TrimEnd(s) == s
  {
  }

  /** A one-character symbol at the very start followed by a space, as in
      `+ type.name`: the text starts at 2. */
  lemma LeadingSymbol(line: string, c: char)
    requires |line| >= 3 && line[0] == c && line[1] == ' ' && c != ' ' && !IsJsWhitespace(c)
    requires !IsJsWhitespace(line[2])
    ensures ActionSymbolOf(line) == ActionSymbol([c], 2)
  {
    var s := Substring(line, 0, 3);
    assert s == [c, ' ', line[2]];
    assert TrimStart(s) == s;
    assert TrimEnd(s) == s;
    assert line[2] != ' ';
    assert LastIndexOfChar(s, ' ') == 1 by {
      assert LastIndexOfChar(s[..2], ' ') == 1;
    }
    assert s[..1] == [c];
  }

  // ---------------------------------------------------------------------------
  // The line loop as a function

  /** The parser between two lines: the result so far and `lastChange`. */
  datatype ParserState = ParserState(result: PlanResult, lastChange: Option<ChangeRef>)

  /** `lastChange`, when set, refers to a record of the result. */
  predicate Consistent(st: ParserState)
  {
    st.lastChange.Some? ==> ValidRef(st.result, st.lastChange.value)
  }

  /** One iteration of the loop: a blank line closes the open change; an
      action line opens a new one; an attribute-shaped line is added to the
      open change, or is an orphan; any other line is an error. */
  function Step(st: ParserState, line: string): (r: Completion<ParserState>)
    requires Consistent(st)
    ensures r.Normal? ==> Consistent(r.value)
  {
    if line == [] then Normal(st.(lastChange := None))
    else
      var sym := ActionSymbolOf(line);
      match ActionFor(sym.symbol)
      case Some(action) => Normal(ActionStep(st, sym.offset, line, action))
      case None => OtherStep(st, line)
  }

  /** An action line: a new record or an error, and the new `lastChange`. */
  function ActionStep(st: ParserState, offset: nat, line: string, action: Action): (r: ParserState)
    requires Consistent(st)
    ensures Consistent(r)
  {
    ActionLineAppendsOne(st.result, offset, line, action);
    var (r', ref) := ActionLineStep(st.result, offset, line, action);
    ParserState(r', ref)
  }

  /** A line that is neither blank nor an action line. */
  function OtherStep(st: ParserState, line: string): (r: Completion<ParserState>)
    requires Consistent(st)
    ensures r.Normal? ==> Consistent(r.value)
  {
    if AttributeShaped(line) then
      if st.lastChange.Some? then AttributeStep(st, ParseAttribute(line))
      else Normal(st.(result := st.result.(errors := st.result.errors + [OrphanAttributeLine])))
    else Normal(st.(result := st.result.(errors := st.result.errors + [UnableToParseLine])))
  }

  /** An attribute line read as `p`, added to the open change. */
  function AttributeStep(st: ParserState, p: Completion<AttributeParse>): (r: Completion<ParserState>)
    requires Consistent(st) && st.lastChange.Some?
    ensures r.Normal? ==> Consistent(r.value)
  {
    match p
    case Thrown => Thrown
    case Normal(a) => Normal(st.(result := ApplyAttribute(st.result, st.lastChange.value, a)))
  }

  /** The loop over `lines` from state `st`; a throw ends it. */
  function Run(st: ParserState, lines: seq<string>): Completion<ParserState>
    requires Consistent(st)
    decreases |lines|
  {
    if lines == [] then Normal(st)
    else match Step(st, lines[0])
      case Thrown => Thrown
      case Normal(next) => Run(next, lines[1..])
  }

  const EmptyResult: PlanResult := PlanResult([], [], [])

  /** The lines between the markers of a text whose CR LF pairs are already
      replaced. */
  function ChangeLines(text: string, startPos: nat, endPos: nat): seq<string>
  {
    Split(Substring(text, startPos, endPos), '\n')
  }

  /** parseStdout on text that holds no ANSI escapes. */
  function Plan(logOutput: string): Completion<PlanResult>
  {
    var text := ReplaceCrlf(logOutput);
    if Contains(text, NO_CHANGES_STRING) then Normal(EmptyResult)
    else
      var startPos := ContentStartPos(text);
      if startPos == -1 then Normal(PlanResult([UnableToFindStartingPosition], [], []))
      else
        var endPos := ContentEndPos(text, startPos);
        if endPos == -1 then Normal(PlanResult([UnableToFindEndingPosition], [], []))
        else
          match Run(ParserState(EmptyResult, None), ChangeLines(text, startPos, endPos))
          case Thrown => Thrown
          case Normal(st) => Normal(st.result)
  }

  // ---------------------------------------------------------------------------
  // The methods

  /** The body of the loop for one line. */
  method ParseLine(line: string, lastChange: Option<ChangeRef>, result: ParseResult) returns (threw: bool, next: Option<ChangeRef>)
    requires Consistent(ParserState(result.Snapshot(), lastChange))
    modifies result
    ensures threw <==> Step(ParserState(old(result.Snapshot()), lastChange), line).Thrown?
    ensures !threw ==> ParserState(result.Snapshot(), next) == Step(ParserState(old(result.Snapshot()), lastChange), line).value
  {
    threw := false;
    if |line| == 0 {
      return false, None;
    }
    var sym := ActionSymbolOf(line);
    var action := ActionFor(sym.symbol);
    if action.Some? {
      next := ParseActionLine(sym.offset, line, action.value, result);
    } else {
      threw, next := ParseOtherLine(line, lastChange, result);
    }
  }

  /** A line that is neither blank nor an action line: an attribute of the
      open change, an orphan attribute, or an unparseable line. */
  method ParseOtherLine(line: string, lastChange: Option<ChangeRef>, result: ParseResult) returns (threw: bool, next: Option<ChangeRef>)
    requires Consistent(ParserState(result.Snapshot(), lastChange))
    modifies result
    ensures threw <==> OtherStep(ParserState(old(result.Snapshot()), lastChange), line).Thrown?
    ensures !threw ==> ParserState(result.Snapshot(), next) == OtherStep(ParserState(old(result.Snapshot()), lastChange), line).value
  {
    threw := false;
    next := lastChange;
    if AttributeShaped(line) {
      if lastChange.Some? {
        threw := ParseAttributeLine(line, lastChange.value, result);
      } else {
        result.errors := result.errors + [OrphanAttributeLine];
      }
    } else {
      result.errors := result.errors + [UnableToParseLine];
    }
  }

  /** parseStdout: `threw` stands for the SyntaxError that escapes when a
      quoted value is not valid JSON. */
  method ParseStdout(logOutput: string) returns (threw: bool, result: ParseResult)
    ensures threw <==> Plan(logOutput).Thrown?
    ensures !threw ==> result.Snapshot() == Plan(logOutput).value
  {
    var text := ReplaceCrlf(logOutput);
    threw := false;
    result := new ParseResult();
    var lastChange: Option<ChangeRef> := None;
    if Contains(text, NO_CHANGES_STRING) {
      return;
    }
    var startPos := ContentStartPos(text);
    if startPos == -1 {
      result.errors := result.errors + [UnableToFindStartingPosition];
      return;
    }
    var endPos := ContentEndPos(text, startPos);
    if endPos == -1 {
      result.errors := result.errors + [UnableToFindEndingPosition];
      return;
    }
    var lines := ChangeLines(text, startPos, endPos);
    ghost var init := ParserState(EmptyResult, None);
    for i := 0 to |lines|
      invariant Consistent(ParserState(result.Snapshot(), lastChange))
      invariant Run(ParserState(result.Snapshot(), lastChange), lines[i..]) == Run(init, lines)
    {
      assert lines[i..][1..] == lines[i + 1..];
      threw, lastChange := ParseLine(lines[i], lastChange, result);
      if threw {
        return;
      }
    }
    assert lines[|lines|..] == [];
  }

  // ---------------------------------------------------------------------------
  // Early exits

  /** A text that reports no changes gives an empty result. */
  lemma NoChangesGivesEmpty(logOutput: string)
    requires Contains(ReplaceCrlf(logOutput), NO_CHANGES_STRING)
    ensures Plan(logOutput) == Normal(PlanResult([], [], []))
  {
  }

  /** Without the start marker the result is the one error that says so. */
  lemma MissingStartMarker(logOutput: string)
    requires !Contains(ReplaceCrlf(logOutput), NO_CHANGES_STRING)
    requires !Contains(ReplaceCrlf(logOutput), CONTENT_START_STRING)
    ensures Plan(logOutput) == Normal(PlanResult([UnableToFindStartingPosition], [], []))
  {
  }

  /** Without an end marker after the start marker the result is the one
      error that says so. */
  lemma MissingEndMarker(logOutput: string)
    requires !Contains(ReplaceCrlf(logOutput), NO_CHANGES_STRING)
    requires Contains(ReplaceCrlf(logOutput), CONTENT_START_STRING)
    requires forall k :: ContentStartPos(ReplaceCrlf(logOutput)) <= k ==> !OccursAt(ReplaceCrlf(logOutput), CONTENT_END_STRING, k)
    ensures Plan(logOutput) == Normal(PlanResult([UnableToFindEndingPosition], [], []))
  {
  }

  // ---------------------------------------------------------------------------
  // One line

  /** A blank line closes the open change and adds nothing. */
  lemma BlankLineCloses(st: ParserState)
    requires Consistent(st)
    ensures Step(st, []) == Normal(ParserState(st.result, None))
  {
  }

  /** An attribute-shaped line with no open change adds one
      ORPHAN_ATTRIBUTE_LINE error and touches no record. */
  lemma OrphanAttribute(st: ParserState, line: string)
    requires Consistent(st) && st.lastChange.None? && AttributeShaped(line)
    ensures Step(st, line) == Normal(ParserState(PlanResult(st.result.errors + [OrphanAttributeLine], st.result.changedResources, st.result.changedDataSources), None))
  {
    var sym := ActionSymbolOf(line);
    AttributeShapedHasNoSymbol(line);
  }

  /** Six spaces leave nothing after trimming, so an attribute-shaped line
      never reads as an action line. */
  lemma AttributeShapedHasNoSymbol(line: string)
    requires AttributeShaped(line)
    ensures ActionFor(ActionSymbolOf(line).symbol).None?
  {
    var s := Substring(line, 0, 3);
    assert s == [' ', ' ', ' '];
    assert TrimStart(s) == [] by {
      assert IsJsWhitespace(s[0]) && s[1..] == [' ', ' '];
      assert [' ', ' '][1..] == [' '] && [' '][1..] == [];
    }
  }

  /** A line that is neither blank, nor an action line, nor attribute-shaped
      adds one UNABLE_TO_PARSE_LINE error and keeps the open change. */
  lemma UnrecognisedLine(st: ParserState, line: string)
    requires Consistent(st) && line != [] && !AttributeShaped(line)
    requires ActionFor(ActionSymbolOf(line).symbol).None?
    ensures Step(st, line) == Normal(ParserState(PlanResult(st.result.errors + [UnableToParseLine], st.result.changedResources, st.result.changedDataSources), st.lastChange))
  {
  }

  // ---------------------------------------------------------------------------
  // Records are kept

  /** Two records that differ at most in their attributes. */
  predicate SameChange(c: Changed, d: Changed)
  {
    c.(changedAttributes := map[]) == d.(changedAttributes := map[])
  }

  /** `after` keeps every record of `before`, in place, attributes aside. */
  predicate KeepsRecords(before: seq<Changed>, after: seq<Changed>)
  {
    |before| <= |after| && forall i :: 0 <= i < |before| ==> SameChange(before[i], after[i])
  }

  /** `after` extends `before`: errors are only appended, records only
      appended or given attributes. */
  predicate Extends(before: PlanResult, after: PlanResult)
  {
    && before.errors <= after.errors
    && KeepsRecords(before.changedResources, after.changedResources)
    && KeepsRecords(before.changedDataSources, after.changedDataSources)
  }

  lemma ExtendsTransitive(a: PlanResult, b: PlanResult, c: PlanResult)
    requires Extends(a, b) && Extends(b, c)
    ensures Extends(a, c)
  {
    forall i | 0 <= i < |a.changedResources| ensures SameChange(a.changedResources[i], c.changedResources[i]) {
      assert SameChange(b.changedResources[i], c.changedResources[i]);
    }
    forall i | 0 <= i < |a.changedDataSources| ensures SameChange(a.changedDataSources[i], c.changedDataSources[i]) {
      assert SameChange(b.changedDataSources[i], c.changedDataSources[i]);
    }
  }

  /** An attribute changes only the attribute map of the open record. */
  lemma ApplyAttributeExtends(r: PlanResult, ref: ChangeRef, p: AttributeParse)
    requires ValidRef(r, ref)
    ensures Extends(r, ApplyAttribute(r, ref, p))
  {
    var r' := ApplyAttribute(r, ref, p);
    if p.Attribute? {
      assert r.errors <= r'.errors;
      forall i | 0 <= i < |r.changedResources| ensures SameChange(r.changedResources[i], r'.changedResources[i]) {
        if !ref.dataSource && i == ref.index {
          var c := r.changedResources[i];
          assert r'.changedResources[i] == c.(changedAttributes := c.changedAttributes[p.name := p.attr]);
        }
      }
      forall i | 0 <= i < |r.changedDataSources| ensures SameChange(r.changedDataSources[i], r'.changedDataSources[i]) {
        if ref.dataSource && i == ref.index {
          var c := r.changedDataSources[i];
          assert r'.changedDataSources[i] == c.(changedAttributes := c.changedAttributes[p.name := p.attr]);
        }
      }
    }
  }

  /** No line removes, reorders or rewrites a record, or removes an error. */
  lemma StepExtends(st: ParserState, line: string)
    requires Consistent(st) && Step(st, line).Normal?
    ensures Extends(st.result, Step(st, line).value.result)
  {
    if line != [] {
      var sym := ActionSymbolOf(line);
      match ActionFor(sym.symbol)
      case Some(action) =>
        ActionLineAppendsOne(st.result, sym.offset, line, action);
      case None =>
        if AttributeShaped(line) && st.lastChange.Some? {
          ApplyAttributeExtends(st.result, st.lastChange.value, ParseAttribute(line).value);
        }
    }
  }

  /** Over any number of lines, records already in the result stay where
      they are and errors already reported stay reported. */
  lemma {:induction false} RunExtends(st: ParserState, lines: seq<string>)
    requires Consistent(st) && Run(st, lines).Normal?
    ensures Extends(st.result, Run(st, lines).value.result)
    decreases |lines|
  {
    if lines != [] {
      StepExtends(st, lines[0]);
      var next := Step(st, lines[0]).value;
      RunExtends(next, lines[1..]);
      ExtendsTransitive(st.result, next.result, Run(st, lines).value.result);
    }
  }
}
