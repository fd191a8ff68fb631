/** parseAttributeLine (src/index.ts:298-348): a line of six spaces, a name up
    to the first `:` at index 7 or later, then an optional value, an optional
    ` => ` and second value, and the ` (forces new resource)` suffix. */
module AttributeLine {
  import opened JsString
  import opened PlanTypes
  import opened Scanners
  import opened ValueTokenizer
  import opened StringUtil
  import opened JsonString

  /** What one attribute line contributes: no name found, or the attribute
      under its name together with the tokenizer's errors. */
  datatype AttributeParse =
    | NameNotFound
    | Attribute(name: string, attr: ChangedAttribute, errors: seq<ParseError>)

  function ParseAttribute(line: string): Completion<AttributeParse>
  {
    var nameEndPos := IndexOfChar(line, ':', 7);
    if nameEndPos == -1 then Normal(NameNotFound) else NamedAttribute(line, nameEndPos)
  }

  /** An attribute line whose name ends at the colon `nameEndPos`. */
  function NamedAttribute(line: string, nameEndPos: nat): (r: Completion<AttributeParse>)
    requires 6 <= nameEndPos <= |line|
    ensures r.Normal? ==> r.value.Attribute? && r.value.name == line[6..nameEndPos]
  {
    var name := line[6..nameEndPos];
    var startPos := NextNonSpace(line, nameEndPos + 1);
    if startPos == -1 then Normal(Attribute(name, ChangedAttribute(None, None, false), []))
    else Named(name, AttributeValues(line, startPos))
  }

  /** The values read, or the exception, under the attribute's name. */
  function Named(name: string, values: Completion<(ChangedAttribute, seq<ParseError>)>): Completion<AttributeParse>
  {
    match values
    case Thrown => Thrown
    case Normal((attr, errs)) => Normal(Attribute(name, attr, errs))
  }

  /** `line.substring(p, p + 4) === OLD_NEW_SEPARATOR`, spelled out
      character by character (see SeparatorAtIsSubstringTest). */
  predicate SeparatorAt(line: string, p: nat)
  {
    p + 4 <= |line| && line[p] == ' ' && line[p + 1] == '=' && line[p + 2] == '>' && line[p + 3] == ' '
  }

  lemma SeparatorAtIsSubstringTest(line: string, p: nat)
    ensures SeparatorAt(line, p) <==> Substring(line, p, p + |OLD_NEW_SEPARATOR|) == OLD_NEW_SEPARATOR
  {
    if p + 4 > |line| {
      assert |Substring(line, p, p + 4)| < 4;
    }
  }

  /** `endsWith(line, ATTRIBUTE_FORCES_NEW_RESOURCE_SUFFIX)`, spelled out
      character by character (see ForcesSuffixIsEndsWith). */
  predicate ForcesSuffix(line: string)
  {
    var n := |line|;
    && n >= 22
    && line[n - 22] == ' ' && line[n - 21] == '(' && line[n - 20] == 'f' && line[n - 19] == 'o'
    && line[n - 18] == 'r' && line[n - 17] == 'c' && line[n - 16] == 'e' && line[n - 15] == 's'
    && line[n - 14] == ' ' && line[n - 13] == 'n' && line[n - 12] == 'e' && line[n - 11] == 'w'
    && line[n - 10] == ' ' && line[n - 9] == 'r' && line[n - 8] == 'e' && line[n - 7] == 's'
    && line[n - 6] == 'o' && line[n - 5] == 'u' && line[n - 4] == 'r' && line[n - 3] == 'c'
    && line[n - 2] == 'e' && line[n - 1] == ')'
  }

  /** `pat` spells ` (forces new resource)`, character by character. */
  predicate SpellsForcesSuffix(pat: string)
  {
    |pat| == 22 && pat[0] == ' ' && pat[1] == '(' && pat[2] == 'f' && pat[3] == 'o' && pat[4] == 'r' && pat[5] == 'c' && pat[6] == 'e' && pat[7] == 's' && pat[8] == ' ' && pat[9] == 'n' && pat[10] == 'e' && pat[11] == 'w' && pat[12] == ' ' && pat[13] == 'r' && pat[14] == 'e' && pat[15] == 's' && pat[16] == 'o' && pat[17] == 'u' && pat[18] == 'r' && pat[19] == 'c' && pat[20] == 'e' && pat[21] == ')'
  }

  /** The constant spells the suffix (checked in four stretches, which keeps
      each proof small). */
  lemma SuffixConstantSpelling()
    ensures SpellsForcesSuffix(ATTRIBUTE_FORCES_NEW_RESOURCE_SUFFIX)
  {
    SuffixLetters0();
    SuffixLetters4();
    SuffixLetters8();
    SuffixLetters14();
  }

  lemma SuffixLetters0()
    ensures |ATTRIBUTE_FORCES_NEW_RESOURCE_SUFFIX| == 22
    ensures ATTRIBUTE_FORCES_NEW_RESOURCE_SUFFIX[0] == ' ' && ATTRIBUTE_FORCES_NEW_RESOURCE_SUFFIX[1] == '(' && ATTRIBUTE_FORCES_NEW_RESOURCE_SUFFIX[2] == 'f' && ATTRIBUTE_FORCES_NEW_RESOURCE_SUFFIX[3] == 'o'
  {
  }

  lemma SuffixLetters4()
    ensures |ATTRIBUTE_FORCES_NEW_RESOURCE_SUFFIX| == 22
    ensures ATTRIBUTE_FORCES_NEW_RESOURCE_SUFFIX[4] == 'r' && ATTRIBUTE_FORCES_NEW_RESOURCE_SUFFIX[5] == 'c' && ATTRIBUTE_FORCES_NEW_RESOURCE_SUFFIX[6] == 'e' && ATTRIBUTE_FORCES_NEW_RESOURCE_SUFFIX[7] == 's'
  {
  }

  lemma SuffixLetters8()
    ensures |ATTRIBUTE_FORCES_NEW_RESOURCE_SUFFIX| == 22
    ensures ATTRIBUTE_FORCES_NEW_RESOURCE_SUFFIX[8] == ' ' && ATTRIBUTE_FORCES_NEW_RESOURCE_SUFFIX[9] == 'n' && ATTRIBUTE_FORCES_NEW_RESOURCE_SUFFIX[10] == 'e' && ATTRIBUTE_FORCES_NEW_RESOURCE_SUFFIX[11] == 'w' && ATTRIBUTE_FORCES_NEW_RESOURCE_SUFFIX[12] == ' ' && ATTRIBUTE_FORCES_NEW_RESOURCE_SUFFIX[13] == 'r'
  {
  }

  lemma SuffixLetters14()
    ensures |ATTRIBUTE_FORCES_NEW_RESOURCE_SUFFIX| == 22
    ensures ATTRIBUTE_FORCES_NEW_RESOURCE_SUFFIX[14] == 'e' && ATTRIBUTE_FORCES_NEW_RESOURCE_SUFFIX[15] == 's' && ATTRIBUTE_FORCES_NEW_RESOURCE_SUFFIX[16] == 'o' && ATTRIBUTE_FORCES_NEW_RESOURCE_SUFFIX[17] == 'u' && ATTRIBUTE_FORCES_NEW_RESOURCE_SUFFIX[18] == 'r' && ATTRIBUTE_FORCES_NEW_RESOURCE_SUFFIX[19] == 'c' && ATTRIBUTE_FORCES_NEW_RESOURCE_SUFFIX[20] == 'e' && ATTRIBUTE_FORCES_NEW_RESOURCE_SUFFIX[21] == ')'
  {
  }

  lemma SpelledSuffixAt(line: string, pat: string)
    requires SpellsForcesSuffix(pat) && ForcesSuffix(line)
    ensures forall i :: 0 <= i < 22 ==> line[|line| - 22 + i] == pat[i]
  {
    var n := |line|;
    forall i | 0 <= i < 22 ensures line[n - 22 + i] == pat[i] {
      if i == 0 { } else if i == 1 { } else if i == 2 { } else if i == 3 { } else if i == 4 { } else if i == 5 { } else if i == 6 { } else if i == 7 { } else if i == 8 { } else if i == 9 { } else if i == 10 { } else if i == 11 { } else if i == 12 { } else if i == 13 { } else if i == 14 { } else if i == 15 { } else if i == 16 { } else if i == 17 { } else if i == 18 { } else if i == 19 { } else if i == 20 { } else { }
    }
  }

  lemma SuffixSpelledAt(line: string, pat: string)
    requires SpellsForcesSuffix(pat)
    requires |line| >= 22 && forall i :: 0 <= i < 22 ==> line[|line| - 22 + i] == pat[i]
    ensures ForcesSuffix(line)
  {
  }

  /** Any string spelled like the suffix is found at the end of `line`
      exactly when ForcesSuffix holds. */
  lemma ForcesSuffixIsEndsWithSpelled(line: string, pat: string)
    requires SpellsForcesSuffix(pat)
    ensures ForcesSuffix(line) <==> EndsWith(line, pat)
  {
    var n := |line|;
    if n >= 22 {
      MatchesAtEach(line, n - 22, pat);
      if ForcesSuffix(line) { SpelledSuffixAt(line, pat); }
      if EndsWith(line, pat) { SuffixSpelledAt(line, pat); }
    }
  }

  lemma ForcesSuffixIsEndsWith(line: string)
    ensures ForcesSuffix(line) <==> EndsWith(line, ATTRIBUTE_FORCES_NEW_RESOURCE_SUFFIX)
  {
    SuffixConstantSpelling();
    ForcesSuffixIsEndsWithSpelled(line, ATTRIBUTE_FORCES_NEW_RESOURCE_SUFFIX);
  }

  /** The value part of an attribute line whose first value starts at
      `startPos`: one value, or two around ` => `, and the suffix flag. */
  function AttributeValues(line: string, startPos: nat): Completion<(ChangedAttribute, seq<ParseError>)>
  {
    match TokenizeValue(line, startPos)
    case Thrown => Thrown
    case Normal(first) => ValuesAfter(line, first)
  }

  /** After the first value: a second one when ` => ` follows its closing
      position, otherwise the first is the new value. */
  function ValuesAfter(line: string, first: Token): Completion<(ChangedAttribute, seq<ParseError>)>
  {
    var after := first.endPos + 1;
    var forces := ForcesSuffix(line);
    if SeparatorAt(line, after) then Paired(first, TokenizeValue(line, after + |OLD_NEW_SEPARATOR|), forces)
    else Normal((ChangedAttribute(None, Some(first.val), forces), first.errors))
  }

  /** The old value `first` and the new value read after the separator. */
  function Paired(first: Token, second: Completion<Token>, forces: bool): Completion<(ChangedAttribute, seq<ParseError>)>
  {
    match second
    case Thrown => Thrown
    case Normal(t) => Normal((ChangedAttribute(Some(first.val), Some(t.val), forces), first.errors + t.errors))
  }

  /** The result after one attribute line is applied to the open change
      `ref`: its map gets the attribute under its name (overwriting an earlier
      one), and the errors are appended. */
  function ApplyAttribute(r: PlanResult, ref: ChangeRef, p: AttributeParse): (r': PlanResult)
    requires ValidRef(r, ref)
    ensures ValidRef(r', ref)
    ensures |r'.changedResources| == |r.changedResources| && |r'.changedDataSources| == |r.changedDataSources|
  {
    match p
    case NameNotFound => r.(errors := r.errors + [UnableToParseAttributeName])
    case Attribute(name, attr, errs) =>
      var c := Record(r, ref);
      var c' := c.(changedAttributes := c.changedAttributes[name := attr]);
      if ref.dataSource then
        r.(errors := r.errors + errs, changedDataSources := r.changedDataSources[ref.index := c'])
      else
        r.(errors := r.errors + errs, changedResources := r.changedResources[ref.index := c'])
  }

  method ParseAttributeLine(line: string, lastChange: ChangeRef, res: ParseResult) returns (threw: bool)
    requires ValidRef(res.Snapshot(), lastChange)
    modifies res
    ensures threw <==> ParseAttribute(line).Thrown?
    ensures !threw ==> res.Snapshot() == ApplyAttribute(old(res.Snapshot()), lastChange, ParseAttribute(line).value)
  {
    var nameEndPos := IndexOfChar(line, ':', 7);
    if nameEndPos == -1 {
      res.errors := res.errors + [UnableToParseAttributeName];
      return false;
    }
    ghost var r0 := res.Snapshot();
    var attr;
    threw, attr := ReadNamedAttribute(line, nameEndPos, res);
    if threw {
      return;
    }
    var name := line[6..nameEndPos];
    ghost var errs := NamedAttribute(line, nameEndPos).value.errors;
    StoreAttribute(lastChange, name, attr, res);
    ApplyAttributeErrorsFirst(r0, lastChange, name, attr, errs);
  }

  /** Reads the values of an attribute line whose name ends at `nameEndPos`,
      reporting the tokenizer's errors on `res`. */
  method ReadNamedAttribute(line: string, nameEndPos: nat, res: ParseResult) returns (threw: bool, attr: ChangedAttribute)
    requires 6 <= nameEndPos <= |line|
    modifies res`errors
    ensures threw <==> NamedAttribute(line, nameEndPos).Thrown?
    ensures !threw ==>
      var p := NamedAttribute(line, nameEndPos).value;
      p.Attribute? && p.name == line[6..nameEndPos] && p.attr == attr && res.errors == old(res.errors) + p.errors
  {
    threw := false;
    attr := ChangedAttribute(None, None, false);
    var startPos := FindPosOfNextNonSpaceChar(line, nameEndPos + 1);
    if startPos != -1 {
      threw, attr := ParseAttributeValues(line, startPos, res);
    } else {
      assert res.errors == old(res.errors) + [];
    }
  }

  /** Reads the one or two values of an attribute line, reporting the
      tokenizer's errors on `res`. */
  method ParseAttributeValues(line: string, startPos: nat, res: ParseResult) returns (threw: bool, attr: ChangedAttribute)
    modifies res`errors
    ensures threw <==> AttributeValues(line, startPos).Thrown?
    ensures !threw ==>
      attr == AttributeValues(line, startPos).value.0
      && res.errors == old(res.errors) + AttributeValues(line, startPos).value.1
  {
    var oldObj: Option<AttributeValue> := None;
    var newObj: Option<AttributeValue>;
    var forcesNewResource := false;
    var firstObj, firstValueEndPos;
    threw, firstObj, firstValueEndPos := ParseValue(line, startPos, res);
    if threw {
      attr := ChangedAttribute(None, None, false);
      return;
    }
    var after := firstValueEndPos + 1;
    if SeparatorAt(line, after) {
      var second, secondEndPos;
      threw, second, secondEndPos := ParseValue(line, after + |OLD_NEW_SEPARATOR|, res);
      if threw {
        attr := ChangedAttribute(None, None, false);
        return;
      }
      newObj := Some(second);
      oldObj := Some(firstObj);
    } else {
      newObj := Some(firstObj);
    }
    if ForcesSuffix(line) {
      forcesNewResource := true;
    }
    attr := ChangedAttribute(oldObj, newObj, forcesNewResource);
  }

  /** `lastChange.changedAttributes[name] = attr`. */
  method StoreAttribute(lastChange: ChangeRef, name: string, attr: ChangedAttribute, res: ParseResult)
    requires ValidRef(res.Snapshot(), lastChange)
    modifies res`changedResources, res`changedDataSources
    ensures res.Snapshot() == ApplyAttribute(old(res.Snapshot()), lastChange, Attribute(name, attr, []))
  {
    if lastChange.dataSource {
      var c := res.changedDataSources[lastChange.index];
      res.changedDataSources := res.changedDataSources[lastChange.index := c.(changedAttributes := c.changedAttributes[name := attr])];
    } else {
      var c := res.changedResources[lastChange.index];
      res.changedResources := res.changedResources[lastChange.index := c.(changedAttributes := c.changedAttributes[name := attr])];
    }
  }

  lemma ApplyAttributeErrorsFirst(r: PlanResult, ref: ChangeRef, name: string, attr: ChangedAttribute, errs: seq<ParseError>)
    requires ValidRef(r, ref)
    ensures ApplyAttribute(r.(errors := r.errors + errs), ref, Attribute(name, attr, [])) == ApplyAttribute(r, ref, Attribute(name, attr, errs))
  {
    assert r.errors + errs + [] == r.errors + errs;
  }

  /** With no `:` at index 7 or later the line yields no name: applying it
      appends exactly one UNABLE_TO_PARSE_ATTRIBUTE_NAME error and leaves every
      record as it was. */
  lemma AttributeNameMissing(line: string, r: PlanResult, ref: ChangeRef)
    requires ValidRef(r, ref)
    ensures ParseAttribute(line) == Normal(NameNotFound) <==> forall k :: 7 <= k < |line| ==> line[k] != ':'
    ensures ParseAttribute(line) == Normal(NameNotFound) ==>
      ApplyAttribute(r, ref, NameNotFound) == PlanResult(r.errors + [UnableToParseAttributeName], r.changedResources, r.changedDataSources)
  {
    IndexOfCharFirst(line, ':', 7);
    var colon := IndexOfChar(line, ':', 7);
    if colon != -1 {
      assert ParseAttribute(line) == NamedAttribute(line, colon);
    }
  }

  /** The name is the text from index 6 up to the first `:` at index 7 or
      later, whatever it holds (spaces included). */
  lemma AttributeNameSpan(line: string, colon: nat)
    requires 7 <= colon < |line| && line[colon] == ':'
    requires forall k :: 7 <= k < colon ==> line[k] != ':'
    ensures ParseAttribute(line).Normal? ==>
      ParseAttribute(line).value.Attribute? && ParseAttribute(line).value.name == line[6..colon]
  {
    IndexOfCharFirst(line, ':', 7);
  }

  /** Applying a parsed attribute sets exactly the key `name` of the open
      record: every other key, every other field, every other record and
      the earlier errors stay as they were. */
  lemma ApplyAttributeSetsOneKey(r: PlanResult, ref: ChangeRef, name: string, attr: ChangedAttribute, errs: seq<ParseError>)
    requires ValidRef(r, ref)
    ensures var r' := ApplyAttribute(r, ref, Attribute(name, attr, errs));
      var before, after := Record(r, ref), Record(r', ref);
      && r'.errors == r.errors + errs
      && name in after.changedAttributes && after.changedAttributes[name] == attr
      && (forall k :: k != name ==> (k in after.changedAttributes <==> k in before.changedAttributes))
      && (forall k :: k != name && k in before.changedAttributes ==> after.changedAttributes[k] == before.changedAttributes[k])
      && after == before.(changedAttributes := after.changedAttributes)
      && (forall i :: 0 <= i < |r.changedResources| && (ref.dataSource || i != ref.index) ==> r'.changedResources[i] == r.changedResources[i])
      && (forall i :: 0 <= i < |r.changedDataSources| && (!ref.dataSource || i != ref.index) ==> r'.changedDataSources[i] == r.changedDataSources[i])
  {
  }

  /** When only spaces follow the colon, the attribute is stored with no old
      value, no new value and no forces-new-resource flag. */
  lemma AttributeWithoutValue(line: string, colon: nat)
    requires 7 <= colon < |line| && line[colon] == ':'
    requires forall k :: 7 <= k < colon ==> line[k] != ':'
    requires forall k :: colon < k < |line| ==> line[k] == ' '
    ensures ParseAttribute(line) == Normal(Attribute(line[6..colon], ChangedAttribute(None, None, false), []))
  {
    IndexOfCharFirst(line, ':', 7);
    NextNonSpaceFirst(line, colon + 1);
  }

  /** When a value follows the colon: the new value is always present; the
      old value is present exactly when ` => ` stands right after the first
      value's closing position, and then the old value is the first value and
      the new value the one read after ` => `; otherwise the new value is the
      first value. The forces-new-resource flag is set exactly when the line
      ends with ` (forces new resource)`. The errors added are those of the
      first value, then those of the second when there is one. */
  lemma AttributeWithValue(line: string, colon: nat, start: nat)
    requires 7 <= colon < |line| && line[colon] == ':'
    requires forall k :: 7 <= k < colon ==> line[k] != ':'
    requires colon < start < |line| && line[start] != ' '
    requires forall k :: colon < k < start ==> line[k] == ' '
    requires ParseAttribute(line).Normal?
    ensures TokenizeValue(line, start).Normal?
    ensures var p := ParseAttribute(line).value;
      var e := TokenizeValue(line, start).value.endPos;
      && p.Attribute?
      && p.attr.newValue.Some?
      && (p.attr.oldValue.Some? <==> Substring(line, e + 1, e + 1 + |OLD_NEW_SEPARATOR|) == OLD_NEW_SEPARATOR)
      && (p.attr.oldValue.Some? ==> p.attr.oldValue.value == TokenizeValue(line, start).value.val)
      && (p.attr.oldValue.None? ==> p.attr.newValue.value == TokenizeValue(line, start).value.val)
      && (p.attr.oldValue.Some? ==> TokenizeValue(line, e + 5).Normal? && p.attr.newValue.value == TokenizeValue(line, e + 5).value.val)
      && (p.attr.forcesNewResource <==> EndsWith(line, ATTRIBUTE_FORCES_NEW_RESOURCE_SUFFIX))
      && p.errors == TokenizeValue(line, start).value.errors + (if p.attr.oldValue.Some? then TokenizeValue(line, e + 5).value.errors else [])
  {
    IndexOfCharAt(line, ':', 7, colon);
    NextNonSpaceAt(line, colon + 1, start);
    NamedAt(line, colon, start);
    var v := AttributeValues(line, start);
    assert v.Normal? && ParseAttribute(line).value.attr == v.value.0 && ParseAttribute(line).value.errors == v.value.1;
    AttributeValuesShape(line, start);
    var e := TokenizeValue(line, start).value.endPos;
    SeparatorAtIsSubstringTest(line, e + 1);
    ForcesSuffixIsEndsWith(line);
  }

  lemma AttributeValuesShape(line: string, start: nat)
    requires AttributeValues(line, start).Normal?
    ensures TokenizeValue(line, start).Normal?
    ensures var a := AttributeValues(line, start).value.0;
      var e := TokenizeValue(line, start).value.endPos;
      && a.newValue.Some?
      && (a.oldValue.Some? <==> SeparatorAt(line, e + 1))
      && (a.oldValue.Some? ==> a.oldValue.value == TokenizeValue(line, start).value.val)
      && (a.oldValue.None? ==> a.newValue.value == TokenizeValue(line, start).value.val)
      && (a.oldValue.Some? ==> TokenizeValue(line, e + 5).Normal? && a.newValue.value == TokenizeValue(line, e + 5).value.val)
      && (a.forcesNewResource <==> ForcesSuffix(line))
      && AttributeValues(line, start).value.1
           == TokenizeValue(line, start).value.errors + (if a.oldValue.Some? then TokenizeValue(line, e + 5).value.errors else [])
  {
  }

  /** The line Terraform prints for a string attribute that changes from
      `o` to `n`, written with JSON string literals, parses back to exactly
      that change, with no error. */
  lemma AttributeLineRoundTrip(name: string, o: string, n: string)
    requires |name| >= 1 && ':' !in name
    ensures var pre := "      " + name + ": ";
      var line := pre + ("\"" + Escape(o) + "\"") + " => " + ("\"" + Escape(n) + "\"");
      ParseAttribute(line) == Normal(Attribute(name, ChangedAttribute(
        Some(AttributeValue(StringValue, Some(o))), Some(AttributeValue(StringValue, Some(n))), false), []))
  {
    var pre := "      " + name + ": ";
    var line := pre + ("\"" + Escape(o) + "\"") + " => " + ("\"" + Escape(n) + "\"");
    var colon := 6 + |name|;
    NameLayout(line, name, pre, ("\"" + Escape(o) + "\"") + " => " + ("\"" + Escape(n) + "\""));
    ValuesRoundTrip(line, pre, o, n);
    NamedAt(line, colon, |pre|);
  }

  /** Where the name, the colon and the first value of `      name: rest`
      stand. */
  lemma NameLayout(line: string, name: string, pre: string, rest: string)
    requires |name| >= 1 && ':' !in name && pre == "      " + name + ": " && line == pre + rest && rest != [] && rest[0] != ' '
    ensures var colon := 6 + |name|;
      && |pre| == colon + 2 && |pre| < |line| && line[colon] == ':' && line[6..colon] == name
      && IndexOfChar(line, ':', 7) == colon && NextNonSpace(line, colon + 1) == |pre|
  {
    var colon := 6 + |name|;
    forall k | 7 <= k < colon ensures line[k] != ':' {
      assert line[k] == name[k - 6];
    }
    assert line[colon] == ':';
    IndexOfCharFirst(line, ':', 7);
    assert line[colon + 1] == ' ' && line[colon + 2] == rest[0];
    NextNonSpaceFirst(line, colon + 1);
    assert line[6..colon] == name;
  }

  /** An attribute line whose name ends at `colon` and whose values start
      at `start`. */
  lemma NamedAt(line: string, colon: nat, start: nat)
    requires 7 <= colon < |line| && IndexOfChar(line, ':', 7) == colon && NextNonSpace(line, colon + 1) == start
    ensures ParseAttribute(line) == Named(line[6..colon], AttributeValues(line, start))
  {
  }

  lemma ValuesRoundTrip(line: string, pre: string, o: string, n: string)
    requires line == pre + ("\"" + Escape(o) + "\"") + " => " + ("\"" + Escape(n) + "\"")
    ensures AttributeValues(line, |pre|) == Normal((ChangedAttribute(
        Some(AttributeValue(StringValue, Some(o))), Some(AttributeValue(StringValue, Some(n))), false), []))
  {
    PairAt(line, pre, o, n);
    QuotedValuesAt(line, |pre|, o, n);
  }

  lemma PairAt(line: string, pre: string, o: string, n: string)
    requires line == pre + ("\"" + Escape(o) + "\"") + " => " + ("\"" + Escape(n) + "\"")
    ensures MatchesAt(line, |pre|, "\"" + Escape(o) + "\"")
    ensures SeparatorAt(line, |pre| + 2 + |Escape(o)|)
    ensures MatchesAt(line, |pre| + 6 + |Escape(o)|, "\"" + Escape(n) + "\"")
    ensures |line| == |pre| + 8 + |Escape(o)| + |Escape(n)|
  {
    QuotedPairLayout(pre, Escape(o), Escape(n));
  }

  /** Where the pieces of `pre "eo" => "en"` stand. */
  lemma QuotedPairLayout(pre: string, eo: string, en: string)
    ensures var line := pre + ("\"" + eo + "\"") + " => " + ("\"" + en + "\"");
      && MatchesAt(line, |pre|, "\"" + eo + "\"")
      && SeparatorAt(line, |pre| + 2 + |eo|)
      && MatchesAt(line, |pre| + 6 + |eo|, "\"" + en + "\"")
      && |line| == |pre| + 8 + |eo| + |en|
  {
    var qo := "\"" + eo + "\"";
    var qn := "\"" + en + "\"";
    MatchesAtEnd(pre, qo);
    MatchesAtExtend(pre + qo, " => ", |pre|, qo);
    MatchesAtExtend(pre + qo + " => ", qn, |pre|, qo);
    MatchesAtEnd(pre + qo + " => ", qn);
    SeparatorBetween(pre + qo, qn);
  }

  lemma SeparatorBetween(x: string, y: string)
    ensures SeparatorAt(x + " => " + y, |x|)
  {
    var line := x + " => " + y;
    assert line[|x|] == ' ' && line[|x| + 1] == '=' && line[|x| + 2] == '>' && line[|x| + 3] == ' ';
  }

  /** Two JSON string literals around ` => `, the second closing the line,
      read back as the old and the new value. */
  lemma QuotedValuesAt(line: string, start: nat, o: string, n: string)
    requires MatchesAt(line, start, "\"" + Escape(o) + "\"")
    requires SeparatorAt(line, start + 2 + |Escape(o)|)
    requires MatchesAt(line, start + 6 + |Escape(o)|, "\"" + Escape(n) + "\"")
    requires |line| == start + 8 + |Escape(o)| + |Escape(n)|
    ensures AttributeValues(line, start) == Normal((ChangedAttribute(
        Some(AttributeValue(StringValue, Some(o))), Some(AttributeValue(StringValue, Some(n))), false), []))
  {
    var e1 := start + 1 + |Escape(o)|;
    TokenizeQuotedAt(line, start, o);
    ClosingLiteral(line, e1 + 5, n);
    TwoValuesClosingLine(line, start, o, n, e1, |line| - 1);
  }

  /** A JSON string literal that closes the line reads back as its string,
      ending at the last character. */
  lemma ClosingLiteral(line: string, start: nat, n: string)
    requires MatchesAt(line, start, "\"" + Escape(n) + "\"") && |line| == start + 2 + |Escape(n)|
    ensures TokenizeValue(line, start) == Normal(Token(AttributeValue(StringValue, Some(n)), |line| - 1, []))
    ensures line[|line| - 1] == '"'
  {
    TokenizeQuotedAt(line, start, n);
    QuotedLiteralAt(line, start, n);
  }

  lemma TwoValuesClosingLine(line: string, start: nat, o: string, n: string, e1: nat, e2: nat)
    requires TokenizeValue(line, start) == Normal(Token(AttributeValue(StringValue, Some(o)), e1, []))
    requires SeparatorAt(line, e1 + 1)
    requires TokenizeValue(line, e1 + 5) == Normal(Token(AttributeValue(StringValue, Some(n)), e2, []))
    requires e2 + 1 == |line| && line[e2] == '"'
    ensures AttributeValues(line, start) == Normal((ChangedAttribute(
        Some(AttributeValue(StringValue, Some(o))), Some(AttributeValue(StringValue, Some(n))), false), []))
  {
    assert |OLD_NEW_SEPARATOR| == 4;
    assert !ForcesSuffix(line);
    var errs: seq<ParseError> := [];
    assert errs + errs == [];
  }
}
