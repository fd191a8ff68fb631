/** parseActionLine (src/index.ts:121-165): the text after the action symbol
    is matched against ACTION_LINE_REGEX; a match becomes a Changed record,
    pushed onto the data sources or the resources, and no match an
    UNABLE_TO_PARSE_CHANGE_LINE error. */
module ActionLine {
  import opened JsString
  import opened PlanTypes
  import opened ModulePath
  import opened ActionPattern

  // ---------------------------------------------------------------------------
  // The record a match becomes

  /** `[module, dataSourceStr, type, name]`, an absent group written as the
      empty string (the filter that follows drops both alike). */
  function PathParts(m: ActionMatch): seq<string>
  {
    [if m.moduleGroup.Some? then m.moduleGroup.value else "",
     if m.dataSource then "data" else "",
     m.tail.resourceType,
     m.tail.name]
  }

  /** `.filter(str => str && str.length > 0)`. */
  function NonEmpty(parts: seq<string>): (r: seq<string>)
    ensures forall i :: 0 <= i < |r| ==> r[i] != []
    ensures |r| <= |parts|
  {
    if parts == [] then []
    else if parts[0] == [] then NonEmpty(parts[1..])
    else [parts[0]] + NonEmpty(parts[1..])
  }

  /** The `path` of a change: the non-empty parts joined with dots. */
  function PathOf(m: ActionMatch): string
  {
    Join(NonEmpty(PathParts(m)), ".")
  }

  /** The record built for a match; `module` is set only when the module group
      matched, `newResourceRequired` only on resources. */
  function ChangeOf(m: ActionMatch, action: Action): Changed
  {
    Changed(
      if m.moduleGroup.Some? then Some(ParseModulePathAsWritten(m.moduleGroup.value)) else None,
      action,
      m.tail.resourceType,
      m.tail.name,
      PathOf(m),
      map[],
      !m.dataSource && m.tail.newResourceRequired,
      m.tail.tainted)
  }

  /** One action line applied to the result: the new result and what
      `lastChange` becomes. */
  function ActionLineStep(r: PlanResult, offset: nat, line: string, action: Action): (PlanResult, Option<ChangeRef>)
  {
    match MatchActionLine(SubstringFrom(line, offset))
    case None => (r.(errors := r.errors + [UnableToParseChangeLine]), None)
    case Some(m) =>
      var c := ChangeOf(m, action);
      if m.dataSource then
        (r.(changedDataSources := r.changedDataSources + [c]), Some(ChangeRef(true, |r.changedDataSources|)))
      else
        (r.(changedResources := r.changedResources + [c]), Some(ChangeRef(false, |r.changedResources|)))
  }

  method ParseActionLine(offset: nat, line: string, action: Action, result: ParseResult) returns (change: Option<ChangeRef>)
    modifies result
    ensures (result.Snapshot(), change) == ActionLineStep(old(result.Snapshot()), offset, line, action)
  {
    var found := MatchActionLine(SubstringFrom(line, offset));
    if found.None? {
      result.errors := result.errors + [UnableToParseChangeLine];
      return None;
    }
    var m := found.value;
    var modulePath: Option<string> := None;
    if m.moduleGroup.Some? {
      modulePath := Some(ParseModulePathAsWritten(m.moduleGroup.value));
    }
    var c := Changed(modulePath, action, m.tail.resourceType, m.tail.name, PathOf(m), map[], false, m.tail.tainted);
    if m.dataSource {
      change := Some(ChangeRef(true, |result.changedDataSources|));
      result.changedDataSources := result.changedDataSources + [c];
    } else {
      if m.tail.newResourceRequired {
        c := c.(newResourceRequired := true);
      }
      change := Some(ChangeRef(false, |result.changedResources|));
      result.changedResources := result.changedResources + [c];
    }
  }

  // ---------------------------------------------------------------------------
  // What one action line does to the result

  /** An action line adds exactly one thing: an error when the text does not
      match, otherwise one record at the end of the list its `data.` prefix
      selects, which `lastChange` then refers to. */
  lemma ActionLineAppendsOne(r: PlanResult, offset: nat, line: string, action: Action)
    ensures var (r', ref) := ActionLineStep(r, offset, line, action);
      && (ref.None? <==> MatchActionLine(SubstringFrom(line, offset)).None?)
      && (ref.None? ==> r' == PlanResult(r.errors + [UnableToParseChangeLine], r.changedResources, r.changedDataSources))
      && (ref.Some? ==>
            && r'.errors == r.errors && ValidRef(r', ref.value)
            && (ref.value.dataSource <==> MatchActionLine(SubstringFrom(line, offset)).value.dataSource)
            && (ref.value.dataSource ==>
                  r'.changedDataSources == r.changedDataSources + [Record(r', ref.value)] && r'.changedResources == r.changedResources)
            && (!ref.value.dataSource ==>
                  r'.changedResources == r.changedResources + [Record(r', ref.value)] && r'.changedDataSources == r.changedDataSources))
  {
  }

  /** The record a matched line adds: the action, the type and name groups,
      the tainted flag, a path that is the matched text without its suffixes,
      no attributes yet, and `newResourceRequired` only on a resource. */
  lemma ActionLineRecord(r: PlanResult, offset: nat, line: string, action: Action)
    requires MatchActionLine(SubstringFrom(line, offset)).Some?
    ensures var m := MatchActionLine(SubstringFrom(line, offset)).value;
      var (r', ref) := ActionLineStep(r, offset, line, action);
      && ref.Some? && ValidRef(r', ref.value)
      && var c := Record(r', ref.value);
      && c.action == action && c.resourceType == m.tail.resourceType && c.name == m.tail.name
      && c.tainted == m.tail.tainted && c.changedAttributes == map[]
      && c.path + SuffixText(m.tail.tainted, m.tail.newResourceRequired) == SubstringFrom(line, offset)
      && (c.newResourceRequired <==> !m.dataSource && m.tail.newResourceRequired)
      && (c.modulePath.Some? <==> m.moduleGroup.Some?)
  {
    var m := MatchActionLine(SubstringFrom(line, offset)).value;
    MatchActionLineSound(SubstringFrom(line, offset));
    PathOfRender(m);
  }

  // ---------------------------------------------------------------------------
  // The path is the line without its suffixes

  // Proof scaffolding: facts about joins and concatenation that the path
  // proofs below use; they state nothing about the parser.

  lemma Assoc3(x: string, y: string, z: string)
    ensures x + (y + z) == x + y + z
  {
  }

  lemma DataDotLiteral()
    ensures "data" + "." == "data."
  {
  }

  lemma JoinCons(x: string, rest: seq<string>, sep: string)
    requires rest != []
    ensures Join([x] + rest, sep) == x + sep + Join(rest, sep)
  {
    assert ([x] + rest)[1..] == rest;
  }

  /** The filter keeps the type and the name, and the module group and `data`
      when they are there. */
  lemma NonEmptyFour(a: string, b: string, c: string, e: string)
    requires c != [] && e != []
    ensures NonEmpty([a, b, c, e]) == (if a == [] then [] else [a]) + (if b == [] then [] else [b]) + [c, e]
  {
    assert NonEmpty([c, e]) == [c, e] by {
      assert [c, e][1..] == [e];
      assert [e][1..] == [];
    }
    var tail := (if b == [] then [] else [b]) + [c, e];
    assert NonEmpty([b, c, e]) == tail by {
      assert [b, c, e][1..] == [c, e];
    }
    assert [a, b, c, e][1..] == [b, c, e];
  }

  /** Joining the parts after the module group. */
  lemma JoinThreeParts(b: string, c: string, e: string, sep: string)
    requires c != [] && e != []
    ensures Join((if b == [] then [] else [b]) + [c, e], sep) == (if b == [] then [] else b + sep) + (c + sep + e)
  {
    JoinCons(c, [e], sep);
    JoinOptionalHead(b, [c, e], sep);
  }

  /** A part that the filter may drop, in front of parts that stay. */
  lemma JoinOptionalHead(a: string, rest: seq<string>, sep: string)
    requires rest != []
    ensures Join((if a == [] then [] else [a]) + rest, sep) == (if a == [] then [] else a + sep) + Join(rest, sep)
  {
    if a != [] {
      JoinCons(a, rest, sep);
    } else {
      assert [] + rest == rest;
      assert [] + Join(rest, sep) == Join(rest, sep);
    }
  }

  /** Filtering and joining four parts of which the last two are never empty. */
  lemma JoinFourParts(a: string, b: string, c: string, e: string, sep: string)
    requires c != [] && e != []
    ensures Join(NonEmpty([a, b, c, e]), sep)
      == (if a == [] then [] else a + sep) + (if b == [] then [] else b + sep) + (c + sep + e)
  {
    NonEmptyFour(a, b, c, e);
    var ap := if a == [] then [] else [a];
    var rest := (if b == [] then [] else [b]) + [c, e];
    assert NonEmpty([a, b, c, e]) == ap + rest;
    JoinOptionalHead(a, rest, sep);
    JoinThreeParts(b, c, e, sep);
    Assoc3(if a == [] then [] else a + sep, if b == [] then [] else b + sep, c + sep + e);
  }

  /** The path and the suffixes put back together give the matched text. */
  lemma PathOfRender(m: ActionMatch)
    requires MatchShaped(m)
    ensures PathOf(m) + SuffixText(m.tail.tainted, m.tail.newResourceRequired) == Render(m)
  {
    var g := if m.moduleGroup.Some? then m.moduleGroup.value else "";
    if m.moduleGroup.Some? {
      assert g != [] by {
        var p: nat :| p <= |g| && ModuleAnchor(g, p);
      }
    }
    var dw := if m.dataSource then "data" else "";
    DataDotLiteral();
    PathPieces(g, dw, m.tail.resourceType, m.tail.name, SuffixText(m.tail.tainted, m.tail.newResourceRequired));
  }

  lemma PathPieces(g: string, dw: string, c: string, e: string, sfx: string)
    requires c != [] && e != []
    ensures Join(NonEmpty([g, dw, c, e]), ".") + sfx
      == (if g == [] then [] else g + ".") + ((if dw == [] then [] else dw + ".") + (c + "." + e + sfx))
  {
    JoinFourParts(g, dw, c, e, ".");
  }

  // ---------------------------------------------------------------------------
  // Lines written from module names: the record they give

  predicate NoDotIn(names: seq<string>)
  {
    forall i :: 0 <= i < |names| ==> '.' !in names[i]
  }

  predicate NoLineTerminatorIn(names: seq<string>)
  {
    forall i :: 0 <= i < |names| ==> NoLineTerminator(names[i])
  }

  lemma NoLineTerminatorConcat(a: string, b: string)
    requires NoLineTerminator(a) && NoLineTerminator(b)
    ensures NoLineTerminator(a + b)
  {
    forall k | 0 <= k < |a + b| ensures !IsLineTerminator((a + b)[k]) {
      if k < |a| { assert (a + b)[k] == a[k]; } else { assert (a + b)[k] == b[k - |a|]; }
    }
  }

  lemma {:induction false} NoLineTerminatorJoin(parts: seq<string>, sep: string)
    requires NoLineTerminatorIn(parts) && NoLineTerminator(sep)
    ensures NoLineTerminator(Join(parts, sep))
    decreases |parts|
  {
    if |parts| > 1 {
      NoLineTerminatorJoin(parts[1..], sep);
      NoLineTerminatorConcat(parts[0], sep);
      NoLineTerminatorConcat(parts[0] + sep, Join(parts[1..], sep));
    }
  }

  lemma ModuleWordFacts(w: string)
    requires IsModuleWord(w)
    ensures NoLineTerminator(w) && '.' !in w
  {
    assert w == [w[0], w[1], w[2], w[3], w[4], w[5]];
  }

  /** A group `pre.module.x` anchors at its last `module.`. */
  lemma LastAnchorAfter(g: string, pre: string, w: string, x: string)
    requires IsModuleWord(w) && g == pre + ['.'] + w + ['.'] + x && '.' !in x && NoLineTerminator(pre)
    ensures ModuleAnchor(g, |pre| + 1) && g[|pre| + 8..] == x
  {
    var p := |pre| + 1;
    assert g[p..p + 6] == w;
    ModuleWordAtCopy(g, p, w);
    assert g[p + 7..] == x;
    assert g[..p - 1] == pre;
  }

  /** A group `module.x` anchors at its start. */
  lemma LastAnchorAtStart(g: string, w: string, x: string)
    requires IsModuleWord(w) && g == w + ['.'] + x && '.' !in x
    ensures ModuleAnchor(g, 0) && g[7..] == x
  {
    assert g[0..6] == w;
    ModuleWordAtCopy(g, 0, w);
    assert g[7..] == x;
  }

  /** The group written from `names` anchors at its last `module.`, which the
      last name follows. */
  lemma PrefixAnchorOf(names: seq<string>, w: string)
    requires IsModuleWord(w) && names != [] && NoDotIn(names) && NoLineTerminatorIn(names)
    ensures var g := w + ['.'] + Join(names, ['.'] + w + ['.']);
      var x := names[|names| - 1];
      |g| >= 7 + |x| && ModuleAnchor(g, |g| - 7 - |x|) && g[|g| - |x|..] == x
  {
    var sep := ['.'] + w + ['.'];
    var g := w + ['.'] + Join(names, sep);
    var x := names[|names| - 1];
    if |names| == 1 {
      LastAnchorAtStart(g, w, x);
    } else {
      JoinSnoc(names, sep);
      var init := names[..|names| - 1];
      var pre := w + ['.'] + Join(init, sep);
      assert g == pre + ['.'] + w + ['.'] + x;
      ModuleWordFacts(w);
      assert NoLineTerminatorIn(init) by {
        forall i | 0 <= i < |init| ensures NoLineTerminator(init[i]) { assert init[i] == names[i]; }
      }
      assert NoLineTerminator(sep) by {
        assert sep == [sep[0]] + w + [sep[7]];
        NoLineTerminatorConcat([sep[0]], w);
        NoLineTerminatorConcat([sep[0]] + w, [sep[7]]);
      }
      NoLineTerminatorJoin(init, sep);
      NoLineTerminatorConcat(w, ['.']);
      NoLineTerminatorConcat(w + ['.'], Join(init, sep));
      LastAnchorAfter(g, pre, w, x);
    }
  }

  lemma PrefixAnchor(names: seq<string>)
    requires names != [] && NoDotIn(names) && NoLineTerminatorIn(names)
    ensures var g := ModulePrefix(names);
      var x := names[|names| - 1];
      |g| >= 7 + |x| && ModuleAnchor(g, |g| - 7 - |x|) && g[|g| - |x|..] == x
  {
    ModuleLiterals();
    ModuleDotLiteral(Join(names, ".module."));
    PrefixAnchorOf(names, "module");
  }

  /** A last name other than `module` is not read as `module` in the group. */
  lemma LastNameNotModule(g: string, x: string, p: int)
    requires |g| >= |x| && g[|g| - |x|..] == x && p == |g| - 7 - |x| && !IsModuleWord(x)
    ensures !(|g| == p + 13 && p >= 0 && ModuleWordAt(g, p + 7))
  {
  }

  /** The match a line written from module names, a `data.` flag and a tail
      is read as. */
  function WrittenMatch(names: seq<string>, dataSource: bool, t: Tail): ActionMatch
  {
    ActionMatch(if names == [] then None else Some(ModulePrefix(names)), dataSource, t)
  }

  /** A change line written from module names that hold no dot, no line
      terminator and not the letters `module`, an optional `data.`, a type
      without dots, a name without dots or spaces and its suffixes adds one
      record holding exactly those: the module path is the names joined with
      dots. (A name holding `module` and one more character is cut apart by
      the module-path split; `CutModuleNameInLine` shows it.) */
  lemma ChangeLineRoundTrip(r: PlanResult, lead: string, names: seq<string>, dataSource: bool, t: Tail, action: Action)
    requires forall i :: 0 <= i < |names| ==> PlainName(names[i])
    requires NoLineTerminatorIn(names)
    requires TailShaped(t) && '.' !in t.name
    ensures var m := WrittenMatch(names, dataSource, t);
      var c := Changed(
        if names == [] then None else Some(Join(names, ".")),
        action, t.resourceType, t.name, PathOf(m), map[],
        !dataSource && t.newResourceRequired, t.tainted);
      ActionLineStep(r, |lead|, lead + Render(m), action)
        == if dataSource then (r.(changedDataSources := r.changedDataSources + [c]), Some(ChangeRef(true, |r.changedDataSources|)))
           else (r.(changedResources := r.changedResources + [c]), Some(ChangeRef(false, |r.changedResources|)))
  {
    var m := WrittenMatch(names, dataSource, t);
    assert NoDotIn(names);
    if dataSource && names != [] {
      assert !ModuleWordAt(names[|names| - 1], 0);
    }
    WrittenReadable(names, dataSource, t);
    RenderRoundTrip(m);
    StepOfMatch(r, lead, m, action);
    if names != [] {
      AsWrittenOnPlainNames(names);
    }
  }

  /** The module name `vpc_module_a` in a whole change line: the record the
      line adds carries the module path `vpc_.a`. */
  lemma CutModuleNameInLine(r: PlanResult, lead: string, t: Tail, action: Action)
    requires TailShaped(t) && '.' !in t.name
    ensures var (r', ref) := ActionLineStep(r, |lead|, lead + Render(WrittenMatch(["vpc_module_a"], false, t)), action);
      && ref == Some(ChangeRef(false, |r.changedResources|))
      && |r'.changedResources| == |r.changedResources| + 1
      && r'.changedResources[|r.changedResources|].modulePath == Some("vpc_.a")
  {
    var names := ["vpc_module_a"];
    assert NoDotIn(names) && NoLineTerminatorIn(names);
    WrittenReadable(names, false, t);
    var m := WrittenMatch(names, false, t);
    RenderRoundTrip(m);
    StepOfMatch(r, lead, m, action);
    ExampleSpelling();
    CutModuleNameExample();
  }

  /** The line written from the names, the `data.` and the tail is one the
      matcher reads back. */
  lemma WrittenReadable(names: seq<string>, dataSource: bool, t: Tail)
    requires NoDotIn(names) && NoLineTerminatorIn(names)
    requires TailShaped(t) && '.' !in t.name
    requires dataSource && names != [] ==> !IsModuleWord(names[|names| - 1])
    ensures Readable(WrittenMatch(names, dataSource, t))
  {
    if names != [] {
      var g := ModulePrefix(names);
      var x := names[|names| - 1];
      PrefixAnchor(names);
      var p := |g| - 7 - |x|;
      if dataSource {
        LastNameNotModule(g, x, p);
      }
    }
  }

  /** A line after `lead` that the matcher reads as `m` adds the record of
      `m`. */
  lemma StepOfMatch(r: PlanResult, lead: string, m: ActionMatch, action: Action)
    requires MatchActionLine(Render(m)) == Some(m)
    ensures ActionLineStep(r, |lead|, lead + Render(m), action)
        == if m.dataSource then (r.(changedDataSources := r.changedDataSources + [ChangeOf(m, action)]), Some(ChangeRef(true, |r.changedDataSources|)))
           else (r.(changedResources := r.changedResources + [ChangeOf(m, action)]), Some(ChangeRef(false, |r.changedResources|)))
  {
    assert SubstringFrom(lead + Render(m), |lead|) == Render(m);
  }
}
