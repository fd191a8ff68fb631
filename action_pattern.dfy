/** ACTION_LINE_REGEX (src/index.ts:96), the pattern a change line must match
    once its action symbol is cut off:

      ^(?:((?:.*\.)?module\.[^.]*)\.)?(?:(data)\.)?([^.]+)\.([^ ]+)( \(tainted\))?( \(new resource required\))?$

    The matcher below takes the alternatives in the order a backtracking
    regular-expression engine tries them: the module group before its absence,
    and inside it the longest `.*` first; `data.` before its absence. The
    groups `[^.]+\.` and `[^ ]+` followed by the fixed suffixes leave no
    choice. */
module ActionPattern {
  import opened JsString
  import opened ModulePath

  const TAINTED_SUFFIX: string := " (tainted)"
  const NEW_RESOURCE_SUFFIX: string := " (new resource required)"

  // ---------------------------------------------------------------------------
  // Proof scaffolding: the literal suffixes, letter by letter
  //
  // The matcher recognises ` (tainted)`, ` (new resource required)` and
  // `data.` letter by letter. The lemmas of this section only tie those
  // letter-wise predicates to the string constants, a few letters at a time,
  // which keeps each proof small; they state nothing about the parser.

  /** ` (tainted)` stands in `s` from index `p` on, compared letter by letter. */
  predicate TaintedAt(s: string, p: nat)
  {
    p + 10 <= |s| && s[p] == ' ' && s[p + 1] == '(' && s[p + 2] == 't' && s[p + 3] == 'a' && s[p + 4] == 'i' && s[p + 5] == 'n' && s[p + 6] == 't' && s[p + 7] == 'e' && s[p + 8] == 'd' && s[p + 9] == ')'
  }

  /** `pat` spells ` (tainted)`, letter by letter. */
  predicate SpellsTainted(pat: string)
  {
    |pat| == 10 && pat[0] == ' ' && pat[1] == '(' && pat[2] == 't' && pat[3] == 'a' && pat[4] == 'i' && pat[5] == 'n' && pat[6] == 't' && pat[7] == 'e' && pat[8] == 'd' && pat[9] == ')'
  }

  /** The constant spells the word (checked in stretches, which keeps each
      proof small). */
  lemma TaintedSpelling()
    ensures SpellsTainted(TAINTED_SUFFIX)
  {
    TaintedLetters0();
    TaintedLetters6();
  }

  lemma TaintedLetters0()
    ensures |TAINTED_SUFFIX| == 10
    ensures TAINTED_SUFFIX[0] == ' ' && TAINTED_SUFFIX[1] == '(' && TAINTED_SUFFIX[2] == 't' && TAINTED_SUFFIX[3] == 'a' && TAINTED_SUFFIX[4] == 'i' && TAINTED_SUFFIX[5] == 'n'
  {
  }

  lemma TaintedLetters6()
    ensures |TAINTED_SUFFIX| == 10
    ensures TAINTED_SUFFIX[6] == 't' && TAINTED_SUFFIX[7] == 'e' && TAINTED_SUFFIX[8] == 'd' && TAINTED_SUFFIX[9] == ')'
  {
  }

  lemma TaintedAtLetters(s: string, p: nat, pat: string)
    requires SpellsTainted(pat) && TaintedAt(s, p)
    ensures forall i :: 0 <= i < 10 ==> s[p + i] == pat[i]
  {
    forall i | 0 <= i < 10 ensures s[p + i] == pat[i] {
      if i == 0 { } else if i == 1 { } else if i == 2 { } else if i == 3 { } else if i == 4 { } else if i == 5 { } else if i == 6 { } else if i == 7 { } else if i == 8 { } else { }
    }
  }

  lemma TaintedLettersAt(s: string, p: nat, pat: string)
    requires SpellsTainted(pat)
    requires p + 10 <= |s| && forall i :: 0 <= i < 10 ==> s[p + i] == pat[i]
    ensures TaintedAt(s, p)
  {
  }

  lemma TaintedAtSpelled(s: string, p: nat, pat: string)
    requires SpellsTainted(pat) && p <= |s|
    ensures TaintedAt(s, p) <==> MatchesAt(s, p, pat)
  {
    MatchesAtEach(s, p, pat);
    if TaintedAt(s, p) { TaintedAtLetters(s, p, pat); }
    if MatchesAt(s, p, pat) { TaintedLettersAt(s, p, pat); }
  }

  /** TaintedAt is the test that ` (tainted)` occurs at `p`. */
  lemma TaintedAtIsMatch(s: string, p: nat)
    requires p <= |s|
    ensures TaintedAt(s, p) <==> MatchesAt(s, p, TAINTED_SUFFIX)
  {
    TaintedSpelling();
    TaintedAtSpelled(s, p, TAINTED_SUFFIX);
  }

  lemma TaintedNoDot(pat: string)
    requires SpellsTainted(pat)
    ensures pat[0] == ' ' && '.' !in pat
  {
    forall i | 0 <= i < 10 ensures pat[i] != '.' {
      if i == 0 { } else if i == 1 { } else if i == 2 { } else if i == 3 { } else if i == 4 { } else if i == 5 { } else if i == 6 { } else if i == 7 { } else if i == 8 { } else { }
    }
  }

  /** ` (new resource required)` stands in `s` from index `p` on, compared letter by letter. */
  predicate NewResourceAt(s: string, p: nat)
  {
    p + 24 <= |s| && s[p] == ' ' && s[p + 1] == '(' && s[p + 2] == 'n' && s[p + 3] == 'e' && s[p + 4] == 'w' && s[p + 5] == ' ' && s[p + 6] == 'r' && s[p + 7] == 'e' && s[p + 8] == 's' && s[p + 9] == 'o' && s[p + 10] == 'u' && s[p + 11] == 'r' && s[p + 12] == 'c' && s[p + 13] == 'e' && s[p + 14] == ' ' && s[p + 15] == 'r' && s[p + 16] == 'e' && s[p + 17] == 'q' && s[p + 18] == 'u' && s[p + 19] == 'i' && s[p + 20] == 'r' && s[p + 21] == 'e' && s[p + 22] == 'd' && s[p + 23] == ')'
  }

  /** `pat` spells ` (new resource required)`, letter by letter. */
  predicate SpellsNewResource(pat: string)
  {
    |pat| == 24 && pat[0] == ' ' && pat[1] == '(' && pat[2] == 'n' && pat[3] == 'e' && pat[4] == 'w' && pat[5] == ' ' && pat[6] == 'r' && pat[7] == 'e' && pat[8] == 's' && pat[9] == 'o' && pat[10] == 'u' && pat[11] == 'r' && pat[12] == 'c' && pat[13] == 'e' && pat[14] == ' ' && pat[15] == 'r' && pat[16] == 'e' && pat[17] == 'q' && pat[18] == 'u' && pat[19] == 'i' && pat[20] == 'r' && pat[21] == 'e' && pat[22] == 'd' && pat[23] == ')'
  }

  /** The constant spells the word (checked in stretches, which keeps each
      proof small). */
  lemma NewResourceSpelling()
    ensures SpellsNewResource(NEW_RESOURCE_SUFFIX)
  {
    NewResourceLetters0();
    NewResourceLetters6();
    NewResourceLetters12();
    NewResourceLetters18();
  }

  lemma NewResourceLetters0()
    ensures |NEW_RESOURCE_SUFFIX| == 24
    ensures NEW_RESOURCE_SUFFIX[0] == ' ' && NEW_RESOURCE_SUFFIX[1] == '(' && NEW_RESOURCE_SUFFIX[2] == 'n' && NEW_RESOURCE_SUFFIX[3] == 'e' && NEW_RESOURCE_SUFFIX[4] == 'w' && NEW_RESOURCE_SUFFIX[5] == ' '
  {
  }

  lemma NewResourceLetters6()
    ensures |NEW_RESOURCE_SUFFIX| == 24
    ensures NEW_RESOURCE_SUFFIX[6] == 'r' && NEW_RESOURCE_SUFFIX[7] == 'e' && NEW_RESOURCE_SUFFIX[8] == 's' && NEW_RESOURCE_SUFFIX[9] == 'o' && NEW_RESOURCE_SUFFIX[10] == 'u' && NEW_RESOURCE_SUFFIX[11] == 'r'
  {
  }

  lemma NewResourceLetters12()
    ensures |NEW_RESOURCE_SUFFIX| == 24
    ensures NEW_RESOURCE_SUFFIX[12] == 'c' && NEW_RESOURCE_SUFFIX[13] == 'e' && NEW_RESOURCE_SUFFIX[14] == ' ' && NEW_RESOURCE_SUFFIX[15] == 'r' && NEW_RESOURCE_SUFFIX[16] == 'e' && NEW_RESOURCE_SUFFIX[17] == 'q'
  {
  }

  lemma NewResourceLetters18()
    ensures |NEW_RESOURCE_SUFFIX| == 24
    ensures NEW_RESOURCE_SUFFIX[18] == 'u' && NEW_RESOURCE_SUFFIX[19] == 'i' && NEW_RESOURCE_SUFFIX[20] == 'r' && NEW_RESOURCE_SUFFIX[21] == 'e' && NEW_RESOURCE_SUFFIX[22] == 'd' && NEW_RESOURCE_SUFFIX[23] == ')'
  {
  }

  lemma NewResourceAtLetters(s: string, p: nat, pat: string)
    requires SpellsNewResource(pat) && NewResourceAt(s, p)
    ensures forall i :: 0 <= i < 24 ==> s[p + i] == pat[i]
  {
    forall i | 0 <= i < 24 ensures s[p + i] == pat[i] {
      if i == 0 { } else if i == 1 { } else if i == 2 { } else if i == 3 { } else if i == 4 { } else if i == 5 { } else if i == 6 { } else if i == 7 { } else if i == 8 { } else if i == 9 { } else if i == 10 { } else if i == 11 { } else if i == 12 { } else if i == 13 { } else if i == 14 { } else if i == 15 { } else if i == 16 { } else if i == 17 { } else if i == 18 { } else if i == 19 { } else if i == 20 { } else if i == 21 { } else if i == 22 { } else { }
    }
  }

  lemma NewResourceLettersAt(s: string, p: nat, pat: string)
    requires SpellsNewResource(pat)
    requires p + 24 <= |s| && forall i :: 0 <= i < 24 ==> s[p + i] == pat[i]
    ensures NewResourceAt(s, p)
  {
  }

  lemma NewResourceAtSpelled(s: string, p: nat, pat: string)
    requires SpellsNewResource(pat) && p <= |s|
    ensures NewResourceAt(s, p) <==> MatchesAt(s, p, pat)
  {
    MatchesAtEach(s, p, pat);
    if NewResourceAt(s, p) { NewResourceAtLetters(s, p, pat); }
    if MatchesAt(s, p, pat) { NewResourceLettersAt(s, p, pat); }
  }

  /** NewResourceAt is the test that ` (new resource required)` occurs at `p`. */
  lemma NewResourceAtIsMatch(s: string, p: nat)
    requires p <= |s|
    ensures NewResourceAt(s, p) <==> MatchesAt(s, p, NEW_RESOURCE_SUFFIX)
  {
    NewResourceSpelling();
    NewResourceAtSpelled(s, p, NEW_RESOURCE_SUFFIX);
  }

  lemma NewResourceNoDot(pat: string)
    requires SpellsNewResource(pat)
    ensures pat[0] == ' ' && '.' !in pat
  {
    forall i | 0 <= i < 24 ensures pat[i] != '.' {
      if i == 0 { } else if i == 1 { } else if i == 2 { } else if i == 3 { } else if i == 4 { } else if i == 5 { } else if i == 6 { } else if i == 7 { } else if i == 8 { } else if i == 9 { } else if i == 10 { } else if i == 11 { } else if i == 12 { } else if i == 13 { } else if i == 14 { } else if i == 15 { } else if i == 16 { } else if i == 17 { } else if i == 18 { } else if i == 19 { } else if i == 20 { } else if i == 21 { } else if i == 22 { } else { }
    }
  }

  /** `data.` stands in `s` from index `p` on. */
  predicate DataDotAt(s: string, p: nat)
  {
    p + 5 <= |s| && s[p] == 'd' && s[p + 1] == 'a' && s[p + 2] == 't' && s[p + 3] == 'a' && s[p + 4] == '.'
  }

  lemma DataLiteral()
    ensures |"data."| == 5 && "data."[0] == 'd' && "data."[1] == 'a' && "data."[2] == 't' && "data."[3] == 'a' && "data."[4] == '.'
  {
  }

  // ---------------------------------------------------------------------------
  // The groups of a match

  /** No line terminator in `t`: what `.` in a pattern accepts. */
  predicate NoLineTerminator(t: string)
  {
    forall k :: 0 <= k < |t| ==> !IsLineTerminator(t[k])
  }

  /** The groups `([^.]+)\.([^ ]+)( \(tainted\))?( \(new resource required\))?`. */
  datatype Tail = Tail(resourceType: string, name: string, tainted: bool, newResourceRequired: bool)

  /** A whole match: the module group, whether `data.` was present, the rest. */
  datatype ActionMatch = ActionMatch(moduleGroup: Option<string>, dataSource: bool, tail: Tail)

  // ---------------------------------------------------------------------------
  // What a match reads: the line put back together from its groups

  function SuffixText(tainted: bool, newResourceRequired: bool): string
  {
    (if tainted then TAINTED_SUFFIX else "") + (if newResourceRequired then NEW_RESOURCE_SUFFIX else "")
  }

  function TailText(t: Tail): string
  {
    t.resourceType + "." + t.name + SuffixText(t.tainted, t.newResourceRequired)
  }

  function DataText(dataSource: bool): string
  {
    if dataSource then "data." else ""
  }

  function ModuleText(group: Option<string>): string
  {
    if group.Some? then group.value + "." else ""
  }

  function Render(m: ActionMatch): string
  {
    ModuleText(m.moduleGroup) + (DataText(m.dataSource) + TailText(m.tail))
  }

  /** The type has no dot and the name no space, and neither is empty. */
  predicate TailShaped(t: Tail)
  {
    t.resourceType != [] && '.' !in t.resourceType && t.name != [] && ' ' !in t.name
  }

  /** The `module.` that `(?:.*\.)?module\.[^.]*` anchors at index `p` of the
      module group `t`: either at its start, or after a dot that a `.*` free of
      line terminators reaches; no dot follows it. */
  predicate ModuleAnchor(t: string, p: nat)
  {
    && p + 7 <= |t| && ModuleWordAt(t, p) && t[p + 6] == '.' && '.' !in t[p + 7..]
    && (p == 0 || (t[p - 1] == '.' && NoLineTerminator(t[..p - 1])))
  }

  predicate MatchShaped(m: ActionMatch)
  {
    TailShaped(m.tail) && (m.moduleGroup.Some? ==> exists p: nat :: p <= |m.moduleGroup.value| && ModuleAnchor(m.moduleGroup.value, p))
  }

  // ---------------------------------------------------------------------------
  // The matcher

  /** `( \(tainted\))?( \(new resource required\))?$` from index `i`. */
  function SuffixFlags(s: string, i: nat): Option<(bool, bool)>
    requires i <= |s|
  {
    var n := |s| - i;
    if n == 0 then Some((false, false))
    else if n == 10 && TaintedAt(s, i) then Some((true, false))
    else if n == 34 && TaintedAt(s, i) && NewResourceAt(s, i + 10) then Some((true, true))
    else if n == 24 && NewResourceAt(s, i) then Some((false, true))
    else None
  }

  /** `([^.]+)\.([^ ]+)` and the suffixes from index `i`: the type runs to the
      first dot, the name over the following non-spaces. */
  function MatchTail(s: string, i: nat): Option<Tail>
    requires i <= |s|
  {
    var dot := IndexOfChar(s, '.', i);
    if dot == -1 || dot == i then None
    else
      var space := IndexOfChar(s, ' ', dot + 1);
      var nameEnd := if space == -1 then |s| else space;
      if nameEnd == dot + 1 then None
      else match SuffixFlags(s, nameEnd)
        case None => None
        case Some(flags) => Some(Tail(s[i..dot], s[dot + 1..nameEnd], flags.0, flags.1))
  }

  /** `(?:(data)\.)?` and the rest from index `i`, after the module group `group`. */
  function MatchFrom(s: string, i: nat, group: Option<string>): Option<ActionMatch>
    requires i <= |s|
  {
    if DataDotAt(s, i) && MatchTail(s, i + 5).Some? then Some(ActionMatch(group, true, MatchTail(s, i + 5).value))
    else match MatchTail(s, i)
      case None => None
      case Some(t) => Some(ActionMatch(group, false, t))
  }

  /** The module group with its `module.` at index `p`: `[^.]*` runs to the
      next dot, which closes the group. */
  function MatchModuleAt(s: string, p: nat): Option<ActionMatch>
  {
    if ModuleWordAt(s, p) && p + 6 < |s| && s[p + 6] == '.' then
      var q := IndexOfChar(s, '.', p + 7);
      if q == -1 then None else MatchFrom(s, q + 1, Some(s[..q]))
    else None
  }

  /** `p` can follow `(?:.*\.)`: a dot stands before it, and no line
      terminator before that dot. */
  predicate Reachable(s: string, p: nat)
  {
    1 <= p <= |s| && s[p - 1] == '.' && NoLineTerminator(s[..p - 1])
  }

  /** The module group, `.*` taken as long as possible first: the anchors
      `p`, `p - 1`, ..., 1, then the module group at the very start. */
  function TryModules(s: string, p: nat): Option<ActionMatch>
    requires p <= |s|
    decreases p
  {
    if p == 0 then MatchModuleAt(s, 0)
    else if Reachable(s, p) && MatchModuleAt(s, p).Some? then MatchModuleAt(s, p)
    else TryModules(s, p - 1)
  }

  /** `ACTION_LINE_REGEX.exec(s)`: with a module group if any anchor works,
      otherwise without one. */
  function MatchActionLine(s: string): Option<ActionMatch>
  {
    var withModule := TryModules(s, |s|);
    if withModule.Some? then withModule else MatchFrom(s, 0, None)
  }

  // ---------------------------------------------------------------------------
  // Soundness: a match reads the whole line, group by group

  /** The suffix groups accept exactly the four suffix texts (stated for any
      two strings spelled like the suffixes). */
  lemma SuffixFlagsSoundWith(s: string, i: nat, ts: string, ns: string)
    requires i <= |s| && SpellsTainted(ts) && SpellsNewResource(ns)
    ensures SuffixFlags(s, i).Some? ==>
      var f := SuffixFlags(s, i).value;
      s[i..] == (if f.0 then ts else "") + (if f.1 then ns else "")
  {
    var n := |s| - i;
    if n == 10 && TaintedAt(s, i) {
      TaintedAtSpelled(s, i, ts);
      MatchesAtOccurs(s, i, ts);
    } else if n == 34 && TaintedAt(s, i) && NewResourceAt(s, i + 10) {
      TaintedAtSpelled(s, i, ts);
      MatchesAtOccurs(s, i, ts);
      NewResourceAtSpelled(s, i + 10, ns);
      MatchesAtOccurs(s, i + 10, ns);
      assert s[i..] == s[i..i + 10] + s[i + 10..i + 34];
    } else if n == 24 && NewResourceAt(s, i) {
      NewResourceAtSpelled(s, i, ns);
      MatchesAtOccurs(s, i, ns);
    }
  }

  lemma SuffixFlagsSound(s: string, i: nat)
    requires i <= |s|
    ensures SuffixFlags(s, i).Some? ==> s[i..] == SuffixText(SuffixFlags(s, i).value.0, SuffixFlags(s, i).value.1)
  {
    TaintedSpelling();
    NewResourceSpelling();
    SuffixFlagsSoundWith(s, i, TAINTED_SUFFIX, NEW_RESOURCE_SUFFIX);
  }

  lemma MatchTailSound(s: string, i: nat)
    requires i <= |s|
    ensures MatchTail(s, i).Some? ==> s[i..] == TailText(MatchTail(s, i).value) && TailShaped(MatchTail(s, i).value)
  {
    var dot := IndexOfChar(s, '.', i);
    if MatchTail(s, i).Some? {
      IndexOfCharFirst(s, '.', i);
      var space := IndexOfChar(s, ' ', dot + 1);
      IndexOfCharFirst(s, ' ', dot + 1);
      var nameEnd := if space == -1 then |s| else space;
      SuffixFlagsSound(s, nameEnd);
      SliceCharFree(s, i, dot, '.');
      SliceCharFree(s, dot + 1, nameEnd, ' ');
      TailSplit(s, i, dot, nameEnd);
    }
  }

  /** A slice free of `c` position by position does not contain `c`. */
  lemma SliceCharFree(s: string, a: nat, b: nat, c: char)
    requires a <= b <= |s| && forall j :: a <= j < b ==> s[j] != c
    ensures c !in s[a..b]
  {
    forall k | 0 <= k < b - a ensures s[a..b][k] != c { assert s[a..b][k] == s[a + k]; }
  }

  /** `s` from `i` cut at the dot `dot` and at `nameEnd`. */
  lemma TailSplit(s: string, i: nat, dot: nat, nameEnd: nat)
    requires i <= dot < nameEnd <= |s| && s[dot] == '.'
    ensures s[i..] == s[i..dot] + "." + s[dot + 1..nameEnd] + s[nameEnd..]
  {
    assert s[i..] == s[i..dot] + [s[dot]] + s[dot + 1..nameEnd] + s[nameEnd..];
  }

  lemma MatchFromSound(s: string, i: nat, group: Option<string>)
    requires i <= |s|
    ensures MatchFrom(s, i, group).Some? ==>
      var m := MatchFrom(s, i, group).value;
      m.moduleGroup == group && s[i..] == DataText(m.dataSource) + TailText(m.tail) && TailShaped(m.tail)
  {
    if DataDotAt(s, i) && MatchTail(s, i + 5).Some? {
      MatchTailSound(s, i + 5);
      DataPrefix(s, i);
    } else {
      MatchTailSound(s, i);
    }
  }

  /** A `data.` at `i` is the data text of a data source. */
  lemma DataPrefix(s: string, i: nat)
    requires DataDotAt(s, i)
    ensures s[i..] == DataText(true) + s[i + 5..]
  {
    DataLiteral();
    assert s[i..i + 5] == "data.";
    assert s[i..] == s[i..i + 5] + s[i + 5..];
  }

  lemma MatchModuleAtSound(s: string, p: nat)
    requires p == 0 || Reachable(s, p)
    ensures MatchModuleAt(s, p).Some? ==> Render(MatchModuleAt(s, p).value) == s && MatchShaped(MatchModuleAt(s, p).value)
  {
    if MatchModuleAt(s, p).Some? {
      var q := IndexOfChar(s, '.', p + 7);
      var m := MatchModuleAt(s, p).value;
      MatchFromSound(s, q + 1, Some(s[..q]));
      GroupAnchorOf(s, p, q);
      DotSplit(s, q, DataText(m.dataSource) + TailText(m.tail));
    }
  }

  /** `s` cut at the dot `q` into the text before it and `rest`. */
  lemma DotSplit(s: string, q: nat, rest: string)
    requires q < |s| && s[q] == '.' && s[q + 1..] == rest
    ensures s == s[..q] + "." + rest
  {
    assert s == s[..q] + [s[q]] + s[q + 1..];
  }

  /** The module group a `module.` at `p` opens ends at the next dot `q`. */
  lemma GroupAnchorOf(s: string, p: nat, q: nat)
    requires p == 0 || Reachable(s, p)
    requires ModuleWordAt(s, p) && p + 6 < |s| && s[p + 6] == '.' && IndexOfChar(s, '.', p + 7) == q
    ensures p + 7 <= q && ModuleAnchor(s[..q], p)
  {
    IndexOfCharFirst(s, '.', p + 7);
    var t := s[..q];
    assert ModuleWordAt(t, p);
    var u := t[p + 7..];
    forall k | 0 <= k < |u| ensures u[k] != '.' { assert u[k] == s[p + 7 + k]; }
    if p > 0 { assert t[..p - 1] == s[..p - 1]; }
  }

  lemma {:induction false} TryModulesSound(s: string, p: nat)
    requires p <= |s|
    ensures TryModules(s, p).Some? ==> Render(TryModules(s, p).value) == s && MatchShaped(TryModules(s, p).value)
    decreases p
  {
    if p == 0 {
      MatchModuleAtSound(s, 0);
    } else if Reachable(s, p) && MatchModuleAt(s, p).Some? {
      MatchModuleAtSound(s, p);
    } else {
      TryModulesSound(s, p - 1);
    }
  }

  /** Whatever the pattern matches, its groups put back together give the
      line, the type has no dot, the name no space, and a module group ends in
      `module.` and a dot-free name. */
  lemma MatchActionLineSound(s: string)
    ensures MatchActionLine(s).Some? ==> Render(MatchActionLine(s).value) == s && MatchShaped(MatchActionLine(s).value)
  {
    TryModulesSound(s, |s|);
    MatchFromSound(s, 0, None);
  }

  // ---------------------------------------------------------------------------
  // Completeness: a line laid out the way Terraform prints a change is read
  // back group by group

  /** No dot in `s` from index `a` up to `b`. */
  predicate DotFree(s: string, a: nat, b: nat)
  {
    forall j :: a <= j < b && j < |s| ==> s[j] != '.'
  }

  lemma SuffixFlagsCompleteWith(s: string, i: nat, ts: string, ns: string, t: bool, n: bool)
    requires i <= |s| && SpellsTainted(ts) && SpellsNewResource(ns)
    requires s[i..] == (if t then ts else "") + (if n then ns else "")
    ensures SuffixFlags(s, i) == Some((t, n))
  {
    if t && !n {
      assert s[i..i + 10] == ts;
      MatchesAtOccurs(s, i, ts);
      TaintedAtSpelled(s, i, ts);
    } else if t && n {
      assert s[i..i + 10] == ts && s[i + 10..i + 34] == ns;
      MatchesAtOccurs(s, i, ts);
      TaintedAtSpelled(s, i, ts);
      MatchesAtOccurs(s, i + 10, ns);
      NewResourceAtSpelled(s, i + 10, ns);
    } else if n {
      assert s[i..i + 24] == ns;
      MatchesAtOccurs(s, i, ns);
      NewResourceAtSpelled(s, i, ns);
    }
  }

  /** The suffix groups take back exactly the suffixes a line was given. */
  lemma SuffixFlagsComplete(s: string, i: nat, t: bool, n: bool)
    requires i <= |s| && s[i..] == SuffixText(t, n)
    ensures SuffixFlags(s, i) == Some((t, n))
  {
    TaintedSpelling();
    NewResourceSpelling();
    SuffixFlagsCompleteWith(s, i, TAINTED_SUFFIX, NEW_RESOURCE_SUFFIX, t, n);
  }

  lemma SuffixTextFactsWith(ts: string, ns: string, t: bool, n: bool)
    requires SpellsTainted(ts) && SpellsNewResource(ns)
    ensures var x := (if t then ts else "") + (if n then ns else "");
      && (x == [] <==> !t && !n)
      && (x != [] ==> x[0] == ' ')
      && '.' !in x
  {
    TaintedNoDot(ts);
    NewResourceNoDot(ns);
  }

  /** A suffix text is empty or starts with a space, and holds no dot. */
  lemma SuffixTextFacts(t: bool, n: bool)
    ensures SuffixText(t, n) == [] <==> !t && !n
    ensures SuffixText(t, n) != [] ==> SuffixText(t, n)[0] == ' '
    ensures '.' !in SuffixText(t, n)
  {
    TaintedSpelling();
    NewResourceSpelling();
    SuffixTextFactsWith(TAINTED_SUFFIX, NEW_RESOURCE_SUFFIX, t, n);
  }

  /** The pieces of `a.b c` from index `i` of `s`. */
  lemma Layout3(s: string, i: nat, a: string, b: string, c: string)
    requires i <= |s| && s[i..] == a + "." + b + c
    ensures i + |a| + 1 + |b| + |c| == |s|
    ensures s[i..i + |a|] == a && s[i + |a|] == '.'
    ensures s[i + |a| + 1..i + |a| + 1 + |b|] == b && s[i + |a| + 1 + |b|..] == c
  {
    var x := a + "." + b + c;
    var d := i + |a|;
    var e := d + 1 + |b|;
    forall j | 0 <= j < |x| ensures s[i + j] == x[j] { assert s[i..][j] == s[i + j]; }
    assert s[d] == x[|a|];
    assert s[i..d] == a by {
      forall j | 0 <= j < |a| ensures s[i..d][j] == a[j] { assert x[j] == a[j]; }
    }
    assert s[d + 1..e] == b by {
      forall j | 0 <= j < |b| ensures s[d + 1..e][j] == b[j] { assert x[|a| + 1 + j] == b[j]; }
    }
    assert s[e..] == c by {
      forall j | 0 <= j < |c| ensures s[e..][j] == c[j] { assert x[|a| + 1 + |b| + j] == c[j]; }
    }
  }

  /** A character missing from a slice is missing at each of its positions. */
  lemma CharFreeSlice(s: string, i: nat, a: string, c: char)
    requires i + |a| <= |s| && s[i..i + |a|] == a && c !in a
    ensures forall j :: i <= j < i + |a| ==> s[j] != c
  {
    forall j | i <= j < i + |a| ensures s[j] != c { assert s[j] == a[j - i]; }
  }

  lemma CharFreeSuffix(s: string, i: nat, a: string, c: char)
    requires i <= |s| && s[i..] == a && c !in a
    ensures forall j :: i <= j < |s| ==> s[j] != c
  {
    forall j | i <= j < |s| ensures s[j] != c { assert s[j] == a[j - i]; }
  }

  /** The layout of `ty.nm` followed by suffix text `sfx` from index `i`,
      stated for any `sfx` that starts with a space and holds no dot. */
  lemma TailLayoutWith(s: string, i: nat, ty: string, nm: string, sfx: string)
    requires i <= |s| && s[i..] == ty + "." + nm + sfx
    requires ty != [] && '.' !in ty && nm != [] && ' ' !in nm
    requires '.' !in sfx && (sfx != [] ==> sfx[0] == ' ')
    ensures var d := i + |ty|; var e := d + 1 + |nm|;
      && i < d && d + 1 < e <= |s| && s[d] == '.'
      && DotFree(s, i, d) && IndexOfChar(s, '.', i) == d
      && ((e == |s| && IndexOfChar(s, ' ', d + 1) == -1) || (e < |s| && IndexOfChar(s, ' ', d + 1) == e))
      && s[i..d] == ty && s[d + 1..e] == nm && s[e..] == sfx
      && ('.' !in nm ==> DotFree(s, d + 1, |s|))
  {
    Layout3(s, i, ty, nm, sfx);
    var d := i + |ty|;
    var e := d + 1 + |nm|;
    CharFreeSlice(s, i, ty, '.');
    IndexOfCharAt(s, '.', i, d);
    CharFreeSlice(s, d + 1, nm, ' ');
    if sfx == [] {
      IndexOfCharFirst(s, ' ', d + 1);
    } else {
      assert s[e] == s[e..][0];
      IndexOfCharAt(s, ' ', d + 1, e);
    }
    if '.' !in nm {
      CharFreeSlice(s, d + 1, nm, '.');
      CharFreeSuffix(s, e, sfx, '.');
    }
  }

  /** Where the dot of a tail stands, and that it is the only one when the
      name has none. */
  lemma TailLayout(s: string, i: nat, t: Tail)
    requires i <= |s| && s[i..] == TailText(t) && TailShaped(t) && '.' !in t.name
    ensures i + |t.resourceType| < |s| && s[i + |t.resourceType|] == '.'
    ensures DotFree(s, i, i + |t.resourceType|) && DotFree(s, i + |t.resourceType| + 1, |s|)
  {
    SuffixTextFacts(t.tainted, t.newResourceRequired);
    TailLayoutWith(s, i, t.resourceType, t.name, SuffixText(t.tainted, t.newResourceRequired));
  }

  /** Where the dot, the name and the suffixes of a tail stand. */
  lemma TailPositions(s: string, i: nat, t: Tail)
    requires i <= |s| && s[i..] == TailText(t) && TailShaped(t)
    ensures var d := i + |t.resourceType|; var e := d + 1 + |t.name|;
      && i < d && d + 1 < e <= |s| && IndexOfChar(s, '.', i) == d
      && ((e == |s| && IndexOfChar(s, ' ', d + 1) == -1) || (e < |s| && IndexOfChar(s, ' ', d + 1) == e))
      && s[i..d] == t.resourceType && s[d + 1..e] == t.name
      && s[e..] == SuffixText(t.tainted, t.newResourceRequired)
  {
    SuffixTextFacts(t.tainted, t.newResourceRequired);
    TailLayoutWith(s, i, t.resourceType, t.name, SuffixText(t.tainted, t.newResourceRequired));
  }

  /** The tail groups take back the type, name and suffixes a tail was given. */
  lemma MatchTailComplete(s: string, i: nat, t: Tail)
    requires i <= |s| && s[i..] == TailText(t) && TailShaped(t)
    ensures MatchTail(s, i) == Some(t)
  {
    TailPositions(s, i, t);
    var d := i + |t.resourceType|;
    var e := d + 1 + |t.name|;
    SuffixFlagsComplete(s, e, t.tainted, t.newResourceRequired);
    MatchTailIs(s, i, d, e, (t.tainted, t.newResourceRequired));
  }

  lemma MatchTailIs(s: string, i: nat, d: nat, e: nat, flags: (bool, bool))
    requires i < d && d + 1 < e <= |s| && IndexOfChar(s, '.', i) == d
    requires (e == |s| && IndexOfChar(s, ' ', d + 1) == -1) || (e < |s| && IndexOfChar(s, ' ', d + 1) == e)
    requires SuffixFlags(s, e) == Some(flags)
    ensures MatchTail(s, i) == Some(Tail(s[i..d], s[d + 1..e], flags.0, flags.1))
  {
  }

  /** With no dot left, neither `data.` nor a tail can match. */
  lemma MatchFromNoDot(s: string, i: nat, group: Option<string>)
    requires i <= |s| && DotFree(s, i, |s|)
    ensures MatchFrom(s, i, group).None?
  {
    IndexOfCharFirst(s, '.', i);
    if i + 5 <= |s| { IndexOfCharFirst(s, '.', i + 5); }
  }

  /** `data.` and the tail groups take back what a line was given; a type
      `data` without `data.` before it stays the type when the name has no dot. */
  lemma MatchFromComplete(s: string, i: nat, group: Option<string>, d: bool, t: Tail)
    requires i <= |s| && s[i..] == DataText(d) + TailText(t) && TailShaped(t) && '.' !in t.name
    ensures MatchFrom(s, i, group) == Some(ActionMatch(group, d, t))
  {
    if d {
      DataLiteral();
      assert s[i..i + 5] == "data." by { assert s[i..][..5] == s[i..i + 5]; }
      assert DataDotAt(s, i) by {
        assert s[i] == s[i..i + 5][0] && s[i + 1] == s[i..i + 5][1] && s[i + 2] == s[i..i + 5][2];
        assert s[i + 3] == s[i..i + 5][3] && s[i + 4] == s[i..i + 5][4];
      }
      assert s[i + 5..] == TailText(t) by { assert s[i..][5..] == s[i + 5..]; }
      MatchTailComplete(s, i + 5, t);
      MatchFromData(s, i, group, t);
    } else {
      assert s[i..] == TailText(t);
      MatchTailComplete(s, i, t);
      if DataDotAt(s, i) {
        TailLayout(s, i, t);
        MatchFromNoDotTail(s, i);
      }
      MatchFromPlain(s, i, group, t);
    }
  }

  lemma MatchFromData(s: string, i: nat, group: Option<string>, t: Tail)
    requires i + 5 <= |s| && DataDotAt(s, i) && MatchTail(s, i + 5) == Some(t)
    ensures MatchFrom(s, i, group) == Some(ActionMatch(group, true, t))
  {
  }

  lemma MatchFromPlain(s: string, i: nat, group: Option<string>, t: Tail)
    requires i <= |s| && (i + 5 <= |s| && DataDotAt(s, i) ==> MatchTail(s, i + 5).None?) && MatchTail(s, i) == Some(t)
    ensures MatchFrom(s, i, group) == Some(ActionMatch(group, false, t))
  {
  }

  lemma MatchFromNoDotTail(s: string, i: nat)
    requires i + 5 <= |s| && DataDotAt(s, i) && DotFree(s, i + 5, |s|)
    ensures MatchTail(s, i + 5).None?
  {
    IndexOfCharFirst(s, '.', i + 5);
  }

  /** Anchors whose preceding character is not a dot are passed over. */
  lemma {:induction false} DotFreeSkip(s: string, a: nat, b: nat)
    requires a <= b <= |s| && DotFree(s, a, b)
    ensures TryModules(s, b) == TryModules(s, a)
    decreases b - a
  {
    if a < b {
      assert !Reachable(s, b);
      DotFreeSkip(s, a, b - 1);
    }
  }

  /** A `module.` needs a dot six letters on and a further dot, so one dot at
      most leaves no module group. */
  lemma ModuleAtOneDot(s: string, p: nat, dot: nat)
    requires p <= dot < |s| && DotFree(s, p, dot) && DotFree(s, dot + 1, |s|)
    ensures MatchModuleAt(s, p).None?
  {
    if ModuleWordAt(s, p) && p + 6 < |s| && s[p + 6] == '.' {
      IndexOfCharFirst(s, '.', p + 7);
    }
  }

  /** No anchor inside a tail works. */
  lemma TailSkip(s: string, ts: nat, t: Tail)
    requires ts <= |s| && s[ts..] == TailText(t) && TailShaped(t) && '.' !in t.name
    ensures TryModules(s, |s|) == TryModules(s, ts) && MatchModuleAt(s, ts).None?
  {
    TailLayout(s, ts, t);
    var dot := ts + |t.resourceType|;
    DotFreeSkip(s, dot + 1, |s|);
    ModuleAtOneDot(s, dot + 1, dot + 1);
    StepFail(s, dot + 1);
    DotFreeSkip(s, ts, dot);
    ModuleAtOneDot(s, ts, dot);
  }

  /** An anchor whose module group does not match hands over to the next one to the left. */
  lemma StepFail(s: string, p: nat)
    requires 1 <= p <= |s| && MatchModuleAt(s, p).None?
    ensures TryModules(s, p) == TryModules(s, p - 1)
  {
  }

  /** What is left after the module group: no anchor from its start on works. */
  lemma RestSkip(s: string, r: nat, d: bool, t: Tail)
    requires r <= |s| && s[r..] == DataText(d) + TailText(t) && TailShaped(t) && '.' !in t.name
    ensures TryModules(s, |s|) == TryModules(s, r) && MatchModuleAt(s, r).None?
  {
    if d {
      DataSkip(s, r, t);
    } else {
      assert s[r..] == TailText(t);
      TailSkip(s, r, t);
    }
  }

  /** No anchor inside `data.` followed by a tail works. */
  lemma DataSkip(s: string, r: nat, t: Tail)
    requires r <= |s| && s[r..] == "data." + TailText(t) && TailShaped(t) && '.' !in t.name
    ensures TryModules(s, |s|) == TryModules(s, r) && MatchModuleAt(s, r).None?
  {
    DataLiteral();
    assert r + 5 <= |s|;
    assert s[r + 5..] == TailText(t) by { assert s[r..][5..] == s[r + 5..]; }
    TailSkip(s, r + 5, t);
    assert s[r..r + 5] == "data." by { assert s[r..][..5] == s[r..r + 5]; }
    assert s[r] == 'd' && s[r + 1] == 'a' && s[r + 2] == 't' && s[r + 3] == 'a' by {
      assert s[r] == s[r..r + 5][0] && s[r + 1] == s[r..r + 5][1] && s[r + 2] == s[r..r + 5][2] && s[r + 3] == s[r..r + 5][3];
    }
    StepFail(s, r + 5);
    DotFreeSkip(s, r, r + 4);
  }

  /** Where the module group and what follows it stand in a rendered line. */
  lemma GroupLayout(s: string, g: string, rest: string)
    requires s == g + "." + rest
    ensures |s| == |g| + 1 + |rest| && s[|g|] == '.' && s[|g| + 1..] == rest
    ensures forall j :: 0 <= j < |g| ==> s[j] == g[j]
  {
    assert s[|g| + 1..] == rest by {
      forall j | 0 <= j < |rest| ensures s[|g| + 1..][j] == rest[j] { assert s[|g| + 1 + j] == rest[j]; }
    }
  }

  /** The anchor right after the group's last `module.` fails: a `module.`
      there would need the last name to be `module` itself, and then the dot
      of `data.` to close the group. */
  lemma InnerAnchorFails(s: string, g: string, p: nat, d: bool, t: Tail)
    requires ModuleAnchor(g, p) && TailShaped(t) && '.' !in t.name
    requires |s| == |g| + 1 + |DataText(d) + TailText(t)| && s[|g|] == '.'
    requires s[|g| + 1..] == DataText(d) + TailText(t) && forall j :: 0 <= j < |g| ==> s[j] == g[j]
    requires d ==> !(|g| == p + 13 && ModuleWordAt(g, p + 7))
    ensures MatchModuleAt(s, p + 7).None?
  {
    if ModuleWordAt(s, p + 7) && p + 13 < |s| && s[p + 13] == '.' {
      forall j | p + 7 <= j < |g| ensures g[j] != '.' { assert g[j] == g[p + 7..][j - p - 7]; }
      assert |g| == p + 13;
      assert ModuleWordAt(g, p + 7);
      assert !d;
      assert s[|g| + 1..] == TailText(t);
      TailLayout(s, |g| + 1, t);
      var dot := |g| + 1 + |t.resourceType|;
      IndexOfCharAt(s, '.', p + 14, dot);
      MatchFromNoDot(s, dot + 1, Some(s[..dot]));
    }
  }

  /** The anchor at the group's last `module.` reads the group up to its end
      and the rest of the line after it. */
  /** A `module.` anchor of the group `g` that `s` starts with reads `g`
      and goes on after the dot that follows it. */
  lemma AnchorGroup(s: string, g: string, p: nat)
    requires ModuleAnchor(g, p) && |g| < |s| && s[|g|] == '.' && forall j :: 0 <= j < |g| ==> s[j] == g[j]
    ensures MatchModuleAt(s, p) == MatchFrom(s, |g| + 1, Some(g))
  {
    assert ModuleWordAt(s, p) && s[p + 6] == '.' by {
      assert s[p] == g[p] && s[p + 1] == g[p + 1] && s[p + 2] == g[p + 2] && s[p + 3] == g[p + 3];
      assert s[p + 4] == g[p + 4] && s[p + 5] == g[p + 5] && s[p + 6] == g[p + 6];
    }
    forall j | p + 7 <= j < |g| ensures s[j] != '.' { assert s[j] == g[p + 7..][j - p - 7]; }
    IndexOfCharAt(s, '.', p + 7, |g|);
    assert s[..|g|] == g;
  }

  /** Below the anchor: before the chosen `module.` the anchor is reachable,
      or it stands at the very start. */
  lemma AnchorReached(s: string, g: string, p: nat)
    requires ModuleAnchor(g, p) && |g| < |s| && s[|g|] == '.' && forall j :: 0 <= j < |g| ==> s[j] == g[j]
    requires MatchFrom(s, |g| + 1, Some(g)).Some?
    ensures TryModules(s, p) == MatchFrom(s, |g| + 1, Some(g))
  {
    AnchorGroup(s, g, p);
    if p > 0 {
      assert s[..p - 1] == g[..p - 1];
      assert Reachable(s, p);
    }
  }

  /** A line whose module group ends in the `module.` at `p` of `g` is read
      back with exactly that group, `data.` flag and tail. */
  lemma GroupLineComplete(g: string, p: nat, d: bool, t: Tail)
    requires ModuleAnchor(g, p) && TailShaped(t) && '.' !in t.name
    requires d ==> !(|g| == p + 13 && ModuleWordAt(g, p + 7))
    ensures MatchActionLine(Render(ActionMatch(Some(g), d, t))) == Some(ActionMatch(Some(g), d, t))
  {
    var s := Render(ActionMatch(Some(g), d, t));
    GroupLayout(s, g, DataText(d) + TailText(t));
    AnchorsDown(s, g, p, d, t);
  }

  /** Trying the anchors from the end of the line down reaches the group's
      last `module.` before any other works. */
  lemma AnchorsDown(s: string, g: string, p: nat, d: bool, t: Tail)
    requires ModuleAnchor(g, p) && TailShaped(t) && '.' !in t.name
    requires d ==> !(|g| == p + 13 && ModuleWordAt(g, p + 7))
    requires |s| == |g| + 1 + |DataText(d) + TailText(t)| && s[|g|] == '.'
    requires s[|g| + 1..] == DataText(d) + TailText(t) && forall j :: 0 <= j < |g| ==> s[j] == g[j]
    ensures TryModules(s, |s|) == Some(ActionMatch(Some(g), d, t))
  {
    RestFacts(s, g, p, d, t);
    GroupFound(s, g, p, ActionMatch(Some(g), d, t));
  }

  /** What the rest of the line after the group tells the search. */
  lemma RestFacts(s: string, g: string, p: nat, d: bool, t: Tail)
    requires ModuleAnchor(g, p) && TailShaped(t) && '.' !in t.name
    requires d ==> !(|g| == p + 13 && ModuleWordAt(g, p + 7))
    requires |s| == |g| + 1 + |DataText(d) + TailText(t)| && s[|g|] == '.'
    requires s[|g| + 1..] == DataText(d) + TailText(t) && forall j :: 0 <= j < |g| ==> s[j] == g[j]
    ensures TryModules(s, |s|) == TryModules(s, |g| + 1)
    ensures MatchModuleAt(s, |g| + 1).None? && MatchModuleAt(s, p + 7).None?
    ensures MatchFrom(s, |g| + 1, Some(g)) == Some(ActionMatch(Some(g), d, t))
  {
    RestSkip(s, |g| + 1, d, t);
    InnerAnchorFails(s, g, p, d, t);
    MatchFromComplete(s, |g| + 1, Some(g), d, t);
  }

  /** The search from the end reaches the anchor `p` and reads the line
      there. */
  lemma GroupFound(s: string, g: string, p: nat, m: ActionMatch)
    requires ModuleAnchor(g, p) && |g| < |s| && s[|g|] == '.' && forall j :: 0 <= j < |g| ==> s[j] == g[j]
    requires TryModules(s, |s|) == TryModules(s, |g| + 1)
    requires MatchModuleAt(s, |g| + 1).None? && MatchModuleAt(s, p + 7).None?
    requires MatchFrom(s, |g| + 1, Some(g)) == Some(m)
    ensures TryModules(s, |s|) == Some(m)
  {
    GroupDescent(s, g, p);
    AnchorReached(s, g, p);
  }

  /** Between the dot that closes the group and its chosen `module.`, no
      anchor matches: the search walks down to `p`. */
  lemma GroupDescent(s: string, g: string, p: nat)
    requires ModuleAnchor(g, p) && |g| < |s| && s[|g|] == '.' && forall j :: 0 <= j < |g| ==> s[j] == g[j]
    requires MatchModuleAt(s, |g| + 1).None? && MatchModuleAt(s, p + 7).None?
    ensures TryModules(s, |g| + 1) == TryModules(s, p)
  {
    StepFail(s, |g| + 1);
    forall j | p + 7 <= j < |g| ensures s[j] != '.' { assert s[j] == g[p + 7..][j - p - 7]; }
    DotFreeSkip(s, p + 7, |g|);
    StepFail(s, p + 7);
    assert ModuleWordAt(s, p) by {
      assert s[p] == g[p] && s[p + 1] == g[p + 1] && s[p + 2] == g[p + 2];
      assert s[p + 3] == g[p + 3] && s[p + 4] == g[p + 4] && s[p + 5] == g[p + 5];
    }
    ModuleWordDotFree(s, p);
    DotFreeSkip(s, p, p + 6);
  }

  lemma ModuleWordDotFree(s: string, p: nat)
    requires ModuleWordAt(s, p)
    ensures DotFree(s, p, p + 6)
  {
    forall j | p <= j < p + 6 && j < |s| ensures s[j] != '.' {
      assert j == p || j == p + 1 || j == p + 2 || j == p + 3 || j == p + 4 || j == p + 5;
    }
  }

  /** A line with no module group is read back without one. */
  lemma PlainLineComplete(d: bool, t: Tail)
    requires TailShaped(t) && '.' !in t.name
    ensures MatchActionLine(Render(ActionMatch(None, d, t))) == Some(ActionMatch(None, d, t))
  {
    var s := Render(ActionMatch(None, d, t));
    assert s[0..] == DataText(d) + TailText(t);
    RestSkip(s, 0, d, t);
    MatchFromComplete(s, 0, None, d, t);
  }

  /** The matches a rendered line is read back as: a name without dots (a dot
      in the name could be taken for the type's), and, for a data source in a
      module, a last module name other than `module` (`module.data.` would
      otherwise close the module group). */
  predicate Readable(m: ActionMatch)
  {
    && TailShaped(m.tail) && '.' !in m.tail.name
    && (m.moduleGroup.Some? ==>
          exists p: nat :: p <= |m.moduleGroup.value| && ModuleAnchor(m.moduleGroup.value, p)
            && (m.dataSource ==> !(|m.moduleGroup.value| == p + 13 && ModuleWordAt(m.moduleGroup.value, p + 7))))
  }

  /** Reading a rendered line gives back the match it was rendered from. */
  lemma RenderRoundTrip(m: ActionMatch)
    requires Readable(m)
    ensures MatchActionLine(Render(m)) == Some(m)
  {
    if m.moduleGroup.Some? {
      var g := m.moduleGroup.value;
      var p: nat :| p <= |g| && ModuleAnchor(g, p) && (m.dataSource ==> !(|g| == p + 13 && ModuleWordAt(g, p + 7)));
      GroupLineComplete(g, p, m.dataSource, m.tail);
    } else {
      PlainLineComplete(m.dataSource, m.tail);
    }
  }
}
