/** parseModulePath (src/index.ts:99-102): the dotted module path named by the
    module prefix of a change line, such as `module.test1.module.test2`. The
    code splits on the regular expression `/\.?module./`, whose unescaped final
    `.` matches any character, so a module name that itself contains the
    letters `module` is cut apart. The function as written is what a change
    record's module path is computed with; the input that shows the cut is
    kept here, beside a corrected function that states what the code
    evidently intends. */
module ModulePath {
  import opened JsString

  /** The six letters `module` stand in `s` from index `p` on. */
  predicate ModuleWordAt(s: string, p: nat)
  {
    p + 6 <= |s| && s[p] == 'm' && s[p + 1] == 'o' && s[p + 2] == 'd'
    && s[p + 3] == 'u' && s[p + 4] == 'l' && s[p + 5] == 'e'
  }

  lemma ModuleWordAtIsSubstringTest(s: string, p: nat)
    ensures ModuleWordAt(s, p) <==> p + 6 <= |s| && Substring(s, p, p + 6) == "module"
  {
    if p + 6 <= |s| && Substring(s, p, p + 6) == "module" {
      assert s[p..p + 6][0] == s[p];
    }
  }

  /** The Terraform address of a nest of modules: `module.a.module.b` for the
      names `a`, `b`. */
  function ModulePrefix(names: seq<string>): string
  {
    "module." + Join(names, ".module.")
  }

  // ---------------------------------------------------------------------------
  // As written: String.prototype.split with /\.?module./

  /** Where a match of `/\.?module./` that starts exactly at `q` ends: the
      optional dot is tried first, and the final `.` takes any character but a
      line terminator. */
  function SeparatorEnd(s: string, q: nat): (r: Option<nat>)
    ensures r.Some? ==> q + 7 <= r.value <= |s|
  {
    if q < |s| && s[q] == '.' && ModuleWordAt(s, q + 1) && q + 7 < |s| && !IsLineTerminator(s[q + 7]) then Some(q + 8)
    else if ModuleWordAt(s, q) && q + 6 < |s| && !IsLineTerminator(s[q + 6]) then Some(q + 7)
    else None
  }

  /** The split loop of ECMAScript's RegExp.prototype[@@split]: `p` is where the
      current piece starts, `q` the position a match is tried at. A match ends
      the piece and the next one starts after it; at the end of the text the
      last piece is what remains. */
  function SplitFrom(s: string, p: nat, q: nat): (r: seq<string>)
    requires p <= q <= |s|
    ensures |r| >= 1
    decreases |s| - q
  {
    if q == |s| then [s[p..]]
    else match SeparatorEnd(s, q)
      case None => SplitFrom(s, p, q + 1)
      case Some(e) => [s[p..q]] + SplitFrom(s, e, e)
  }

  /** `rawModuleStr.split(/\.?module./).slice(1).join('.')`, as the code has it. */
  function ParseModulePathAsWritten(raw: string): string
  {
    Join(SplitFrom(raw, 0, 0)[1..], ".")
  }

  /** A module name the regular expression does not cut: no dot and no letters
      `module` in it. */
  predicate PlainName(x: string)
  {
    '.' !in x && forall k: nat :: k < |x| ==> !ModuleWordAt(x, k)
  }

  /** Positions with no match do not end the piece. */
  lemma {:induction false} SkipUnmatched(s: string, p: nat, q: nat, q2: nat)
    requires p <= q <= q2 <= |s|
    requires forall k: nat :: q <= k < q2 ==> SeparatorEnd(s, k).None?
    ensures SplitFrom(s, p, q) == SplitFrom(s, p, q2)
    decreases q2 - q
  {
    if q < q2 {
      SkipUnmatched(s, p, q + 1, q2);
    }
  }

  /** No match starts inside a plain name that is followed by the end of the
      text, a dot or the letter `m`. */
  lemma PlainNameUnmatched(s: string, a: nat, x: string)
    requires a + |x| <= |s| && s[a..a + |x|] == x && PlainName(x)
    requires a + |x| == |s| || s[a + |x|] == '.' || s[a + |x|] == 'm'
    ensures forall k: nat :: a <= k < a + |x| ==> SeparatorEnd(s, k).None?
  {
    forall j | 0 <= j < |x| ensures x[j] == s[a + j] {
      assert s[a..a + |x|][j] == s[a + j];
    }
    forall k: nat | a <= k < a + |x| ensures SeparatorEnd(s, k).None? {
      assert s[k] == x[k - a];
      if ModuleWordAt(s, k) && k + 6 <= a + |x| {
        assert ModuleWordAt(x, k - a);
      }
    }
  }

  /** The word `module`, recognised letter by letter. */
  predicate IsModuleWord(t: string)
  {
    |t| == 6 && ModuleWordAt(t, 0)
  }

  // The proofs below take the word `module` as a parameter `w` with
  // IsModuleWord(w), so that they never compute with the literal itself;
  // the literal facts are gathered in the two small lemmas that follow.

  lemma ModuleLiterals()
    ensures IsModuleWord("module") && '.' !in "module"
    ensures ".module." == ['.'] + "module" + ['.']
  {
  }

  lemma ModuleDotLiteral(j: string)
    ensures "module." + j == "module" + ['.'] + j
  {
  }

  /** A slice equal to the word `module` is recognised as the word. */
  lemma ModuleWordAtCopy(s: string, p: nat, w: string)
    requires IsModuleWord(w) && p + 6 <= |s| && s[p..p + 6] == w
    ensures ModuleWordAt(s, p)
  {
    assert s[p] == s[p..p + 6][0] && s[p + 1] == s[p..p + 6][1] && s[p + 2] == s[p..p + 6][2];
    assert s[p + 3] == s[p..p + 6][3] && s[p + 4] == s[p..p + 6][4] && s[p + 5] == s[p..p + 6][5];
  }

  /** The layout of `x.module.rest` from index `e` of `s`. */
  lemma SeparatorAfterName(s: string, e: nat, x: string, w: string, rest: string)
    requires IsModuleWord(w) && e <= |s| && s[e..] == x + (['.'] + w + ['.']) + rest
    ensures e + |x| + 8 <= |s|
    ensures s[e..e + |x|] == x && s[e + |x|] == '.' && s[e + |x| + 7] == '.'
    ensures ModuleWordAt(s, e + |x| + 1)
    ensures s[e + |x| + 8..] == rest
  {
    var t := x + (['.'] + w + ['.']) + rest;
    var b := e + |x|;
    forall j | 0 <= j < |t| ensures s[e + j] == t[j] {
      assert s[e..][j] == s[e + j];
    }
    assert s[e..b] == x by {
      forall j | 0 <= j < |x| ensures s[e..b][j] == x[j] { assert t[j] == x[j]; }
    }
    assert s[b] == t[|x|];
    assert s[b + 7] == t[|x| + 7];
    assert s[b + 1..b + 7] == w by {
      forall j | 0 <= j < 6 ensures s[b + 1..b + 7][j] == w[j] { assert t[|x| + 1 + j] == w[j]; }
    }
    ModuleWordAtCopy(s, b + 1, w);
    assert s[b + 8..] == rest by {
      forall j | 0 <= j < |rest| ensures s[b + 8..][j] == rest[j] { assert t[|x| + 8 + j] == rest[j]; }
    }
  }

  /** After a `.module.` separator, the remaining names split off one by one. */
  lemma {:induction false} SplitPlainNames(s: string, e: nat, names: seq<string>, w: string)
    requires IsModuleWord(w)
    requires names != [] && forall i :: 0 <= i < |names| ==> PlainName(names[i])
    requires e <= |s| && s[e..] == Join(names, ['.'] + w + ['.'])
    ensures SplitFrom(s, e, e) == names
    decreases |names|
  {
    var x := names[0];
    if |names| == 1 {
      PlainNameUnmatched(s, e, x);
      SkipUnmatched(s, e, e, |s|);
    } else {
      var rest := Join(names[1..], ['.'] + w + ['.']);
      var b := e + |x|;
      SeparatorAfterName(s, e, x, w, rest);
      PlainNameUnmatched(s, e, x);
      SkipUnmatched(s, e, e, b);
      assert SeparatorEnd(s, b) == Some(b + 8);
      SplitPlainNames(s, b + 8, names[1..], w);
    }
  }

  lemma AsWrittenOnPlainNamesOf(names: seq<string>, w: string)
    requires IsModuleWord(w)
    requires names != [] && forall i :: 0 <= i < |names| ==> PlainName(names[i])
    ensures ParseModulePathAsWritten(w + ['.'] + Join(names, ['.'] + w + ['.'])) == Join(names, ".")
  {
    var j := Join(names, ['.'] + w + ['.']);
    var s := w + ['.'] + j;
    assert s[..6] == w;
    ModuleWordAtCopy(s, 0, w);
    assert s[6] == '.';
    assert SeparatorEnd(s, 0) == Some(7);
    assert s[7..] == j;
    SplitPlainNames(s, 7, names, w);
    assert SplitFrom(s, 0, 0) == [""] + names;
    assert SplitFrom(s, 0, 0)[1..] == names;
  }

  /** As written, the function does what its comment says for module names
      without the letters `module`: `module.test1.module.test2` gives
      `test1.test2`. */
  lemma AsWrittenOnPlainNames(names: seq<string>)
    requires names != [] && forall i :: 0 <= i < |names| ==> PlainName(names[i])
    ensures ParseModulePathAsWritten(ModulePrefix(names)) == Join(names, ".")
  {
    ModuleLiterals();
    ModuleDotLiteral(Join(names, ".module."));
    AsWrittenOnPlainNamesOf(names, "module");
  }

  lemma AsWrittenCutsNameOf(x: string, c: char, y: string, w: string)
    requires IsModuleWord(w)
    requires PlainName(x) && PlainName(y) && c != '.' && !IsLineTerminator(c)
    ensures ParseModulePathAsWritten(w + ['.'] + x + w + [c] + y) == x + "." + y
  {
    var s := w + ['.'] + x + w + [c] + y;
    var b := 7 + |x|;
    assert s[..6] == w;
    ModuleWordAtCopy(s, 0, w);
    assert s[6] == '.';
    assert SeparatorEnd(s, 0) == Some(7);
    assert s[7..b] == x;
    assert s[b..b + 6] == w;
    ModuleWordAtCopy(s, b, w);
    assert s[b] == 'm';
    PlainNameUnmatched(s, 7, x);
    SkipUnmatched(s, 7, 7, b);
    assert s[b + 6] == c;
    assert SeparatorEnd(s, b) == Some(b + 7);
    assert s[b + 7..] == y;
    PlainNameUnmatched(s, b + 7, y);
    SkipUnmatched(s, b + 7, b + 7, |s|);
    assert SplitFrom(s, 0, 0) == ["", x, y];
    assert SplitFrom(s, 0, 0)[1..] == [x, y];
    assert Join([x, y], ".") == x + "." + Join([y], ".");
  }

  lemma CutNameLiteral(x: string, c: char, y: string)
    ensures "module." + x + "module" + [c] + y == "module" + ['.'] + x + "module" + [c] + y
  {
  }

  /** As written, a module named `x module c y` (one character `c` after the
      letters `module`) comes out as the two names `x` and `y`. */
  lemma AsWrittenCutsName(x: string, c: char, y: string)
    requires PlainName(x) && PlainName(y) && c != '.' && !IsLineTerminator(c)
    ensures ParseModulePathAsWritten("module." + x + "module" + [c] + y) == x + "." + y
  {
    ModuleLiterals();
    CutNameLiteral(x, c, y);
    AsWrittenCutsNameOf(x, c, y, "module");
  }

  // ---------------------------------------------------------------------------
  // Corrected: the name after each `module` segment of the dotted address

  /** The segment after each `module` segment, in order. */
  function ModuleNames(segments: seq<string>): seq<string>
    decreases |segments|
  {
    if |segments| < 2 then []
    else if IsModuleWord(segments[0]) then [segments[1]] + ModuleNames(segments[2..])
    else ModuleNames(segments[1..])
  }

  /** The module path: the module names of the address joined by dots. */
  function ParseModulePath(raw: string): string
  {
    Join(ModuleNames(Split(raw, '.')), ".")
  }

  /** The segments of `a.module.b.module.c` alternate between names and `module`. */
  lemma {:induction false} SplitNames(names: seq<string>, w: string)
    requires IsModuleWord(w) && '.' !in w
    requires names != [] && forall i :: 0 <= i < |names| ==> '.' !in names[i]
    ensures ModuleNames([w] + Split(Join(names, ['.'] + w + ['.']), '.')) == names
    decreases |names|
  {
    var x := names[0];
    var sep := ['.'] + w + ['.'];
    if |names| == 1 {
      SplitWhole(x, '.');
      assert [w] + Split(Join(names, sep), '.') == [w, x];
    } else {
      var rest := Join(names[1..], sep);
      assert Join(names, sep) == x + ['.'] + (w + ['.'] + rest);
      SplitAround(x, '.', w + ['.'] + rest);
      SplitAround(w, '.', rest);
      SplitNames(names[1..], w);
      var segs := [w] + Split(Join(names, sep), '.');
      assert segs == [w, x] + ([w] + Split(rest, '.'));
      assert segs[2..] == [w] + Split(rest, '.');
    }
  }

  /** The module path of a nest of modules is their names joined by dots,
      whatever letters the names hold. */
  lemma ModulePathOfPrefix(names: seq<string>)
    requires names != [] && forall i :: 0 <= i < |names| ==> '.' !in names[i]
    ensures ParseModulePath(ModulePrefix(names)) == Join(names, ".")
  {
    ModuleLiterals();
    var j := Join(names, ".module.");
    ModuleDotLiteral(j);
    SplitAround("module", '.', j);
    SplitNames(names, "module");
  }

  lemma ExampleSpelling()
    ensures "module.vpc_module_a" == "module." + "vpc_" + "module" + ['_'] + "a"
    ensures ModulePrefix(["vpc_module_a"]) == "module.vpc_module_a"
    ensures "vpc_" + "." + "a" == "vpc_.a"
  {
  }

  /** The module `vpc_module_a`: the code as written reports `vpc_.a`, the
      corrected function `vpc_module_a`. */
  lemma CutModuleNameExample()
    ensures ParseModulePathAsWritten("module.vpc_module_a") == "vpc_.a"
    ensures ParseModulePath("module.vpc_module_a") == "vpc_module_a"
  {
    ExampleSpelling();
    assert PlainName("vpc_") && PlainName("a");
    AsWrittenCutsName("vpc_", '_', "a");
    ModulePathOfPrefix(["vpc_module_a"]);
  }
}
