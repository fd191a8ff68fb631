/** The JavaScript string built-ins the plan parser relies on, written out with
    the clamping and searching rules of String.prototype. Characters are Unicode
    scalar values and positions index them one by one. */
module JsString {

  datatype Option<+T> = None | Some(value: T)

  /** Clamps an index argument into [0, len], as substring and indexOf do. */
  function Clamp(i: int, len: nat): (r: nat)
    ensures r <= len
    ensures 0 <= i <= len ==> r == i
    ensures i < 0 ==> r == 0
    ensures i > len ==> r == len
  {
    if i < 0 then 0 else if i > len then len else i
  }

  /** String.prototype.substring(start, end): both indices are clamped and,
      if they cross, swapped. */
  function Substring(s: string, start: int, end: int): (r: string)
    ensures 0 <= start <= end <= |s| ==> r == s[start..end]
    ensures |s| <= start ==> r == s[Clamp(end, |s|)..]
  {
    var a := Clamp(start, |s|);
    var b := Clamp(end, |s|);
    if a <= b then s[a..b] else s[b..a]
  }

  /** String.prototype.substring(start) with the end left out. */
  function SubstringFrom(s: string, start: int): (r: string)
    ensures 0 <= start <= |s| ==> r == s[start..]
    ensures |s| <= start ==> r == []
  {
    Substring(s, start, |s|)
  }

  predicate OccursAt(s: string, pat: string, k: int)
  {
    0 <= k && k + |pat| <= |s| && s[k..k + |pat|] == pat
  }

  /** String.prototype.indexOf(pat, from): the first occurrence at or after the
      clamped start, or -1. */
  function IndexOf(s: string, pat: string, from: int): (r: int)
    ensures r == -1 || (Clamp(from, |s|) <= r && OccursAt(s, pat, r))
    ensures r != -1 ==> forall k :: Clamp(from, |s|) <= k < r ==> !OccursAt(s, pat, k)
    ensures r == -1 <==> forall k :: Clamp(from, |s|) <= k ==> !OccursAt(s, pat, k)
    decreases |s| - Clamp(from, |s|)
  {
    var k := Clamp(from, |s|);
    if k + |pat| > |s| then -1
    else if s[k..k + |pat|] == pat then k
    else IndexOf(s, pat, k + 1)
  }

  /** `pat` stands in `s` from index `k` on, compared character by character. */
  predicate MatchesAt(s: string, k: nat, pat: string)
    decreases |pat|
  {
    pat == [] || (k < |s| && s[k] == pat[0] && MatchesAt(s, k + 1, pat[1..]))
  }

  lemma {:induction false} MatchesAtOccurs(s: string, k: nat, pat: string)
    ensures MatchesAt(s, k, pat) ==> k + |pat| <= |s| || pat == []
    ensures k <= |s| ==> (MatchesAt(s, k, pat) <==> OccursAt(s, pat, k))
    decreases |pat|
  {
    if pat != [] && k < |s| {
      MatchesAtOccurs(s, k + 1, pat[1..]);
      if k + |pat| <= |s| {
        assert s[k..k + |pat|] == [s[k]] + s[k + 1..k + 1 + |pat[1..]|];
        assert pat == [pat[0]] + pat[1..];
      }
    }
  }

  /** MatchesAt holds exactly when every character of `pat` stands at its
      place from `k` on. */
  lemma {:induction false} MatchesAtEach(s: string, k: nat, pat: string)
    requires k <= |s|
    ensures MatchesAt(s, k, pat) <==> k + |pat| <= |s| && forall i :: 0 <= i < |pat| ==> s[k + i] == pat[i]
    decreases |pat|
  {
    if pat != [] && k < |s| {
      MatchesAtEach(s, k + 1, pat[1..]);
      if MatchesAt(s, k, pat) {
        forall i | 0 <= i < |pat| ensures s[k + i] == pat[i] {
          if i > 0 { assert s[k + 1 + (i - 1)] == pat[1..][i - 1]; }
        }
      }
      if k + |pat| <= |s| && forall i :: 0 <= i < |pat| ==> s[k + i] == pat[i] {
        forall i | 0 <= i < |pat[1..]| ensures s[k + 1 + i] == pat[1..][i] {
          assert s[k + (i + 1)] == pat[i + 1];
        }
        assert s[k + 0] == pat[0];
        assert MatchesAt(s, k + 1, pat[1..]);
      }
    }
  }

  /** The character-by-character comparison is the substring comparison
      `s.substring(k, k + |pat|) === pat`. */
  lemma MatchesAtIsSubstringTest(s: string, k: nat, pat: string)
    ensures MatchesAt(s, k, pat) <==> Substring(s, k, k + |pat|) == pat
  {
    MatchesAtOccurs(s, k, pat);
    if k + |pat| > |s| && pat != [] {
      assert |Substring(s, k, k + |pat|)| < |pat|;
    }
  }

  /** String.prototype.includes(pat). */
  predicate Contains(s: string, pat: string)
  {
    IndexOf(s, pat, 0) != -1
  }

  /** indexOf for a single-character pattern, started at a natural index. */
  function IndexOfChar(s: string, c: char, from: nat): (r: int)
    ensures r == -1 || (from <= r < |s| && s[r] == c)
    decreases |s| - from
  {
    if from >= |s| then -1
    else if s[from] == c then from
    else IndexOfChar(s, c, from + 1)
  }

  /** The position found is the first occurrence of `c` at or after `from`,
      and -1 means there is none. */
  lemma {:induction false} IndexOfCharFirst(s: string, c: char, from: nat)
    ensures IndexOfChar(s, c, from) != -1 ==> forall k :: from <= k < IndexOfChar(s, c, from) ==> s[k] != c
    ensures IndexOfChar(s, c, from) == -1 <==> forall k :: from <= k < |s| ==> s[k] != c
    decreases |s| - from
  {
    if from < |s| && s[from] != c {
      IndexOfCharFirst(s, c, from + 1);
    }
  }

  /** The first occurrence at or after `from`, when it is known, is what
      indexOf finds. */
  lemma {:induction false} IndexOfCharAt(s: string, c: char, from: nat, k: nat)
    requires from <= k < |s| && s[k] == c
    requires forall j :: from <= j < k ==> s[j] != c
    ensures IndexOfChar(s, c, from) == k
    decreases k - from
  {
    if from < k {
      IndexOfCharAt(s, c, from + 1, k);
    }
  }

  /** String.prototype.lastIndexOf(c) searched from the end. */
  function LastIndexOfChar(s: string, c: char): (r: int)
    ensures r == -1 || (0 <= r < |s| && s[r] == c)
    ensures forall k :: r < k < |s| ==> s[k] != c
  {
    if s == [] then -1
    else if s[|s| - 1] == c then |s| - 1
    else LastIndexOfChar(s[..|s| - 1], c)
  }

  /** The line terminators of ECMAScript, which a regular-expression `.`
      does not match. */
  predicate IsLineTerminator(c: char)
  {
    c == '\n' || c == '\r' || c as int == 0x2028 || c as int == 0x2029
  }

  /** WhiteSpace and LineTerminator code points, which String.prototype.trim removes. */
  predicate IsJsWhitespace(c: char)
  {
    var n := c as int;
    n == 0x09 || n == 0x0B || n == 0x0C || n == 0x20 || n == 0xA0 || n == 0x1680
    || (0x2000 <= n <= 0x200A) || n == 0x202F || n == 0x205F || n == 0x3000 || n == 0xFEFF
    || IsLineTerminator(c)
  }

  function TrimStart(s: string): (r: string)
    ensures |r| <= |s| && r == s[|s| - |r|..]
    ensures r != [] ==> !IsJsWhitespace(r[0])
    ensures forall k :: 0 <= k < |s| - |r| ==> IsJsWhitespace(s[k])
  {
    if s != [] && IsJsWhitespace(s[0]) then TrimStart(s[1..]) else s
  }

  function TrimEnd(s: string): (r: string)
    ensures |r| <= |s| && r == s[..|r|]
    ensures r != [] ==> !IsJsWhitespace(r[|r| - 1])
    ensures forall k :: |r| <= k < |s| ==> IsJsWhitespace(s[k])
  {
    if s != [] && IsJsWhitespace(s[|s| - 1]) then TrimEnd(s[..|s| - 1]) else s
  }

  /** String.prototype.trim(). */
  function Trim(s: string): (r: string)
    ensures |r| <= |s|
    ensures r != [] ==> !IsJsWhitespace(r[0]) && !IsJsWhitespace(r[|r| - 1])
  {
    TrimEnd(TrimStart(s))
  }

  /** String.prototype.split(sep) for a one-character separator. */
  function Split(s: string, sep: char): (r: seq<string>)
    ensures |r| >= 1
  {
    if s == [] then [[]]
    else
      var rest := Split(s[1..], sep);
      if s[0] == sep then [[]] + rest else [[s[0]] + rest[0]] + rest[1..]
  }

  /** Array.prototype.join(sep). */
  function Join(parts: seq<string>, sep: string): string
  {
    if parts == [] then []
    else if |parts| == 1 then parts[0]
    else parts[0] + sep + Join(parts[1..], sep)
  }

  /** Joining peels off the last piece as well as the first. */
  lemma {:induction false} JoinSnoc(parts: seq<string>, sep: string)
    requires |parts| >= 2
    ensures Join(parts, sep) == Join(parts[..|parts| - 1], sep) + sep + parts[|parts| - 1]
    decreases |parts|
  {
    if |parts| > 2 {
      JoinSnoc(parts[1..], sep);
      assert parts[1..][..|parts| - 2] == parts[..|parts| - 1][1..];
    } else {
      assert parts[..1] == [parts[0]];
    }
  }

  /** The pieces of a split hold no separator, and joining them gives the text back. */
  lemma {:induction false} SplitJoin(s: string, sep: char)
    ensures forall i :: 0 <= i < |Split(s, sep)| ==> sep !in Split(s, sep)[i]
    ensures Join(Split(s, sep), [sep]) == s
  {
    if s != [] {
      SplitJoin(s[1..], sep);
      var rest := Split(s[1..], sep);
      if s[0] == sep {
        assert Split(s, sep) == [[]] + rest;
        assert s == [] + [sep] + s[1..];
      } else {
        var r := Split(s, sep);
        assert r == [[s[0]] + rest[0]] + rest[1..];
        forall i | 0 <= i < |r| ensures sep !in r[i] {
          if i > 0 { assert r[i] == rest[i]; }
        }
        if |rest| == 1 {
          assert Join(r, [sep]) == [s[0]] + rest[0];
        } else {
          assert r[1..] == rest[1..];
          assert Join(rest, [sep]) == rest[0] + [sep] + Join(rest[1..], [sep]);
        }
      }
    }
  }

  /** Splitting at a separator that follows a separator-free piece gives that
      piece, then the pieces of the rest. */
  lemma {:induction false} SplitAround(a: string, sep: char, b: string)
    requires sep !in a
    ensures Split(a + [sep] + b, sep) == [a] + Split(b, sep)
  {
    if a == [] {
      assert a + [sep] + b == [sep] + b;
      assert ([sep] + b)[1..] == b;
    } else {
      SplitAround(a[1..], sep, b);
      assert (a + [sep] + b)[1..] == a[1..] + [sep] + b;
      assert [a[0]] + a[1..] == a;
    }
  }

  /** A separator-free text splits into itself. */
  lemma {:induction false} SplitWhole(a: string, sep: char)
    requires sep !in a
    ensures Split(a, sep) == [a]
  {
    if a != [] {
      SplitWhole(a[1..], sep);
      assert [a[0]] + a[1..] == a;
    }
  }

  /** `s.replace(/\r\n/g, '\n')`: every CR LF pair, found left to right without
      overlap, becomes a single LF. */
  function ReplaceCrlf(s: string): string
  {
    if s == [] then []
    else if |s| >= 2 && s[0] == '\r' && s[1] == '\n' then ['\n'] + ReplaceCrlf(s[2..])
    else [s[0]] + ReplaceCrlf(s[1..])
  }

  /** Keeps every character except a CR that the input follows with an LF. */
  function DropCrBeforeLf(s: string): string
  {
    if s == [] then []
    else (if |s| >= 2 && s[0] == '\r' && s[1] == '\n' then [] else [s[0]]) + DropCrBeforeLf(s[1..])
  }

  /** The replacement deletes exactly the carriage returns of the input that
      stand right before a line feed, and touches nothing else. */
  lemma {:induction false} ReplaceCrlfDropsCr(s: string)
    ensures ReplaceCrlf(s) == DropCrBeforeLf(s)
    ensures '\r' !in s ==> ReplaceCrlf(s) == s
  {
    if s != [] {
      if |s| >= 2 && s[0] == '\r' && s[1] == '\n' {
        ReplaceCrlfDropsCr(s[2..]);
        assert s[1..][1..] == s[2..];
        assert DropCrBeforeLf(s[1..]) == ['\n'] + DropCrBeforeLf(s[2..]);
      } else {
        ReplaceCrlfDropsCr(s[1..]);
        if '\r' !in s { assert '\r' !in s[1..]; assert s == [s[0]] + s[1..]; }
      }
    }
  }

  /** A slice that reads `a + b` reads `a` character by character, then `b`. */
  lemma SplitSlice(line: string, pos: nat, a: string, b: string)
    requires pos + |a + b| <= |line| && line[pos..pos + |a + b|] == a + b
    ensures forall k :: 0 <= k < |a| ==> line[pos + k] == a[k]
    ensures line[pos + |a|..pos + |a| + |b|] == b
  {
    forall k | 0 <= k < |a| ensures line[pos + k] == a[k] {
      assert line[pos + k] == line[pos..pos + |a + b|][k];
    }
    forall k | 0 <= k < |b| ensures line[pos + |a|..pos + |a| + |b|][k] == b[k] {
      assert line[pos + |a| + k] == line[pos..pos + |a + b|][|a| + k];
    }
  }

  /** A string matches where it was placed. */
  lemma MatchesAtMiddle(a: string, m: string, b: string)
    ensures MatchesAt(a + m + b, |a|, m)
  {
    MiddleOfConcat(a, m, b);
    MatchesAtOccurs(a + m + b, |a|, m);
  }

  lemma MatchesAtEnd(a: string, m: string)
    ensures MatchesAt(a + m, |a|, m)
  {
    MatchesAtMiddle(a, m, []);
    assert a + m + [] == a + m;
  }

  /** Text appended after a match does not disturb it. */
  lemma {:induction false} MatchesAtExtend(x: string, y: string, k: nat, pat: string)
    requires MatchesAt(x, k, pat)
    ensures MatchesAt(x + y, k, pat)
    decreases |pat|
  {
    if pat != [] {
      assert (x + y)[k] == x[k];
      MatchesAtExtend(x, y, k + 1, pat[1..]);
    }
  }

  lemma SliceOfSlice(s: string, a: nat, b: nat, i: nat, j: nat)
    requires a <= b <= |s| && i <= j <= b - a
    ensures s[a..b][i..j] == s[a + i..a + j]
  {
    forall k | 0 <= k < j - i ensures s[a..b][i..j][k] == s[a + i..a + j][k] {
      assert s[a..b][i..j][k] == s[a..b][i + k] == s[a + i + k];
    }
  }

  lemma MiddleOfConcat(a: string, m: string, b: string)
    ensures (a + m + b)[|a|..|a| + |m|] == m
  {
    var t := a + m + b;
    forall k | 0 <= k < |m| ensures t[|a|..|a| + |m|][k] == m[k] {
      assert t[|a| + k] == m[k];
    }
  }
}
