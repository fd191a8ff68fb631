/** The suffix test of src/util/endsWith.ts. */
module StringUtil {
  import opened JsString

  /** `str` ends with `search`: the last |search| characters of `str` are
      those of `search`, compared one by one. */
  function EndsWith(str: string, search: string): (r: bool)
    ensures r ==> |search| <= |str|
  {
    |search| <= |str| && MatchesAt(str, |str| - |search|, search)
  }

  /** The test is the one the source writes, `str.substring(str.length -
      search.length, str.length) === search`. The start index may be
      negative; substring then clamps it to 0, so the whole of `str` is
      compared with a longer string and the answer is false. */
  lemma EndsWithIsSubstringTest(str: string, search: string)
    ensures EndsWith(str, search) == (Substring(str, |str| - |search|, |str|) == search)
  {
    if |search| <= |str| {
      MatchesAtIsSubstringTest(str, |str| - |search|, search);
    } else {
      assert |Substring(str, |str| - |search|, |str|)| <= |str|;
    }
  }

  /** True exactly when `search` is a suffix of `str`. */
  lemma EndsWithSuffix(str: string, search: string)
    ensures EndsWith(str, search) <==> |search| <= |str| && str[|str| - |search|..] == search
  {
    if |search| <= |str| {
      MatchesAtOccurs(str, |str| - |search|, search);
    }
  }

  /** Every string ends with what was appended to it. */
  lemma EndsWithAppended(s: string, t: string)
    ensures EndsWith(s + t, t)
  {
    EndsWithSuffix(s + t, t);
    assert (s + t)[|s + t| - |t|..] == t;
  }

  /** When the test succeeds, `str` splits into a head followed by `search`;
      when `str` is shorter than `search` it fails. */
  lemma EndsWithSplits(str: string, search: string)
    ensures EndsWith(str, search) ==> str == str[..|str| - |search|] + search
    ensures |search| > |str| ==> !EndsWith(str, search)
  {
    EndsWithSuffix(str, search);
  }
}
