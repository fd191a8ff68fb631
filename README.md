# terraform-plan-parser, modelled in Dafny

This project models the parser that turns the text printed by `terraform plan`
into a structured result. It covers `src/index.ts` and its helper
`src/util/endsWith.ts`. The result holds three lists:

- `errors`, each entry an error code;
- `changedResources`, the resources slated for change;
- `changedDataSources`, the data sources slated for change.

Each change record has an action, a type, a name, a path, a module path,
`tainted` and `newResourceRequired` flags, and a map of changed attributes.
Each attribute has an optional old value, an optional new value and a
`forcesNewResource` flag.

The parser's layers are the scanners, `parseValue`, the two line parsers and
`parseStdout`. Each has its own module, beside modules for the JavaScript
built-ins and the types they use.

| module (file) | what it models |
|---|---|
| `JsString` (`js_string.dfy`) | the JavaScript string built-ins the parser relies on: `substring` with its clamping and argument swap, `indexOf`, `lastIndexOf`, `trim`, `split` on one character, `join`, and `replace(/\r\n/g, '\n')` |
| `StringUtil` (`ends_with.dfy`) | `endsWith`, a single `substring` comparison |
| `PlanTypes` (`plan_types.dfy`) | the enums, the records, the error codes, the constants, `ACTION_MAPPING`, and `ParseResult` as a class whose list fields are updated in place |
| `Scanners` (`scanners.dfy`) | the three position scanners. Each is a loop method proved against a recursive function |
| `JsonString` (`json_string.dfy`) | what `JSON.parse` does with one quoted value: the string grammar of section 7 of RFC 8259. Decoding is proved to undo an escaper |
| `ValueTokenizer` (`value_tokenizer.dfy`) | `parseValue`: a quoted string, a `<...>` token or bare text |
| `AttributeLine` (`attribute_line.dfy`) | `parseAttributeLine`: the attribute name, the optional `" => "` pair, the forces-new-resource suffix, and the write into the open change |
| `ModulePath` (`module_path.dfy`) | `parseModulePath` as written, which `ParseActionLine` and so `ParseStdout` use for a change's module path, and beside it a corrected version that only states what the code evidently intends (see Findings) |
| `ActionPattern` (`action_pattern.dfy`) | a dedicated matcher for `ACTION_LINE_REGEX`. It tries the alternatives in the order a backtracking engine does. It is proved sound and, on readable lines, complete |
| `ActionLine` (`action_line.dfy`) | `parseActionLine`: a match becomes a record pushed onto one of the two lists |
| `PlanParser` (`plan_parser.dfy`) | `parseStdout`: the start and end markers, the action-symbol detection, and the line loop, whose only cross-line state is `lastChange` |

Where the source changes state, the model does too.

- The scanners, `parseValue`, `parseAttributeLine`, `parseActionLine` and
  `parseStdout` are methods.
- The result object is the `ParseResult` class, and its lists are `seq`
  fields.
- `lastChange`, a JavaScript reference into one of those lists, is a
  `ChangeRef`: which list, and which index.
- Each method's postcondition ties its new state to a function: `ActionLineStep`,
  `ApplyAttribute`, `Step`, `Plan`. The properties are proved as lemmas about
  those functions.

`JSON.parse` throws on an invalid string literal, and nothing catches the
throw. The model carries this as `Completion.Thrown`: the methods return a
`threw` flag and `Plan` returns `Thrown`.

Points where the code's behaviour is easy to misread:

- A closed `<...>` token other than `<computed>` has the value `<abc`. That is
  the opening bracket and the contents, without the closing `>`, because the
  code takes `substring(fromIndex, fromIndex + contents.length + 1)`
  (`src/index.ts:271`).
- `path` is built from the raw module text, the literal `data`, the type and
  the name (`src/index.ts:134-135`). So `module.net.module.sub.aws_subnet.a`
  has the path `module.net.module.sub.aws_subnet.a` and the module `net.sub`.
- `parseStdout(logOutput)` takes one argument, the text (`src/index.ts:350`).
- A quoted value that is not a valid JSON string makes `JSON.parse` throw
  (`src/index.ts:259`). Nothing catches the exception, so it propagates out of
  `parseStdout`.

## Model

| member | source | states |
|---|---|---|
| PlanTypes.ActionFor | src/index.ts:88-94 | a symbol maps to an action exactly when it is one of `+`, `-`, `-/+`, `~`, `<=` |
| PlanTypes.ParseResult.constructor | src/index.ts:353-356 | a new result has no errors, no changed resources and no changed data sources |
| JsString.Substring | src/index.ts:384 | `substring` gives the slice when its bounds are in range. A start at or past the end gives the text from the clamped end onward (the arguments are swapped) |
| JsString.SubstringFrom | src/index.ts:124 | `substring(offset)` gives the rest of the text from the offset, or the empty string when the offset is past the end |
| JsString.IndexOf | src/index.ts:69 | `indexOf` gives -1 exactly when the pattern does not occur at or after the clamped start. Otherwise it gives the first such occurrence |
| JsString.IndexOfCharFirst | src/index.ts:300 | a search for one character finds its first occurrence, and gives -1 exactly when none follows |
| JsString.LastIndexOfChar | src/index.ts:396 | `lastIndexOf` gives -1 or a position holding the character, and no later position holds it |
| JsString.TrimStart | src/index.ts:395 | the result is a suffix of the input that does not start with white space. Everything cut before it is white space |
| JsString.TrimEnd | src/index.ts:395 | the result is a prefix of the input that does not end with white space. Everything cut after it is white space |
| JsString.Trim | src/index.ts:395 | the trimmed text is no longer than the input, and neither starts nor ends with white space |
| JsString.SplitJoin | src/index.ts:385 | no piece of `split('\n')` contains the separator, and joining the pieces with it gives back the text |
| JsString.ReplaceCrlfDropsCr | src/index.ts:351 | replacing CR LF with LF removes exactly the CR in front of each LF, and leaves a text without CR unchanged |
| StringUtil.EndsWith | src/util/endsWith.ts:1-4 | a true answer implies the search text is no longer than the text |
| StringUtil.EndsWithIsSubstringTest | src/util/endsWith.ts:2-3 | the function is the `substring` comparison, including when a longer search text makes the start negative and it clamps to 0 |
| StringUtil.EndsWithSuffix | src/util/endsWith.ts:1-4 | true exactly when the search text is a suffix of the text |
| StringUtil.EndsWithAppended | src/util/endsWith.ts:1-4 | `s + t` always ends with `t`. With `t` empty: every text ends with the empty string |
| StringUtil.EndsWithSplits | src/util/endsWith.ts:2-3 | a search text longer than the text gives false. A true answer splits the text into a prefix and the search text |
| Scanners.NextNonSpaceFirst | src/index.ts:174-184 | only spaces stand between the start and the position found, and -1 means only spaces follow the start |
| Scanners.FindPosOfNextNonSpaceChar | src/index.ts:174-184 | the loop returns the first position at or after `fromIndex` that is not a space, and -1 exactly when there is none |
| Scanners.ReadUpToFirst | src/index.ts:193-204 | nothing is read exactly when no terminator follows. The text read contains no terminator |
| Scanners.ReadUpToChar | src/index.ts:193-204 | the loop returns the text from `fromIndex` up to the first terminator, or nothing when there is none |
| Scanners.QuoteEndFindsFirstUnescaped | src/index.ts:212-230 | the search finds the first quote preceded by an even run of backslashes counted from `fromIndex`. It gives -1 exactly when no such quote exists |
| Scanners.FindStringEndDelimiterPos | src/index.ts:212-230 | the loop with its `escaped` flag returns that first unescaped quote, or -1 exactly when there is none |
| JsonString.ParseStringLiteral | src/index.ts:259 | text that is not wrapped in double quotes does not parse |
| JsonString.UnescapeEscape | src/index.ts:259 | decoding a string body undoes escaping, for every string |
| JsonString.ParseStringLiteralEscape | src/index.ts:259 | parsing a quoted, escaped string gives back the string |
| ValueTokenizer.ParseValue | src/index.ts:242-288 | the method throws exactly when the tokenizer function does. Otherwise it returns that function's value and end position, and appends that function's errors |
| ValueTokenizer.TokenizeComputed | src/index.ts:261-274 | `<computed>` gives COMPUTED with no value. It ends at the index of `>` and adds no error |
| ValueTokenizer.TokenizeAngle | src/index.ts:261-274 | any other closed `<...>` gives UNKNOWN. Its value runs from `<` up to but not including `>`, and it ends at the `>` |
| ValueTokenizer.TokenizeRestOfLine | src/index.ts:261-278 | an unclosed `<`, or text that does not start with a quote or `<`, gives UNKNOWN. Its value is the rest of the line and it ends at the line length |
| ValueTokenizer.TokenizeUnterminated | src/index.ts:248-256 | a quote with no unescaped closing quote gives UNKNOWN. Its value is the rest of the line including the quote, it ends at the line length, and it adds exactly one UNTERMINATED_STRING error |
| ValueTokenizer.TokenizeTerminated | src/index.ts:248-260 | a closed quoted value throws exactly when its body is not a valid JSON string. Otherwise it is a STRING with the decoded body, ends at the closing quote and adds no error |
| ValueTokenizer.QuoteEndSkipsEscaped | src/index.ts:212-230 | the quote search passes over any escaped string body without stopping inside it |
| ValueTokenizer.TokenizeQuotedRoundTrip | src/index.ts:248-260 | any string, escaped and quoted inside a line, is read back as that string, ending at its closing quote |
| ValueTokenizer.TokenizeEscapedQuoteExample | src/index.ts:248-260 | `"abc\"d"` is read as `abc"d`, and the escaped quote does not end the value |
| AttributeLine.SeparatorAtIsSubstringTest | src/index.ts:319 | the separator test is the `substring(...) === " => "` comparison |
| AttributeLine.ForcesSuffixIsEndsWith | src/index.ts:328 | the forces-new-resource test is `endsWith(line, " (forces new resource)")` |
| AttributeLine.ApplyAttribute | src/index.ts:347 | writing an attribute keeps `lastChange` valid and keeps the lengths of both lists |
| AttributeLine.ParseAttributeLine | src/index.ts:298-348 | the method throws exactly when the line's values do not parse. Otherwise the new result is the attribute parse applied to the open change |
| AttributeLine.ReadNamedAttribute | src/index.ts:313-331 | it reads the name at index 6 up to the colon and the values after it, and appends the errors reading them adds |
| AttributeLine.ParseAttributeValues | src/index.ts:314-331 | it reads the values after the colon, and appends the errors reading them adds |
| AttributeLine.StoreAttribute | src/index.ts:333-347 | the record is stored under its name in the open change |
| AttributeLine.AttributeNameMissing | src/index.ts:300-307 | the name is missing exactly when no `:` stands at index 7 or later. The line then adds exactly one UNABLE_TO_PARSE_ATTRIBUTE_NAME error and changes no record |
| AttributeLine.AttributeNameSpan | src/index.ts:300-313 | the name runs from index 6 to the first `:` at index 7 or later |
| AttributeLine.ApplyAttributeSetsOneKey | src/index.ts:347 | exactly the attribute's name is set or overwritten in the open change. Every other key, every other field and every other record is unchanged |
| AttributeLine.AttributeWithoutValue | src/index.ts:314-347 | only spaces after the colon store a record with no old value, no new value and no forces flag |
| AttributeLine.AttributeWithValue | src/index.ts:314-345 | when a value follows the colon, a new value is always present. An old value is present exactly when `" => "` follows the first value; then the old value is the first value and the new value is the one read after `" => "`. Otherwise the new value is the first value. The forces flag is set exactly when the line ends with ` (forces new resource)`. The errors added are those of the first value, then those of the second when there is one |
| AttributeLine.ValuesRoundTrip | src/index.ts:316-326 | two escaped quoted strings joined by `" => "` are read back as the old and new values |
| AttributeLine.AttributeLineRoundTrip | src/index.ts:298-348 | a rendered line `      name: "o" => "n"` is read back as that name with old `o` and new `n` |
| ModulePath.AsWrittenOnPlainNames | src/index.ts:100-102 | as written, the split gives back the module names when none of them contains a dot or the letters `module` |
| ModulePath.AsWrittenCutsName | src/index.ts:101 | as written, a name `x module c y` is cut into two names `x` and `y` |
| ModulePath.CutModuleNameExample | src/index.ts:99-102 | as written, `module.vpc_module_a` gives `vpc_.a`. The corrected function gives `vpc_module_a` |
| ModulePath.ModulePathOfPrefix | src/index.ts:99-102 | the corrected function gives back the dotted module names of any nest of modules whose names hold no dot |
| ActionPattern.MatchTailComplete | src/index.ts:96 | the type, name and suffix groups read any well-formed tail back exactly |
| ActionPattern.MatchActionLineSound | src/index.ts:96-124 | a match reads the whole line, group by group, and its module group ends in a `module.<name>` segment |
| ActionPattern.PlainLineComplete | src/index.ts:96 | a line without a module group is matched with no module group, with the right data flag and tail |
| ActionPattern.GroupLineComplete | src/index.ts:96 | a line with a module group is matched with exactly that group. This holds even though the greedy `.*` first tries the later dots |
| ActionPattern.RenderRoundTrip | src/index.ts:96 | reading a rendered readable match gives back that match |
| ActionLine.NonEmpty | src/index.ts:135-136 | the filter keeps only non-empty parts |
| ActionLine.ParseActionLine | src/index.ts:121-165 | the method's new result and returned change are those of the action-line step function |
| ActionLine.ActionLineAppendsOne | src/index.ts:124-165 | a line that does not match adds exactly one UNABLE_TO_PARSE_CHANGE_LINE error and no record, and returns null. A match adds exactly one record at the end of the data-source list when `data.` is present, and otherwise at the end of the resource list. A match adds no error, and the returned reference points to the new record |
| ActionLine.ActionLineRecord | src/index.ts:134-163 | the record carries the action, type, name and tainted flag, with no attributes. Its path followed by the suffixes is the matched text. `newResourceRequired` is set only on resources. `module` is present exactly when the module group matched |
| ActionLine.PathOfRender | src/index.ts:134-136 | the path is the matched text without its suffixes: the non-empty parts of module, `data`, type and name, joined by dots |
| ActionLine.ChangeLineRoundTrip | src/index.ts:121-165 | a change line written from module names without dots or the letters `module`, an optional `data.`, a type and a name yields exactly one record: its module names joined by dots, its type, name, path and flags, appended to the right list |
| ActionLine.CutModuleNameInLine | src/index.ts:101-165 | a change line in the module `vpc_module_a` yields one resource record whose module path is `vpc_.a` |
| PlanParser.ContentStartPos | src/index.ts:68-71 | -1 exactly when the start marker is absent. Otherwise the index just past its first occurrence |
| PlanParser.ContentEndPos | src/index.ts:80-82 | the first end marker at or after the start, and -1 exactly when there is none |
| PlanParser.PaddedSymbol | src/index.ts:395-400 | a symbol right-aligned in the first three columns is read whole, with offset 4 |
| PlanParser.LeadingSymbol | src/index.ts:395-406 | a one-character symbol followed by a space is read with offset 2. The offset is found in the trimmed text and applied to the line |
| PlanParser.Step | src/index.ts:387-433 | one iteration of the loop keeps `lastChange` pointing at a record of the result |
| PlanParser.ParseLine | src/index.ts:388-432 | the loop body's effect on the result and on `lastChange` is one step of the line function |
| PlanParser.ParseOtherLine | src/index.ts:415-432 | a line with no action symbol either adds to the open change, is an orphan, or is unrecognised, as the step function says |
| PlanParser.ParseStdout | src/index.ts:350-436 | the method throws exactly when the plan function does. Otherwise its result is the plan function's result |
| PlanParser.NoChangesGivesEmpty | src/index.ts:351-363 | text with the no-changes sentinel gives no errors and no changes |
| PlanParser.MissingStartMarker | src/index.ts:365-372 | no start marker gives exactly one UNABLE_TO_FIND_STARTING_POSITION_WITHIN_STDOUT error and no changes |
| PlanParser.MissingEndMarker | src/index.ts:374-382 | no end marker after the start gives exactly one UNABLE_TO_FIND_ENDING_POSITION_WITHIN_STDOUT error and no changes |
| PlanParser.BlankLineCloses | src/index.ts:388-392 | a blank line clears `lastChange` and changes nothing else |
| PlanParser.OrphanAttribute | src/index.ts:415-425 | an attribute-shaped line with no open change adds exactly one ORPHAN_ATTRIBUTE_LINE error, touches no record, and leaves no change open |
| PlanParser.AttributeShapedHasNoSymbol | src/index.ts:395-415 | an attribute-shaped line never carries an action symbol, so it always reaches the attribute branch |
| PlanParser.UnrecognisedLine | src/index.ts:426-432 | any other line adds exactly one UNABLE_TO_PARSE_LINE error and keeps the open change |
| PlanParser.ApplyAttributeExtends | src/index.ts:347 | an attribute line keeps every record in place, and changes at most its attributes |
| PlanParser.StepExtends | src/index.ts:387-433 | one line only appends errors and records. It never removes or reorders a record, and it changes a kept record at most in its attributes |
| PlanParser.RunExtends | src/index.ts:387-433 | the same holds for the whole loop |

## Left out

- `stripAnsi` (`src/index.ts:1`, `src/index.ts:351`) is a foreign library. `Plan` and `ParseStdout` take text that holds no terminal escape codes. Only the CR LF replacement is modelled.
- Error messages are string interpolation and are left out. An error is modelled by its code alone.
- `src/cli.ts` is not part of this model. It handles command-line arguments, reads and writes files and stdin, and sets exit codes.
- JavaScript strings are sequences of UTF-16 code units. Here a string is a sequence of Unicode scalar values, so lengths and positions agree only on text without characters outside the Basic Multilingual Plane. A `\u` escape of a lone surrogate decodes to U+FFFD.
- `JSON.parse` is modelled only on string literals, which is all `parseValue` passes it: the quote search guarantees a closing quote. Its other grammar is not needed.
- `lastChange` is a reference in the source, so writing an attribute through it changes the record inside the result's list. The model keeps the records as values and `lastChange` as a list and an index (`ChangeRef`). The write is a replacement of that one record.
- ApplyAttribute: the source writes the attribute into a plain JavaScript object (`src/index.ts:347`). The model uses a `map`, which differs in two ways. An attribute named `__proto__` sets the object's prototype in the source and stores no key; the model stores it under that name. The object also keeps the order in which keys were first written, which the serialised result shows; the map has no order.
- The optional fields `module`, `old`, `new`, `newResourceRequired`, `forcesNewResource` and `tainted` are absent in the source when unset. Here they are `None` or `false`.
- ActionPattern.RenderRoundTrip: the match must be readable. The name holds no dot, because a dot in the name would be read as the type's. A data source inside a module must not have a last module named `module`: in `module.module.data.x.y` the greedy `.*` reaches `module.data` first, so the line is read as the resource `x.y` in the module group `module.module.data`.
- ActionLine.ChangeLineRoundTrip: the same conditions as for `RenderRoundTrip`. In addition, no module name holds a dot, a line terminator or the letters `module`: the module-path split cuts such a name apart (see Findings and `ActionLine.CutModuleNameInLine`).
- PlanParser.PaddedSymbol and PlanParser.LeadingSymbol cover the two layouts Terraform prints: right-aligned symbols and a one-character symbol followed by a space. Other layouts are modelled by `ActionSymbolOf` but have no lemma of their own. An unpadded `<= data.x` has offset 4 and so loses the `d`.
- The source looks up `ACTION_MAPPING[symbol]` on an ordinary object, so inherited properties could in principle answer too. `ActionFor` knows only the five symbols. No inherited property of an ordinary object has a name of three characters or fewer, and a trimmed symbol has at most three.

## Findings

| source | as written | input that shows it | evidently intended | confidence | as-written member | corrected member |
|---|---|---|---|---|---|---|
| src/index.ts:101 | `rawModuleStr.split(/\.?module./)` — the final `.` is unescaped and matches any character, so the letters `module` followed by any character inside a module name also split it | `module.vpc_module_a` gives `vpc_.a` | `vpc_module_a`: the names after each `module` segment, joined by dots | not executed | ModulePath.CutModuleNameExample | ModulePath.ModulePathOfPrefix |

The parser model (`ActionLine.ParseActionLine`, and through it
`PlanParser.ParseStdout`) keeps the code as written: it records the module path
`vpc_.a` for such a line (`ActionLine.CutModuleNameInLine`). The corrected
function is not called by the parser model; it only states the evidently
intended result.
