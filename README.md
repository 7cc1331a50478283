# jtool core, modelled in Dafny

This project models the core of jtool, a command-line and GUI tool for JSON
text. The core does three things on an in-memory JSON value:

* **parse** (`parse` / `parse_value`): undoes redundant stringification. A
  string has at most one leading and at most one trailing `"` stripped, when
  present. One level of escaped
  quotes is collapsed: a run of 2n+1 backslashes before `"` becomes n
  backslashes and `"`. The result goes back to the JSON parser, and whatever
  that parses to is normalised again. A text the parser calls "expected value"
  becomes a plain string leaf, and any other refusal is an error. Arrays and
  objects are normalised element by element.
* **stringify** (`sort_by_period_count`, `edit_val`, `stringify`): sorts
  dotted key paths deepest first, with a stable sort. It replaces the value at
  each path by the string of its compact JSON text, then writes the whole
  value compactly.
* **remove spaces** (`remove_spaces_value`, `remove_spaces_str`): runs the two
  one after the other.

Modules, one per part of the program:

| module | file | models |
|---|---|---|
| `Results` | results.dfy | the error enum and the three ways a call ends: value, error or panic |
| `Json` | json.dfy | the JSON value and the member list of an object, with insert-keeps-position semantics |
| `Serializer` | serializer.dfy | compact JSON text as `serde_json::to_string` writes it, string escaping, and the decoding of escapes |
| `TextRewrite` | rewrite.dfy | the two regular-expression rewrites of `parse_value` |
| `Normalizer` | normalizer.dfy | `parse` and `parse_value` |
| `PathEncoder` | pathencoder.dfy | `sort_by_period_count` (in place, on an array), `edit_val` and `stringify` (a loop over the sorted paths) |
| `RemoveSpaces` | removespaces.dfy | `remove_spaces_value` and `remove_spaces_str` |

The JSON parser (`serde_json::from_str`) is not part of this model. Every
operation that needs it takes it as a parameter `parser: JsonParser`. The
parser either returns a value or refuses, and a refusal is either "expected
value" or another diagnostic. What the model assumes of it is always stated
as a `requires`, of these kinds:

* `Shrinks(parser)`: a parsed value is no larger than its text. Every
  operation of `Normalizer` needs it, because it is what makes the recursion
  of `parse_value` terminate.
* `ParsesWellFormed(parser)`: the parser yields only objects with unique keys.
  Only `ResultWellFormed` assumes it.
* The parser's answer on particular texts, in the example lemmas: for
  instance `parser("John") == Rejected(ExpectedValue)`, or a refusal with
  diagnostic `d` of the text that the rewrites hand over.
* The parser reading a value's compact text back, `parser(Serialize(v)) ==
  Parsed(v)`. The round-trip lemmas of `RemoveSpaces` assume this.

Two regular expressions are written as scanners:

* `(^")|("$)` becomes `StripQuotes`.
* `(?<!\\)((?:\\\\)*)\\"`, whose replacement halves the captured pairs,
  becomes `Unescape`.

`UnescapeIsRegexReplacement` proves that `Unescape` equals a leftmost-match
replacement with that pattern. The replacement is written out separately as
`RegexUnescape`.

Three facts about the code shape the model:

* error.rs:7 declares `JSONStringify` with a `String` payload. The three
  places that build it, stringify.rs:25, 29 and 44, use the bare variant name
  and pass no text. The model's `JSONStringify` carries no payload.
* Normalising a result a second time rewrites every string leaf again. A leaf
  the rewrites would change, such as one still holding a quote at either end
  or an escaped quote, is changed on that second pass. `Idempotent` is proved
  for results whose leaves the rewrites leave as they are. A result whose
  leaves hold no quote is one of those (`QuoteFreeLeavesFixed`).
* A path whose final key is missing reaches the `unwrap` at stringify.rs:17
  and panics. Every path with more than one segment fails (stringify.rs:28-31).
  A quote inside a nested string or an object key does not survive
  `remove_spaces_value` (remove_spaces.rs:7-11). All three are listed under
  "## Findings".

## Model

| member | source | states |
|---|---|---|
| Json.Get | crates/core/src/stringify.rs:17 | the lookup finds a value exactly when the key is among the object's keys, and then the object holds that key with that value |
| Json.Insert | crates/core/src/stringify.rs:18-21 | inserting under a present key keeps the length and every other member in place; under a new key it appends; afterwards the key maps to the new value |
| Json.GetInsertOther | crates/core/src/stringify.rs:18-21 | inserting under one key leaves the lookup of every other key unchanged |
| Json.InsertKeepsKeys | crates/core/src/stringify.rs:18-21 | replacing a present key keeps the key list, so unique keys stay unique |
| Serializer.Serialize | crates/core/src/stringify.rs:44 | the compact text of a value is never empty |
| Serializer.EscapeRoundTrip | crates/core/src/stringify.rs:20 | decoding the escaped body of a string literal gives back exactly the original characters |
| Serializer.EscapeCharDecodes | crates/core/src/stringify.rs:20 | the escape chosen for any single character decodes to that character, whatever follows |
| Serializer.EscapeCharsPlain | crates/core/src/stringify.rs:20 | a text with no quote, backslash or control character is written as itself |
| Serializer.EscapeCharsConcat | crates/core/src/stringify.rs:20 | escaping a concatenation escapes each part |
| Serializer.SerializeCompact | crates/core/src/stringify.rs:44 | the compact text of any value has no whitespace outside string literals |
| Serializer.QuoteCompact | crates/core/src/stringify.rs:44 | a written string literal, escapes included, is compact |
| Serializer.EscapedStaysInString | crates/core/src/stringify.rs:44 | escaped characters never close the string literal they are in |
| TextRewrite.StripQuotes | crates/core/src/parse.rs:17 | at most one leading and one trailing quote is removed and every other character is kept in order; a text without a quote at either end is unchanged |
| TextRewrite.StripQuotesOfQuoted | crates/core/src/parse.rs:23 | stripping undoes wrapping a text in quotes |
| TextRewrite.Rewrite | crates/core/src/parse.rs:23-32 | the two rewrites never lengthen a text and are the identity on a text with no quote |
| TextRewrite.Unescape | crates/core/src/parse.rs:24-32 | unescaping never lengthens a text |
| TextRewrite.UnescapeWithoutQuotes | crates/core/src/parse.rs:19 | a text with no quote is unchanged by unescaping |
| TextRewrite.UnescapeWithoutBackslashes | crates/core/src/parse.rs:19 | a text with no backslash is unchanged by unescaping |
| TextRewrite.OddRunBeforeQuote | crates/core/src/parse.rs:28-29 | 2n+1 backslashes and a quote become n backslashes and the quote, and the rest is unescaped on its own |
| TextRewrite.EvenRunBeforeQuote | crates/core/src/parse.rs:19 | an even run of backslashes before a quote is kept, with the quote |
| TextRewrite.RunBeforeOther | crates/core/src/parse.rs:19 | a run of backslashes before any character other than a quote or backslash is kept |
| TextRewrite.RunAtEnd | crates/core/src/parse.rs:19 | a run of backslashes at the end of the text is kept |
| TextRewrite.UnescapeKeepsRun | crates/core/src/parse.rs:19 | a maximal run that is not an odd run before a quote is copied unchanged |
| TextRewrite.UnescapePiece | crates/core/src/parse.rs:24-32 | a plain run without backslashes is kept; a run of n backslashes closed by a quote loses half its backslashes and the escaping one when n is odd, and is kept when n is even |
| TextRewrite.UnescapeRender | crates/core/src/parse.rs:24-32 | on any text made of such pieces, unescaping acts piece by piece |
| TextRewrite.RenderEnd | crates/core/src/parse.rs:24-32 | a text made of such pieces never ends in a backslash, so it can be followed by anything without changing how it is unescaped |
| TextRewrite.RewriteBraced | crates/core/src/parse.rs:23-32 | a braced document made of such pieces is not touched by the quote stripping and is unescaped piece by piece |
| TextRewrite.UnescapeConcat | crates/core/src/parse.rs:24-32 | unescaping distributes over a split point that does not follow a backslash |
| TextRewrite.UnescapeOnlyDropsBackslashes | crates/core/src/parse.rs:24-32 | unescaping changes only backslashes: with all backslashes removed, input and output are the same text |
| TextRewrite.LeadingBackslashes | crates/core/src/parse.rs:19 | the run counted is the maximal run of backslashes at the front: every character before it is a backslash and the next one is not, and it is empty exactly when the text does not start with a backslash |
| TextRewrite.GroupEndOfRun | crates/core/src/parse.rs:19 | the pattern matches at the start of a text exactly when it opens with an odd run of backslashes followed by a quote, and the captured pairs end one backslash before the quote |
| TextRewrite.HalvePairsOfPairs | crates/core/src/parse.rs:28 | replacing each `\\` of the capture by `\` turns 2n backslashes into n |
| TextRewrite.UnescapeIsRegexReplacement | crates/core/src/parse.rs:19-32 | the scanner equals the leftmost-match replace-all of the unescape pattern with its replacement, lookbehind included |
| Normalizer.ParseValue | crates/core/src/parse.rs:15-55 | never panics; null, booleans and numbers come back unchanged; an array keeps its length and an object its keys, in order |
| Normalizer.ParseItems | crates/core/src/parse.rs:45 | never panics; a success has one item per input item |
| Normalizer.ParseMembers | crates/core/src/parse.rs:46-51 | never panics; a success has the input's keys in the input's order |
| Normalizer.Parse | crates/core/src/parse.rs:11-13 | a text with no quote that the parser calls "expected value" comes back as that string |
| Normalizer.ParseItemsElementwise | crates/core/src/parse.rs:45 | the array succeeds exactly when every element does, and then element i of the result is element i normalised; on failure the error is that of the first failing element |
| Normalizer.ParseMembersElementwise | crates/core/src/parse.rs:46-51 | the object succeeds exactly when every value does, and then member i keeps its key with its value normalised; on failure the error is that of the first failing value |
| Normalizer.ResultNormalized | crates/core/src/parse.rs:39 | in a successful result every string leaf is a text on which the parser reports "expected value" |
| Normalizer.SettledIsFixpoint | crates/core/src/parse.rs:15-55 | a value whose leaves the parser rejects and the rewrites leave unchanged is normalised to itself |
| Normalizer.QuoteFreeLeavesFixed | crates/core/src/parse.rs:23-32 | the rewrites leave every leaf of a value whose leaves hold no quote as it is |
| Normalizer.NormalizedLeavesFixedIsSettled | crates/core/src/parse.rs:23-39 | a normalised value whose leaves the rewrites leave as they are is settled |
| Normalizer.Idempotent | crates/core/src/parse.rs:15-55 | normalising a result again gives the same result when the rewrites leave its leaves as they are |
| Normalizer.ResultWellFormed | crates/core/src/parse.rs:46-51 | when the parser yields only objects with unique keys, so does normalisation |
| Normalizer.RewriteOfQuoted | crates/core/src/parse.rs:23-32 | wrapping a text without backslashes in quotes is undone by the rewrites |
| Normalizer.PlainSettled | crates/core/src/parse.rs:39 | a quote-free text the parser calls "expected value" is a settled leaf |
| Normalizer.PlainStringExample | crates/core/src/parse.rs:39 | a quoted plain word comes back as the word |
| Normalizer.QuotedDocumentExample | crates/core/src/parse.rs:97-106 | the quoted document of the trailing-quotes test comes back as the object `{"name": "John", "age": 30}` |
| Normalizer.SettledPerson | crates/core/src/parse.rs:97-106 | the object of that test is settled once its one string leaf is rejected by the parser |
| Normalizer.EscapedDocumentExample | crates/core/src/parse.rs:34-35 | a document quoted and escaped one extra level comes back as the object, not as the intermediate text |
| Normalizer.EscapedInner | crates/core/src/parse.rs:23-32 | the rewrites turn the escaped, quoted document into the plain document text |
| Normalizer.UnescapeEscapedQuote | crates/core/src/parse.rs:28-29 | a single backslash before a quote is removed |
| Normalizer.BrokenDocumentExample | crates/core/src/parse.rs:146-154 | the input of the incorrect-json test, given as its plain runs and quote-closed backslash runs, is rewritten by collapsing the odd runs only; when the parser refuses that text other than as "expected value", `parse` is the parsing error with that diagnostic |
| Normalizer.BracedDocumentRejected | crates/core/src/parse.rs:21-43 | a braced document made of such pieces reaches the parser unescaped piece by piece, and the parser's refusal other than as "expected value" is the result |
| PathEncoder.Split | crates/core/src/stringify.rs:40 | a path splits into one more piece than it has dots, and no piece contains a dot |
| PathEncoder.JoinSplit | crates/core/src/stringify.rs:40 | joining the pieces with dots gives the path back |
| PathEncoder.SplitTwo | crates/core/src/stringify.rs:40 | `a.b` splits into `a` and `b` |
| PathEncoder.InsertByDotsPermutes | crates/core/src/stringify.rs:7 | inserting a path adds exactly that path to the multiset |
| PathEncoder.InsertByDotsOrdered | crates/core/src/stringify.rs:7 | inserting into a list ordered by non-increasing dot count keeps it ordered |
| PathEncoder.InsertByDotsStable | crates/core/src/stringify.rs:7 | the paths with any one dot count keep their order, the inserted one last |
| PathEncoder.SortedPermutes | crates/core/src/stringify.rs:5-10 | the sorted list is a permutation of the input |
| PathEncoder.SortedOrdered | crates/core/src/stringify.rs:5-10 | the sorted list is non-increasing in dot count |
| PathEncoder.SortedStable | crates/core/src/stringify.rs:5-10 | paths with equal dot count keep their input order |
| PathEncoder.SortExample | crates/core/src/stringify.rs:78-85 | the paths of the sort test come out as `a.b.c.d`, `b.c.d`, `a.c`, `a` |
| PathEncoder.SortFour | crates/core/src/stringify.rs:79-84 | four paths with the dot counts of the sort test are ordered deepest first, ties in input order |
| PathEncoder.SortByPeriodCount | crates/core/src/stringify.rs:5-10 | sorting the buffer in place leaves it holding the stable deepest-first order of its old contents |
| PathEncoder.InsertLast | crates/core/src/stringify.rs:7 | one insertion step: the element at i moves into the sorted prefix and the rest of the buffer is untouched |
| PathEncoder.ShiftRight | crates/core/src/stringify.rs:7 | the shallower paths of the prefix move one place right and the slot left free is where the element belongs |
| PathEncoder.EditVal | crates/core/src/stringify.rs:12-33 | a successful one-segment edit returns an object with the original keys |
| PathEncoder.EditValSingleKey | crates/core/src/stringify.rs:15-23 | a present single key has its value, and nothing else, replaced by the compact text of the old value, in the same position |
| PathEncoder.EditValMissingKey | crates/core/src/stringify.rs:17 | a missing single key reaches the `unwrap` and panics |
| PathEncoder.EditValNotObject | crates/core/src/stringify.rs:24-26 | a single segment on a non-object is the stringify error |
| PathEncoder.EditValMultiSegmentFails | crates/core/src/stringify.rs:28-31 | as written, every path with two or more segments ends in the stringify error |
| PathEncoder.NestedPathExample | crates/core/src/stringify.rs:28-31 | as written, `a.b` on `{"a": {"b": 1}}` is the stringify error |
| PathEncoder.EditPathAt | crates/core/src/stringify.rs:12-33 | intended edit: it succeeds exactly when the path leads to a value, which then becomes its compact text with the top-level keys kept, and every path that branches off the edited one, neither above nor below it, reaches the same value as before; otherwise it is the stringify error |
| PathEncoder.EditPathFrame | crates/core/src/stringify.rs:12-33 | a path that leaves the edited path at some key reaches the same value before and after the edit |
| PathEncoder.EditPathAgrees | crates/core/src/stringify.rs:13-27 | for at most one segment the intended edit equals the edit as written, except that the panic becomes the stringify error |
| PathEncoder.NestedPathIntended | crates/core/src/stringify.rs:28-31 | intended, `a.b` on `{"a": {"b": 1}}` gives `{"a": {"b": "1"}}` |
| PathEncoder.Stringify | crates/core/src/stringify.rs:35-45 | the loop over the sorted path buffer, editing with `edit_val` as written, returns `StringifyAsWritten`: each path edited in sorted order, the first failure returned, then the value written compactly |
| PathEncoder.FirstFailureAbortsAsWritten | crates/core/src/stringify.rs:39-42 | with `edit_val` as written, once a path fails the later paths change nothing and the call fails with that failure |
| PathEncoder.FirstFailureAborts | crates/core/src/stringify.rs:39-42 | the same for the intended edit |
| PathEncoder.StringifyNoPaths | crates/core/src/stringify.rs:36 | with no paths, given or empty, the result is the compact text of the unchanged value |
| PathEncoder.ApplyPathsAgree | crates/core/src/stringify.rs:39-42 | whenever the edits as written succeed, the intended edits give the same value |
| PathEncoder.StringifyAgrees | crates/core/src/stringify.rs:35-45 | whenever `stringify` as written succeeds, the intended one returns the same text |
| PathEncoder.StringifyNotObject | crates/core/src/stringify.rs:24-29 | paths on a value that is not an object give the stringify error, as written and as intended |
| PathEncoder.StringifySimpleExample | crates/core/src/stringify.rs:53-63 | `{"a": "b"}` with no paths is written `{"a":"b"}`, as written and as intended |
| PathEncoder.StringifyPathExample | crates/core/src/stringify.rs:65-76 | `{"a": "b", "c": {"d": "e"}}` with path `c` is written with the inner object as an escaped string, as in the test, and the written version gives the same text |
| PathEncoder.PathCWritten | crates/core/src/stringify.rs:15-23 | the written edit of path `c` on that object succeeds |
| PathEncoder.MissingKeyExample | crates/core/src/stringify.rs:17 | path `b` on `{"a": 1}` panics as written and is the stringify error as intended |
| PathEncoder.NestedPathsExample | crates/core/src/stringify.rs:28-31 | paths `a` and `a.b` fail as written; intended, the inner path is edited first and the outer one then takes the edited object along |
| RemoveSpaces.RemoveSpacesValue | crates/core/src/remove_spaces.rs:7-11 | removing spaces from a value is normalising its compact text; the stringify step cannot fail |
| RemoveSpaces.RemoveSpacesStr | crates/core/src/remove_spaces.rs:13-17 | a successful parse gives its value's compact text; a failed parse gives the same error; it never panics |
| RemoveSpaces.OutputCompact | crates/core/src/remove_spaces.rs:16 | the output has no whitespace outside string literals |
| RemoveSpaces.SerializeEnds | crates/core/src/remove_spaces.rs:8 | only a string's compact text begins or ends with a quote |
| RemoveSpaces.RemoveSpacesValueRoundTrip | crates/core/src/remove_spaces.rs:7-11 | a settled value that is not a string, has no quote in any key or string, and parses back from its compact text, is returned unchanged; backslashes and control characters in its strings are allowed |
| RemoveSpaces.RewriteOfSerialized | crates/core/src/parse.rs:23-32 | the two rewrites leave the compact text of a non-string value with no quote in any key or string as it is |
| RemoveSpaces.UnescapeSerialized | crates/core/src/parse.rs:24-32 | the unescaping copies the compact text of a value with no quote in any key or string, whatever text follows it: every backslash run the serialiser writes there is even or followed by a letter |
| RemoveSpaces.UnescapeEscaped | crates/core/src/parse.rs:24-32 | after an even run of backslashes, the escaped text of a quote-free string and its closing quote are copied by the unescaping |
| RemoveSpaces.UnescapeQuotedEscapes | crates/core/src/parse.rs:24-32 | unescaping the escaped text of a string of plain characters and quotes gives that string back: each `\"` becomes the quote it stands for |
| RemoveSpaces.RemoveSpacesStringRoundTrip | crates/core/src/remove_spaces.rs:7-11 | a top-level string of plain characters and quotes that the parser calls "expected value" is returned unchanged: the rewrites strip the quotes the serialiser put around it and turn its escaped quotes back into quotes |
| RemoveSpaces.RemoveSpacesValueIntended | crates/core/src/remove_spaces.rs:7-11 | corrected `remove_spaces_value`, the compact text handed to the parser without the rewrites: it never panics, and an object read back keeps its keys |
| RemoveSpaces.RemoveSpacesValueIntendedRoundTrip | crates/core/src/remove_spaces.rs:7-11 | corrected, every settled value that the parser reads back from its compact text is returned unchanged, whatever its strings hold |
| RemoveSpaces.RemoveSpacesValueAgrees | crates/core/src/remove_spaces.rs:7-11 | when the value is not a string and no key or string of it holds a quote, the written and the corrected versions give the same result |
| RemoveSpaces.QuotedLeafRewritten | crates/core/src/parse.rs:23-32 | the compact text of `{"a": "x\"y"}` is `{"a":"x\"y"}`, and the rewrites turn it into `{"a":"x"y"}`, a different text |
| RemoveSpaces.RewriteOneEscape | crates/core/src/parse.rs:23-32 | one escaped quote between plain texts becomes a bare quote |
| RemoveSpaces.UnescapeOneEscape | crates/core/src/parse.rs:24-32 | the same, for the unescaping alone |
| RemoveSpaces.QuotedLeafFails | crates/core/src/remove_spaces.rs:7-11 | as written, that value gives the parsing error when the parser refuses `{"a":"x"y"}` |
| RemoveSpaces.QuotedLeafIntended | crates/core/src/remove_spaces.rs:7-11 | corrected, that value comes back unchanged |
| RemoveSpaces.PlainLeafSettled | crates/core/src/parse.rs:23-39 | a text without backslashes and with no quote at either end, which the parser calls "expected value", is a settled leaf |
| RemoveSpaces.PlainDocumentParses | crates/core/src/parse.rs:21-43 | a text with no backslash and no quote at either end goes to the parser unchanged, and a settled value it parses to is the result |
| RemoveSpaces.SpacedDocumentExample | crates/core/src/remove_spaces.rs:13-17 | `{"a": 1}` comes back as `{"a":1}` |

## Left out

- The JSON parser `serde_json::from_str` is a parameter. Its diagnostic is classified as "expected value" or other, which stands for the substring test on the error message (parse.rs:38).
- The regex engine is replaced by hand-written scanners with the effect of the two patterns.
- The `OnceCell` caching of the regexes affects only performance.
- Numbers are integers. Floating point and number formatting are not modelled.
- Objects keep insertion order. The key ordering that depends on serde_json's map features is not modelled.
- The error messages (`Display` for the error enum) are cosmetic and left out.
- `compare` and `print_diff` are not part of this model. The CLI, the GUIs, file and standard-stream I/O, and pretty-printing are left out too.
- Serializer.Unescaped: a `\u` escape of a surrogate half is refused, not paired with the next one. The serialiser never writes one, so the round trip does not need it.
- PathEncoder.SortByPeriodCount: the sort is an insertion sort, not the merge sort behind `slice::sort_by`. Both sorts are stable with the same comparator, so the result is the same.
- PathEncoder.Stringify: the working value is updated by functional key replacement. `edit_val`'s editing through `&mut Value` and its aliasing are not modelled. Only the path buffer is an array updated in place.
- Normalizer.Idempotent: proved only for results whose string leaves the rewrites leave as they are. The code rewrites every leaf again on a second pass, so a leaf the rewrites would change breaks idempotence.
- RemoveSpaces.RemoveSpacesValueRoundTrip: its conditions are sufficient, not necessary. It covers values that are not a string and have no quote in any key or string. A quote inside a nested string or key changes the text handed to the parser: the serialiser writes it as `\"` and the unescaping turns that into a bare quote (see "## Findings"). A top-level string is covered separately by `RemoveSpacesStringRoundTrip`, for plain characters and quotes only. A top-level string holding a backslash or a control character is not covered: once the quotes are stripped, its escape (`\\`, `\n`, ...) is kept as escaped text unless a quote follows it, so such a string in general does not come back. The corrected `RemoveSpacesValueIntendedRoundTrip` needs no condition on the texts.

## Findings

| source | as written | input that shows it | evidently intended | confidence | as-written member | corrected member |
|---|---|---|---|---|---|---|
| crates/core/src/stringify.rs:28-31 | the recursive call passes the whole `sequence` again, so every path with two or more segments keeps descending under its first key until a lookup fails, and ends in `Err(JSONStringify)` | `{"a": {"b": 1}}` with path `a.b` gives an error | descend with the remaining segments, giving `{"a": {"b": "1"}}` | not executed | PathEncoder.EditValMultiSegmentFails | PathEncoder.EditPathAt |
| crates/core/src/remove_spaces.rs:7-11 | the compact text is handed to `parse`, whose unescaping (parse.rs:24-32) turns the escape `\"` inside a string literal into a bare quote | `{"a": "x\"y"}` becomes the text `{"a":"x"y"}`, which is not JSON, so the call fails | the value comes back unchanged, its compact text parsed as it is | not executed | RemoveSpaces.QuotedLeafFails | RemoveSpaces.RemoveSpacesValueIntendedRoundTrip |
| crates/core/src/stringify.rs:17 | a missing key at the last segment reaches `.unwrap()` and panics | `{"a": 1}` with path `b` panics | the stringify error, as a missing key during the descent already gives (stringify.rs:29) | not executed | PathEncoder.EditValMissingKey | PathEncoder.EditPathAt |
