# A verified model of the comparator

The comparator fetches the same resource from two URLs, A and B, and reports how the two responses differ. It returns a flat, ordered list of fragments. Each fragment is a text tagged Insert (present only in B) or Delete (present only in A). Its `Compare` entry point works as follows:

- A fetch failure on one side becomes a two-fragment result.
- Failures on both sides are diffed as text.
- Two successful responses are diffed as JSON when no selector list is given (a nil slice).
- When a selector list is given, even an empty one, the text of the selected HTML elements is diffed instead.

The project models that comparison engine. It is spread over five modules:

- `Wrappers` (wrappers.dfy): the `Option` and `Result` values.
- `Strings` (strings.dfy): the parts of Go's `strings` package and of its slice expression that the comparator relies on. The comparator calls `HasPrefix`, `LastIndex`, `Replace` with a count of 1 and `Split`. `Index` and `Join` are there only to specify `Replace` and `Split`. A slice out of bounds is a panic.
- `Filtering` (filtering.dfy): `FilterMap`, "keep some elements, mapped, in order". Both of the comparator's fragment-building loops have this shape. `KeptIndices` gives the positions of the kept elements.
- `Collaborators` (collaborators.dfy): what the comparator receives from outside.
  - A `Fetch` is either `Ok(Response(status, body))` or `Err(msg)`. The body is what draining the stream yields.
  - The diff library's `Edit` script.
  - `Libraries`, a record of the foreign calls (DiffMain, DiffCleanupSemantic, the JSON differ and formatter, the HTML parser and `Find(...).Text()`). These are function-valued fields that the model never interprets.
- `Comparator` (comparator.dfy): the core.
  - A Go result `([]Diff, error)`, or a panic, is an `Outcome`: `Returned(diffs)` with a nil error, `Failed(err)` with a nil slice, or `Panicked`.
  - The three loops of the source (`getDiffsFromStrings`, `compareStrings`, `compareHTMLs`) are methods with loop invariants. Each is proved equal to a specification function.
  - Lemmas state what those functions mean.
  - `Compare` is a method whose postconditions are the classifier's decision table.

`trimErrorHost` returns the message from its last `:` on. A message without `:` does not come back unchanged: `strings.LastIndex` gives -1, and the slice `errText[-1:len]` panics. `TrimErrorHost` therefore returns `None`, and `Compare` returns `Panicked` exactly when a failing side's message has no `:`. Errors from Go's HTTP client have the form `Get "url": ...`, so in practice this case does not arise, but the model does not assume that.

## Model

| member | source | states |
|---|---|---|
| Strings.Index | comparator.go:127 | the first index of the character, or -1 exactly when it does not occur; no earlier index holds it |
| Strings.LastIndex | comparator.go:141 | the last index of the character, or -1 exactly when it does not occur; no later index holds it |
| Strings.ReplaceOnce | comparator.go:127 | a string without the character comes back unchanged; otherwise its first occurrence, and only that one, is replaced by the replacement |
| Strings.ReplaceOnceAtPrefix | comparator.go:126-131 | once `HasPrefix(line, "+")` (or `"-"`) holds, `Replace(line, "+", "", 1)` removes exactly the first character |
| Strings.Split | comparator.go:87 | splitting on the newline gives at least one piece, no piece holds a newline, and joining the pieces with newlines gives back the string |
| Strings.SplitJoin | comparator.go:87 | splitting undoes joining separator-free pieces (the other half of the round trip) |
| Filtering.FilterMap | comparator.go:113-119 | keeping some elements of a sequence, mapped, yields at most one value per element |
| Filtering.KeptIndices | comparator.go:125-135 | the kept positions increase, are exactly those where an element yields a value, and the k-th output is the value at the k-th kept position |
| Filtering.FilterMapConcat | comparator.go:125-135 | keeping-and-mapping distributes over concatenation |
| Filtering.FilterMapNone | comparator.go:113-119 | when no element yields a value, nothing is returned |
| Comparator.TrimErrorHost | comparator.go:139-143 | succeeds exactly when the message holds a `:` (otherwise the slice panics); the result is a suffix of the message that starts with `:` and holds no other `:` |
| Comparator.TrimErrorHostExample | comparator.go:139-143 | `"dial tcp 127.0.0.1:80: connection refused"` trims to `": connection refused"` |
| Comparator.LineDiffs | comparator.go:123-137 | parsing yields at most one fragment per line |
| Comparator.GetDiffsFromStrings | comparator.go:123-137 | the loop, using HasPrefix and Replace as written, returns exactly `LineDiffs(lines)` |
| Comparator.LineDiffOfLine | comparator.go:126-134 | a line gives a fragment exactly when it starts with `+` or `-`; the fragment is an Insert exactly when that character is `+`; its text is the line minus that character |
| Comparator.LineDiffsFragments | comparator.go:125-135 | the fragments correspond, in increasing line order, to exactly the lines starting with `+` or `-`; each is an Insert exactly when its line starts with `+`, and its text is that line minus its first character |
| Comparator.LineDiffsDropsOthers | comparator.go:132-134 | lines that are empty or start with any other character produce no fragment |
| Comparator.LineDiffsConcat | comparator.go:125-135 | parsing distributes over concatenation of line lists |
| Comparator.EditDiffs | comparator.go:109-121 | filtering yields at most one fragment per edit |
| Comparator.CompareStrings | comparator.go:109-121 | the loop over the cleaned-up DiffMain script returns exactly the filtered fragments of that script |
| Comparator.EditDiffsFragments | comparator.go:113-119 | the Insert and Delete edits, and only they, become fragments, in edit order, with their text unchanged; Insert edits become Inserts and Delete edits Deletes |
| Comparator.EditDiffsOfUnchanged | comparator.go:113-119 | a script made only of Equal edits gives no fragment |
| Comparator.CompareHTMLs | comparator.go:91-107 | a failure to parse A's document, then B's, returns that error; otherwise the result is the per-selector text diffs concatenated in selector order |
| Comparator.SelectorDiffsConcat | comparator.go:101-105 | the per-selector fragments are concatenated in selector order: the result for `s1 + s2` is the result for `s1` followed by that for `s2` |
| Comparator.HtmlDiffsBySelector | comparator.go:91-106 | a failure on the HTML path is the same whatever the selectors, so no partial result is ever returned; successes concatenate over selector lists; one selector gives exactly the text diff of its matched texts; the empty list gives nothing; the path never panics |
| Comparator.HtmlDiffsOfSameResponse | comparator.go:101-105 | if the text differ reports only Equal edits between a text and itself, comparing a response with itself on the HTML path yields no fragment |
| Comparator.SelectorDiffsOfSameDocument | comparator.go:101-105 | under the same assumption about the text differ, the selector loop over one document on both sides yields no fragment |
| Comparator.CompareJSONs | comparator.go:65-89 | A's body is read, then B's, then they are diffed and rendered; the first failing step's error is returned with no result; otherwise the result is the parse of the rendering's lines |
| Comparator.JsonDiffsFragments | comparator.go:69-88 | the JSON path never panics; a failed read of A's body is reported whatever B is; a returned result has at most one fragment per rendered line, and no fragment text holds a line break |
| Comparator.Compare | comparator.go:43-63 | A failed and B answered: exactly `[Delete trimmed A error, Insert B status]`; the symmetric case `[Delete A status, Insert trimmed B error]`; both failed: the text diff of the two trimmed errors; both answered: the JSON path for a nil selector list, the HTML path for any other list. Fetch failures never produce a returned error, and the call panics exactly when a failing side's error has no `:` |
| Comparator.OneSideDown | comparator.go:46-49 | A refused the connection and B answered `200 OK`: the result is `[Delete ": connection refused", Insert "200 OK"]` |

## Left out

- `http.Get`, `ioutil.ReadAll` and `Body.Close` with its `defer`s are network and stream I/O. Fetch outcomes and drained bodies are inputs, and closing a body is not modelled.
- The two fetches in `Compare` run one after the other. Only their outcomes are modelled.
- DiffMatchPatch's `DiffMain` and `DiffCleanupSemantic`, gojsondiff's `Compare` and ASCII formatter, and goquery's parsing and `Find(...).Text()` are foreign libraries. They are uninterpreted functions in `Libraries`. So the properties of the text and JSON diffs themselves are not proved: equal inputs giving no fragments, swapping the sides mirroring the result, and the JSON round trip. `HtmlDiffsOfSameResponse` shows what follows from the first of these, stated as an assumption. `DiffMain` is modelled as a function of its arguments alone. The real library stops searching once its `DiffTimeout` has passed on the clock, so for long inputs its edit script can depend on timing. `SelectorDiffsConcat`, `CompareStrings` and the postconditions of `Compare` rely on that determinism.
- `json.Unmarshal` decodes A's body for the formatter, and its error is ignored. It is folded into the formatter function, which receives A's raw body.
- The `init` function and the two global differ handles hold no logic. They are replaced by the `Libraries` parameter.
- Go strings are byte strings. Here each element of a string stands for one byte, so the indices the model computes are Go's byte indices. A character that UTF-8 encodes in several bytes is therefore several elements, not one character. `strings.Replace` is modelled only for a one-character search string with a count of 1, the only use in the source.
- The Go difference between a nil and an empty result slice (`compareStrings` returns nil when nothing differs) is not kept. Both are the empty sequence. The nil versus empty distinction of the selector list is kept, as `None` versus `Some([])`.
- `DiffType` and the diff library's `Operation` are plain datatypes. Their Go int8 values (Delete -1, Insert 1; for the library, DiffDelete -1, DiffEqual 0, DiffInsert 1) are not modelled, because the comparator only compares them for equality.
