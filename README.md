# weak-md-parser in Dafny

This is a model of `MarkdownParser`, the converter of a small Markdown subset to HTML, with proofs about it. `parse` reads the text in four stages:

1. It splits the text at `\n`, as Java's `String.split("\n")` does.
2. It renders every line by trying three rules in order:
   - a header (`#`… becomes `<hN>…</hN>`);
   - a list item (`* …` becomes `<li>…</li>`);
   - a paragraph (`<p>…</p>`).
3. List items and paragraphs get emphasis from two greedy `replaceAll` passes: `__(.+)__` becomes `<strong>`, then `_(.+)_` becomes `<em>`.
4. One left-to-right pass with the flag `activeList` wraps each maximal run of list items in `<ul>`…`</ul>`.

The modules follow those stages:

- `Wrappers`: `Option` for the converter's `null`. It also has `Result`/`Error` for the one exception the converter can raise, `StringIndexOutOfBoundsException` from `substring`.
- `Strings`: `startsWith`, `trim` (strips every character up to U+0020 from both ends) and the decimal text of `"h" + level`.
- `LineSplit`: `split("\n")` with limit 0. It is a raw split at every newline with the trailing empty strings dropped, and a text without a newline is one line.
- `Emphasis`: the two patterns, written as matcher functions rather than a regular-expression engine.
  - `FindMatch` is the leftmost start at which the pattern matches, with its greedy (last) closer.
  - `ReplaceAll` repeats the match from the end of each replacement, as `replaceAll` does.
  - `.` does not match Java's line terminators (`\n`, `\r`, U+0085, U+2028, U+2029), exactly as in `java.util.regex` without DOTALL.
- `LineClassifier`:
  - `countHashSymbols`, as the method `CountHashSymbols` with its loop, proved equal to the function `HashRun`;
  - `parseHeader`, `parseListItem` and `parseParagraph`, as functions, with `null` as `None`;
  - `parseLine`, which returns `Err` for the line whose `substring` throws.
- `Assembler`: the document structure `parse` builds, as a specification.
  - `Group` cuts the fragments into blocks, and `Render` prints the blocks.
  - `Stream` is the text the loop has appended so far.
  - `Emit` gives the pieces (open tag, close tag, fragment) whose nesting is checked by the state machine `Run`.
- `MarkdownParser`:
  - `Convert` is `parse` as a value.
  - `Parse` is the loop itself, with `result` and `activeList`, proved to compute `Convert`.

Four behaviours of `parse` worth knowing, all of them modelled as the code has them:

1. **Lines of only `#`.** `substring(level + 1)` throws on a line made only of `#`. The model returns `Err(StringIndexOutOfBounds(|line| + 1, |line|))` there, and `Convert` returns the error of the first such line.
2. **Empty input.** `""` renders as `<p></p>`, since `"".split("\n")` is `[""]`. A text made only of newlines (`"\n"`, `"\n\n"`, …) has no lines and gives `""`.
3. **Header level.** Levels are not capped at 6: seven hashes give `<h7>`.
4. **`replaceAll`.** On a line without line terminators each pass makes at most one replacement (`Emphasis.AtMostOneReplacement`). Lines in `parse` never contain `\n`, but they may contain `\r`, U+0085, U+2028 or U+2029, and on such a line `replaceAll` can replace more than once. The model keeps that behaviour.

## Model

| member | source | states |
|---|---|---|
| Strings.StartsWith | src/main/java/com/github/arena/challenges/weakmdparser/MarkdownParser.java:19 | `startsWith(prefix)`: the prefix fits and equals the front of the text; `Strings.StartsWithPointwise` states it character by character. It decides the list test at lines 19 and 24 and the list rule at line 99. |
| Strings.StartsWithPointwise | src/main/java/com/github/arena/challenges/weakmdparser/MarkdownParser.java:99 | A text starts with a prefix exactly when the prefix is no longer than the text and every character of the prefix is at the same index in the text. |
| Strings.TrimLeft | src/main/java/com/github/arena/challenges/weakmdparser/MarkdownParser.java:73 | The result is the longest suffix that does not start with a character up to U+0020, and everything dropped is such a character. |
| Strings.TrimRight | src/main/java/com/github/arena/challenges/weakmdparser/MarkdownParser.java:73 | The result is the longest prefix that does not end with a character up to U+0020, and everything dropped is such a character. |
| Strings.Trim | src/main/java/com/github/arena/challenges/weakmdparser/MarkdownParser.java:73 | `trim()` neither begins nor ends with a trimmable character and is no longer than its input. |
| Strings.TrimIsSlice | src/main/java/com/github/arena/challenges/weakmdparser/MarkdownParser.java:73 | `trim()` is a contiguous slice of its input, with only trimmable characters before and after it. |
| Strings.TrimOfTrimmed | src/main/java/com/github/arena/challenges/weakmdparser/MarkdownParser.java:73 | Text that already neither starts nor ends with a trimmable character is unchanged by `trim()`. |
| Strings.TrimIdempotent | src/main/java/com/github/arena/challenges/weakmdparser/MarkdownParser.java:73 | Trimming twice is the same as trimming once. |
| Strings.NatToString | src/main/java/com/github/arena/challenges/weakmdparser/MarkdownParser.java:72 | The text of `"h" + level` after the `h` is a non-empty string of decimal digits with no leading zero for a positive level. |
| Strings.DecimalRoundTrip | src/main/java/com/github/arena/challenges/weakmdparser/MarkdownParser.java:72 | Reading that decimal text back gives the level, so distinct levels give distinct tag names. |
| LineSplit.RawSplit | src/main/java/com/github/arena/challenges/weakmdparser/MarkdownParser.java:12 | Splitting at every newline gives at least one part, and no part contains a newline. |
| LineSplit.DropTrailingEmpty | src/main/java/com/github/arena/challenges/weakmdparser/MarkdownParser.java:12 | Limit 0 keeps the longest prefix of the parts that does not end in an empty string, and drops only empty strings. |
| LineSplit.Split | src/main/java/com/github/arena/challenges/weakmdparser/MarkdownParser.java:12 | No line contains a newline, and a text that has a newline never yields an empty last line. |
| LineSplit.JoinRawSplit | src/main/java/com/github/arena/challenges/weakmdparser/MarkdownParser.java:12 | Joining the raw parts with newlines gives back the text. |
| LineSplit.RawSplitJoin | src/main/java/com/github/arena/challenges/weakmdparser/MarkdownParser.java:12 | Splitting a join of newline-free parts gives back exactly those parts. |
| LineSplit.SplitEmpty | src/main/java/com/github/arena/challenges/weakmdparser/MarkdownParser.java:12 | `"".split("\n")` is one empty line. |
| LineSplit.SplitNewline | src/main/java/com/github/arena/challenges/weakmdparser/MarkdownParser.java:12 | `"\n".split("\n")` has no lines at all. |
| LineSplit.RawSplitNewlines | src/main/java/com/github/arena/challenges/weakmdparser/MarkdownParser.java:12 | `n` newlines split at every newline into `n + 1` empty pieces. |
| LineSplit.SplitOnlyNewlines | src/main/java/com/github/arena/challenges/weakmdparser/MarkdownParser.java:12 | A text made only of newlines, at least one, has no lines at all once the trailing empty strings are dropped. |
| LineSplit.SplitTrailingNewline | src/main/java/com/github/arena/challenges/weakmdparser/MarkdownParser.java:12 | A trailing newline after a non-empty text does not change the lines. |
| LineSplit.SplitReconstructs | src/main/java/com/github/arena/challenges/weakmdparser/MarkdownParser.java:12 | The lines joined with newlines are the text with only some trailing newlines removed. |
| Emphasis.DotRunEnd | src/main/java/com/github/arena/challenges/weakmdparser/MarkdownParser.java:125-131 | `.` can extend from a position exactly up to the first line terminator, or to the end. |
| Emphasis.LastCloser | src/main/java/com/github/arena/challenges/weakmdparser/MarkdownParser.java:125-127 | Greedy `(.+)` backs off from the right: the result is the largest closing marker at or below the bound that completes a match, and there is none when nothing does. |
| Emphasis.FindMatch | src/main/java/com/github/arena/challenges/weakmdparser/MarkdownParser.java:125-131 | The match found starts at the leftmost position with a match, no start before it has one, its closer is the last one possible, and `None` means nothing matches from there on. |
| Emphasis.ReplaceAll | src/main/java/com/github/arena/challenges/weakmdparser/MarkdownParser.java:127 | `replaceAll` replaces every match from a start position on, left to right; its contract states that with a tag free of line terminators the pass adds none. Its behaviour per pass is stated by `Emphasis.PassWithoutPairIsIdentity`, `Emphasis.SingleReplacement`, `Emphasis.AtMostOneReplacement` and `Emphasis.PassReplacesGreedySpan`. |
| Emphasis.Bold | src/main/java/com/github/arena/challenges/weakmdparser/MarkdownParser.java:125-127 | The `__(.+)__` pass adds no line terminator. `Emphasis.BoldOnPlain`, `Emphasis.BoldOnWrapped` and `Emphasis.BoldOfTripled` give its results. |
| Emphasis.Italic | src/main/java/com/github/arena/challenges/weakmdparser/MarkdownParser.java:129-131 | The `_(.+)_` pass adds no line terminator. `Emphasis.ItalicOnPlain`, `Emphasis.ItalicOnWrapped` and `Emphasis.ItalicInStrong` give its results. |
| Emphasis.ParseTextStyles | src/main/java/com/github/arena/challenges/weakmdparser/MarkdownParser.java:124-132 | `parseTextStyles` is the bold pass followed by the italic pass over its result, and adds no line terminator. `Emphasis.AtMostOneReplacement`, `Emphasis.PassReplacesGreedySpan` and `Emphasis.ItalicAfterBold` state what each pass replaces; `Emphasis.StylesWithoutUnderscore` and `Emphasis.NestedEmphasis` state what the two passes give together. |
| Emphasis.PairsAreMatches | src/main/java/com/github/arena/challenges/weakmdparser/MarkdownParser.java:125-131 | On text without line terminators, a match is exactly two markers with at least one character between them. |
| Emphasis.AtMostOneReplacement | src/main/java/com/github/arena/challenges/weakmdparser/MarkdownParser.java:127 | On text without line terminators, nothing matches after the greedy match, so `replaceAll` replaces that one span and nothing else. |
| Emphasis.SingleReplacement | src/main/java/com/github/arena/challenges/weakmdparser/MarkdownParser.java:127 | A pass whose first match leaves nothing to match afterwards keeps the text before and after it and puts its group in tags. |
| Emphasis.NoMatchAfterGreedy | src/main/java/com/github/arena/challenges/weakmdparser/MarkdownParser.java:125-127 | On text without line terminators, no match starts after the greedy closer. |
| Emphasis.PassWithoutPairIsIdentity | src/main/java/com/github/arena/challenges/weakmdparser/MarkdownParser.java:127 | Text with no pair of markers is unchanged by a pass. |
| Emphasis.PassReplacesGreedySpan | src/main/java/com/github/arena/challenges/weakmdparser/MarkdownParser.java:125-131 | A pass replaces the span from the leftmost opener that has a closer at least one character later up to the last closer, by the non-empty text between them in tags, and keeps everything before and after. |
| Emphasis.GreedySpanExists | src/main/java/com/github/arena/challenges/weakmdparser/MarkdownParser.java:125-131 | Whenever a pair of markers exists, there is such a leftmost opener and a last closer. |
| Emphasis.StylesWithoutUnderscore | src/main/java/com/github/arena/challenges/weakmdparser/MarkdownParser.java:124-132 | Text without an underscore comes out of both passes unchanged: nothing is escaped. |
| Emphasis.BoldOnPlain | src/main/java/com/github/arena/challenges/weakmdparser/MarkdownParser.java:127 | The bold pass leaves text without an underscore unchanged. |
| Emphasis.ItalicOnPlain | src/main/java/com/github/arena/challenges/weakmdparser/MarkdownParser.java:131 | The italic pass leaves text without an underscore unchanged. |
| Emphasis.ItalicAfterBold | src/main/java/com/github/arena/challenges/weakmdparser/MarkdownParser.java:127-131 | On text without line terminators, the italic pass runs over the bold result and replaces only its first greedy match. |
| Emphasis.PassOnWrappedText | src/main/java/com/github/arena/challenges/weakmdparser/MarkdownParser.java:125-131 | `pre m x m post`, with no underscore in `pre` or `post`, becomes `pre <tag>x</tag> post` for any non-empty `x`, underscores in `x` included. |
| Emphasis.BoldOnWrapped | src/main/java/com/github/arena/challenges/weakmdparser/MarkdownParser.java:125-127 | `pre__x__post` becomes `pre<strong>x</strong>post`, with no underscore in `pre` or `post` and `x` non-empty. |
| Emphasis.ItalicOnWrapped | src/main/java/com/github/arena/challenges/weakmdparser/MarkdownParser.java:129-131 | `pre_x_post` becomes `pre<em>x</em>post`, with no underscore in `pre` or `post` and `x` non-empty. |
| Emphasis.BoldWord | src/main/java/com/github/arena/challenges/weakmdparser/MarkdownParser.java:124-132 | `__x__` renders as `<strong>x</strong>`, for non-empty `x` with no underscore. |
| Emphasis.BoldOfSingleUnderscores | src/main/java/com/github/arena/challenges/weakmdparser/MarkdownParser.java:125-127 | The bold pass leaves `_x_` alone, for non-empty `x` with no underscore. |
| Emphasis.ItalicWord | src/main/java/com/github/arena/challenges/weakmdparser/MarkdownParser.java:124-132 | `_x_` renders as `<em>x</em>`, for non-empty `x` with no underscore. |
| Emphasis.BoldOfTripled | src/main/java/com/github/arena/challenges/weakmdparser/MarkdownParser.java:125-127 | The bold pass turns `___x___` into `<strong>_x_</strong>`, for non-empty `x` with no underscore. |
| Emphasis.ItalicInStrong | src/main/java/com/github/arena/challenges/weakmdparser/MarkdownParser.java:129-131 | The italic pass turns `<strong>_x_</strong>` into `<strong><em>x</em></strong>`, for non-empty `x` with no underscore. |
| Emphasis.NestedEmphasis | src/main/java/com/github/arena/challenges/weakmdparser/MarkdownParser.java:124-132 | Bold runs first, so `___x___` renders as `<strong><em>x</em></strong>`, for non-empty `x` with no underscore. |
| LineClassifier.HashRun | src/main/java/com/github/arena/challenges/weakmdparser/MarkdownParser.java:84-90 | The count k satisfies 0 ≤ k ≤ the line's length, the first k characters are `#`, and the next one (if any) is not. |
| LineClassifier.CountHashSymbols | src/main/java/com/github/arena/challenges/weakmdparser/MarkdownParser.java:84-90 | The counting loop returns k with the same three properties, and k is `HashRun` of the line. |
| LineClassifier.Heading | src/main/java/com/github/arena/challenges/weakmdparser/MarkdownParser.java:72-75 | A heading starts with `<h` and is never a list fragment. |
| LineClassifier.ParseHeader | src/main/java/com/github/arena/challenges/weakmdparser/MarkdownParser.java:65-76 | The result is `null` exactly when the line has no leading `#`, and fails exactly when the line is all `#`, with the index and length of the failing `substring`. A heading it returns starts with `#` in the input and is no list fragment. |
| LineClassifier.HeaderLine | src/main/java/com/github/arena/challenges/weakmdparser/MarkdownParser.java:65-76 | `level` hashes, any non-`#` separator and `rest` give `<hlevel>` over `trim(rest)`: there is no cap on the level, the separator is dropped whatever it is, and no emphasis is applied. |
| LineClassifier.HeaderLineShape | src/main/java/com/github/arena/challenges/weakmdparser/MarkdownParser.java:65-73 | Every header line that does not fail has that shape, with its leading hash count as the level. |
| LineClassifier.ParseListItem | src/main/java/com/github/arena/challenges/weakmdparser/MarkdownParser.java:98-105 | The result is present exactly when the line starts with `* `, and is then a list fragment. |
| LineClassifier.ListItemPlain | src/main/java/com/github/arena/challenges/weakmdparser/MarkdownParser.java:98-105 | `* rest` without underscores becomes `<li>rest</li>`. |
| LineClassifier.ParseParagraph | src/main/java/com/github/arena/challenges/weakmdparser/MarkdownParser.java:113-115 | A paragraph starts with `<p>` and is never a list fragment. |
| LineClassifier.ParagraphPlain | src/main/java/com/github/arena/challenges/weakmdparser/MarkdownParser.java:113-115 | A line without underscores becomes `<p>line</p>`. |
| LineClassifier.ParseLine | src/main/java/com/github/arena/challenges/weakmdparser/MarkdownParser.java:45-57 | A line fails exactly when it is all `#`, with the `substring` error. Otherwise its fragment starts with `<li>` exactly when the line starts with `* `. |
| LineClassifier.ParseLineRules | src/main/java/com/github/arena/challenges/weakmdparser/MarkdownParser.java:45-57 | The rules apply in order: leading `#` gives the heading; `* ` gives the list item over the styled rest; anything else gives the paragraph. |
| Assembler.Group | src/main/java/com/github/arena/challenges/weakmdparser/MarkdownParser.java:16-34 | The fragments are cut into blocks that flatten back to them. Each list block is a non-empty run of list fragments, no two list blocks are adjacent, and the last block is a list exactly when the last fragment is a list item. |
| Assembler.GroupUnique | src/main/java/com/github/arena/challenges/weakmdparser/MarkdownParser.java:16-34 | That cut is the only one: any well-formed blocks are `Group` of their own fragments. |
| Assembler.Stream | src/main/java/com/github/arena/challenges/weakmdparser/MarkdownParser.java:19-29 | The text the loop has appended after some fragments: `<ul>` before a list item that follows no list item, `</ul>` before any other fragment that follows one, then the fragment. `MarkdownParser.Parse` keeps `result == Stream(fs)` as its invariant, and `Assembler.StreamRenders` relates it to the grouped document. |
| Assembler.StreamRenders | src/main/java/com/github/arena/challenges/weakmdparser/MarkdownParser.java:16-34 | The text the loop appends, followed by the final close when a list is still open, is the rendering of `Group`: one `<ul>`…`</ul>` around each maximal run of list items. |
| Assembler.EmitText | src/main/java/com/github/arena/challenges/weakmdparser/MarkdownParser.java:16-34 | The pieces of the blocks print as the rendered document. |
| Assembler.EmitContents | src/main/java/com/github/arena/challenges/weakmdparser/MarkdownParser.java:16-34 | The fragments among the pieces are the line fragments in input order. |
| Assembler.EmitBracketed | src/main/java/com/github/arena/challenges/weakmdparser/MarkdownParser.java:19-34 | No `<ul>` is emitted inside an open list, no `</ul>` outside one, and none is left open. |
| Assembler.RunBalances | src/main/java/com/github/arena/challenges/weakmdparser/MarkdownParser.java:19-34 | A sequence of pieces that the list state machine accepts has as many opens as closes, up to the start and end states. |
| Assembler.DocumentStructure | src/main/java/com/github/arena/challenges/weakmdparser/MarkdownParser.java:16-34 | The rendered document is a stream of pieces whose fragments are the inputs, whose lists never nest and are all closed, and with equally many `<ul>` and `</ul>`. |
| MarkdownParser.ParsedLines | src/main/java/com/github/arena/challenges/weakmdparser/MarkdownParser.java:16-17 | One result per line, each the line's `parseLine`. |
| MarkdownParser.Collect | src/main/java/com/github/arena/challenges/weakmdparser/MarkdownParser.java:16-17 | Collection succeeds exactly when every line does, and then holds every fragment in order. |
| MarkdownParser.CollectedErrorIsFirst | src/main/java/com/github/arena/challenges/weakmdparser/MarkdownParser.java:16-17 | A collected error is the error of a line that only successes precede. |
| MarkdownParser.FirstError | src/main/java/com/github/arena/challenges/weakmdparser/MarkdownParser.java:16-17 | The first failing line decides the error of the whole conversion. |
| MarkdownParser.Convert | src/main/java/com/github/arena/challenges/weakmdparser/MarkdownParser.java:11-37 | `parse` as a value: the rendered maximal-run document of the split lines, or the error of the first line that fails. `MarkdownParser.Parse` is proved to compute it; `MarkdownParser.ConvertFailure` and `MarkdownParser.ConvertStructure` state when it fails and what it produces. |
| MarkdownParser.Parse | src/main/java/com/github/arena/challenges/weakmdparser/MarkdownParser.java:11-37 | The loop keeps three invariants: `activeList` holds exactly when the last fragment appended is a list item; `result` is `Stream` of the fragments so far; they are the successful `parseLine` results of the lines so far. Its result equals `Convert`. |
| MarkdownParser.ConvertEmpty | src/main/java/com/github/arena/challenges/weakmdparser/MarkdownParser.java:12-37 | `parse("")` is `<p></p>`. |
| MarkdownParser.EmptyLineIsEmptyParagraph | src/main/java/com/github/arena/challenges/weakmdparser/MarkdownParser.java:45-57 | The empty line falls through to the paragraph rule and gives `<p></p>`. |
| MarkdownParser.ConvertNewline | src/main/java/com/github/arena/challenges/weakmdparser/MarkdownParser.java:12-37 | `parse("\n")` is the empty string. |
| MarkdownParser.ConvertOnlyNewlines | src/main/java/com/github/arena/challenges/weakmdparser/MarkdownParser.java:12-37 | `parse` of a text made only of newlines, at least one, is the empty string. |
| MarkdownParser.ConvertTrailingNewline | src/main/java/com/github/arena/challenges/weakmdparser/MarkdownParser.java:12 | `parse(s + "\n")` equals `parse(s)` for any non-empty `s`. |
| MarkdownParser.ConvertFailure | src/main/java/com/github/arena/challenges/weakmdparser/MarkdownParser.java:12-17 | `parse` fails exactly when some line is a non-empty run of `#`, and then with the `substring` error of the first such line. |
| MarkdownParser.ConvertStructure | src/main/java/com/github/arena/challenges/weakmdparser/MarkdownParser.java:11-37 | A successful `parse` has one fragment per line, in order. The output is a stream of pieces in which `<ul>` and `</ul>` alternate, never nest, are equal in number and leave no list open, and the fragments inside lists are the list items. |

## Left out

- General regular expressions: only the two fixed patterns `__(.+)__` and `_(.+)_` are modelled, as matcher functions.
- Emphasis theorems: the structural ones hold for any input, but the greedy-span statements assume the text has no line terminator (`NoLineTerminators`). Lines produced by `split("\n")` can still contain `\r`, U+0085, U+2028 or U+2029. On such lines the model itself still follows Java's `.`, but the only result about them is the definition.
- Emphasis.AtMostOneReplacement: requires `NoLineTerminators`, and says nothing about text that has a line terminator.
- Emphasis.PassReplacesGreedySpan: requires `NoLineTerminators`, for the same reason.
- Emphasis.ItalicAfterBold: requires `NoLineTerminators`, for the same reason.
- UTF-16: a Dafny `char` is a whole Unicode scalar value, while a Java `char` is one UTF-16 code unit. The two differ when the separator after the hashes of a header lies outside the Basic Multilingual Plane. `substring(level + 1)` then skips only the high surrogate and keeps the low one: `"#😀Title"` gives `<h1>`, the lone low surrogate, then `Title</h1>` in Java. The model gives `<h1>Title</h1>`.
- Exceptions: Java exceptions are an `Err` result rather than a thrown exception. Only `substring` in `parseHeader` can throw.
- `StringBuilder`: modelled as a string that the loop reassigns. Its capacity and growth are not modelled.
- Java `null`: the sentinel between the rules is `Option.None`. Nothing passes `null` into `parse` in the model.
