# GitHub alerts for the Joplin Markdown editor, modelled in Dafny

This project models the text logic of a Joplin plugin that edits GitHub-style
alert blockquotes such as `> [!NOTE] Optional title`. It covers:

- **Title-line parsers.** There are two of them; both recognise
  `^\s*>\s*\[!(note|tip|important|warning|caution)\](?:[ \t]+(.*))?$`
  without regard to case.
  - `AlertParsing` models `parseGitHubAlertTitleLine`. It returns the type, the marker range, the title and the hide range.
  - `GithubAlert` models the older variant, which returns the type and the title.

  Both are written as a hand-written matcher. The result is a tagged datatype: `NotAnAlert`, `BareAlert` or `TitledAlert`.
- **The insert-alert command** (`InsertAlertCommand`):
  - the pure text transform `toggleAlertSelectionText`;
  - the marker cycle on one line;
  - the command itself, which works over a document, a selection and a syntax tree. It:
    - expands each selection range to whole lines and paragraphs, then sorts and merges the ranges;
    - replaces a blank cursor line;
    - walks the enclosing blockquotes;
    - falls back to paragraph and line toggles.
- **The syntax-tree helpers** (`SyntaxTreeUtils`): probe positions, the paragraph search, the line-aligned paragraph range, and the collection of paragraph ranges.
- **The quote command** (`QuoteCommand`): `convertToBlockquoteText` and the command that quotes every non-empty selection range.
- **The test-harness marker parser** `parseSelectionMarkers` (`TestUtils`).

Supporting modules:

- `Text`: the JavaScript string primitives, i.e. `\s`, `trim`, `split`/`join` on `\n`, `indexOf`, single `replace` and ASCII case mapping.
- `Sorting`: a stable sort with a comparator.
- `Editor`: `lineAt`, selections, change specifications, the syntax tree as an oracle, and the view.
- `Wrappers`: `Option`/`Result`.

How the model is structured:

- **The document** is a `string`, and `lineAt(pos)` is `Editor.LineAt`.
- **The syntax tree** is an oracle.
  - `resolveInner(pos, bias)` gives the chain of a node and its ancestors, innermost first.
  - `iterate(from, to)` gives the nodes the iteration enters.
- **`view.dispatch`** is `Editor.EditorView.Dispatch`, a method on a class whose fields `doc` and `selection` it updates. It applies a list of `{from, to, insert}` changes and, optionally, places a cursor. Without a cursor it keeps the old selection, clamped to the new document, so views stay valid from command to command.
- **Loops stay loops.** The source's loops are imperative methods with invariants, each proved equal to a specification function:
  - the filter of probe positions;
  - the ancestor walks;
  - the iteration over paragraph nodes;
  - the range expansion;
  - the merge, which updates the last range in place;
  - the blockquote walk, with its early return and its `outermostBlockquoteFrom` variable.
- **Properties** are proved as lemmas about those functions.

The title-line pattern of src/alerts/alertParsing.ts:41 admits exactly one
`>` before the marker, so `>> [!NOTE]` is not an alert title line
(`AlertParsing.TwoQuoteMarkers`, `AlertParsing.ExampleNested`). The nesting
prefix that the comment at src/contentScripts/codeMirror/insertAlertCommand.ts:54
speaks of is `BLOCKQUOTE_PREFIX_PATTERN` of that file, which
`getBlockquotePrefix` and `isBlockquoteLine` use. So quoted text whose first
line is not an alert keeps its depth: the test at
src/contentScripts/codeMirror/insertAlertCommand.test.ts:20-22 puts
`>> [!NOTE]` above `>> Nested line` (`InsertAlertCommand.ToggleQuoted`).
The model follows the code in both places.

## Model

| member | source | states |
|---|---|---|
| AlertParsing.TypeIndex | src/alerts/alertParsing.ts:1 | every type has its index in the fixed list of five types |
| AlertParsing.NextType | src/contentScripts/codeMirror/insertAlertCommand.ts:38-40 | the next type has index `(indexOf(type) + 1) % 5` |
| AlertParsing.NextTypeTable | src/contentScripts/codeMirror/insertAlertCommand.ts:38-40 | the cycle is note, tip, important, warning, caution, note |
| AlertParsing.CycleFive | src/contentScripts/codeMirror/insertAlertCommand.ts:38-40 | cycling five times returns to the starting type |
| AlertParsing.CycleShorter | src/contentScripts/codeMirror/insertAlertCommand.ts:38-40 | cycling one to four times never returns to it |
| AlertParsing.TypeOfToken | src/alerts/alertParsing.ts:41-52 | a token names a type exactly when its lower-cased form is that type's name, so matching ignores case and the type is the lower-cased token |
| AlertParsing.UpperToken | src/contentScripts/codeMirror/insertAlertCommand.ts:40 | the upper-case name the commands write names the same type again |
| AlertParsing.MatchCuts | src/alerts/alertParsing.ts:40-43 | the cut points found have the pattern's shape: whitespace, one `>`, whitespace, `[!`, a token without `]`, `]`, then the end of the line or a maximal space/tab run and text without line terminators |
| AlertParsing.CutsUnique | src/alerts/alertParsing.ts:40-43 | every cut with that shape is the one the matcher finds, so the match is unique |
| AlertParsing.MatchTitleLine | src/alerts/alertParsing.ts:46-48 | the parts found are well formed and reassemble to the line |
| AlertParsing.MatchAssembled | src/alerts/alertParsing.ts:46-48 | the matcher gives back the parts of every line assembled from well-formed parts |
| AlertParsing.ParseTitleLine | src/alerts/alertParsing.ts:45-71 | both ranges lie in the line, `0 <= from < to <= length`; the hide range starts at the marker and ends after it |
| AlertParsing.ParsePlaced | src/alerts/alertParsing.ts:50-70 | a parsed line has before the marker whitespace with exactly one `>`; the marker is `[!` + the token as written + `]` and the token lower-cased is the type's name; after it comes the end of line or a space or tab; the line is bare exactly when the text after the marker trims to empty; the title is that trimmed text; the hide range covers the marker and the whole space/tab run |
| AlertParsing.ParseMatchesGrammar | src/alerts/alertParsing.ts:40-48 | the result is `null` exactly when no well-formed parts assemble to the line |
| AlertParsing.ParseAssembled | src/alerts/alertParsing.ts:50-70 | an assembled line parses to the record its parts give: marker from the prefix length, length of `[!token]`, trimmed title, hide range over the space run |
| AlertParsing.ParseAt | src/alerts/alertParsing.ts:40-52 | a line cut in the pattern's shape parses to its parts' record when the token names a type and is not an alert otherwise |
| AlertParsing.NoMarkerAfterPrefix | src/alerts/alertParsing.ts:41 | a line whose `>` prefix is not followed directly by `[!` is not an alert |
| AlertParsing.TwoQuoteMarkers | src/alerts/alertParsing.ts:41 | a line with two `>` before the marker is not an alert |
| AlertParsing.UnknownType | src/alerts/alertParsing.ts:41 | a bracketed token naming none of the five types is not an alert |
| AlertParsing.GluedAfterMarker | src/alerts/alertParsing.ts:41 | a `]` followed directly by a character other than space or tab is not an alert |
| AlertParsing.ReplaceMarker | src/contentScripts/codeMirror/insertAlertCommand.ts:73-76 | writing another type's marker over the marker range gives an alert of that type with the same prefix, kind, title and space run |
| AlertParsing.ExampleBare | src/alerts/alertParsing.test.ts:10-19 | `> [!NOTE]` is a bare note with marker range 2..9 |
| AlertParsing.ExampleTitled | src/alerts/alertParsing.test.ts:21-33 | `> [!warning] Optional title` is a warning titled `Optional title`, hide range `[!warning] ` |
| AlertParsing.ExampleMixedCase | src/alerts/alertParsing.test.ts:35-44 | `> [!Tip] My title` keeps the marker length of `[!Tip]` and hides `[!Tip] ` |
| AlertParsing.ExampleIndented | src/alerts/alertParsing.test.ts:46-55 | `   >    [!NOTE]   Title` hides the marker and all three spaces |
| AlertParsing.ExampleIndentedBare | src/alerts/alertParsing.ts:38 | `   >    [!Tip]` is a bare tip |
| AlertParsing.ExampleNoQuote | src/alerts/alertParsing.test.ts:5 | a marker with no `>` is not an alert |
| AlertParsing.ExampleNoBang | src/alerts/alertParsing.test.ts:6 | `> [NOTE] Title` is not an alert |
| AlertParsing.ExampleUnknown | src/alerts/alertParsing.test.ts:7 | `> [!unknown] Title` is not an alert |
| AlertParsing.ExampleNested | src/alerts/alertParsing.ts:41 | `>> [!NOTE]` is not an alert |
| GithubAlert.ParseLegacy | src/alerts/githubAlert.ts:15-24 | the old parser accepts exactly the lines the title-line matcher accepts |
| GithubAlert.LegacyTitleTrimmed | src/alerts/githubAlert.ts:21-23 | a reported title is the trimmed rest of the line, never empty, and has no whitespace at either end |
| GithubAlert.LegacyAgrees | src/alerts/githubAlert.ts:13-24 | the old and the new parser accept the same lines, agree on the type, and the old one has a title exactly when the new one reports a titled alert, with the same title |
| GithubAlert.LegacyAssembled | src/alerts/githubAlert.ts:20-23 | on an assembled line the type is the lower-cased token and the title is the trimmed rest when it is not empty |
| GithubAlert.ExamplesLegacy | src/alerts/githubAlert.ts:9-11 | the three lines of the documentation comment parse to note, warning titled `Optional title`, and tip |
| Text.Split | src/contentScripts/codeMirror/quoteCommand.ts:7 | `split('\n')` gives at least one piece, none holding a line feed, and joining them gives the text back |
| Text.SplitJoin | src/contentScripts/codeMirror/quoteCommand.ts:7-9 | splitting undoes a join of pieces without line feeds |
| Text.SplitCount | src/contentScripts/codeMirror/quoteCommand.ts:7 | there is one more piece than there are line feeds |
| Text.TrimSpec | src/alerts/alertParsing.ts:55 | `trim` drops a whitespace run at each end and keeps the rest |
| Text.IndexOf | src/contentScripts/codeMirror/testUtils.ts:21-23 | the result is `-1` and the pattern does not occur, or it is the first place where the pattern occurs |
| Text.RemoveFirstSpec | src/contentScripts/codeMirror/testUtils.ts:36 | `replace(pat, '')`: the text is unchanged when the pattern does not occur; otherwise its first occurrence is cut out |
| Editor.LineAt | src/contentScripts/codeMirror/insertAlertCommand.ts:148 | `lineAt(pos)` is the stretch around `pos` without line feeds, bounded by line feeds or the ends of the document |
| Editor.LineAtInside | src/contentScripts/codeMirror/insertAlertCommand.ts:176 | every offset of a line finds that same line |
| Editor.EditorView.Dispatch | src/contentScripts/codeMirror/insertAlertCommand.ts:152-159 | the document becomes the changed document; the selection becomes the given cursor, which must lie in the new document, or else the old selection clamped to the new length; a valid view stays valid |
| Editor.ApplyOne | src/contentScripts/codeMirror/insertAlertCommand.ts:193-195 | one change replaces its stretch by its text |
| Sorting.SortBySpec | src/contentScripts/codeMirror/insertAlertCommand.ts:116-117 | sorting with a consistent comparator orders the ranges and is a permutation of them |
| SyntaxTreeUtils.Clamp | src/contentScripts/codeMirror/syntaxTreeUtils.ts:45-47 | a clamped position lies in `[0, doc.length]` and an in-range one is unchanged |
| SyntaxTreeUtils.KeepFirstSpec | src/contentScripts/codeMirror/syntaxTreeUtils.ts:48 | the filter keeps every value, adds none, repeats none, and starts with the first value |
| SyntaxTreeUtils.KeepFirstOrder | src/contentScripts/codeMirror/syntaxTreeUtils.ts:48 | the kept values are in the order of their first occurrences |
| SyntaxTreeUtils.FilterFirstOccurrences | src/contentScripts/codeMirror/syntaxTreeUtils.ts:48 | the loop keeping each value whose first index is its own index computes the filter |
| SyntaxTreeUtils.ProbePositionsSpec | src/contentScripts/codeMirror/syntaxTreeUtils.ts:25-49 | every probe lies in the document, none repeats, the first is the position, and the probes are exactly the clamped candidates `pos`, `pos+1`, `pos-1` (not at the line start), `afterPrefix`, `afterPrefix+1` (when the prefix matches) |
| SyntaxTreeUtils.GetProbePositions | src/contentScripts/codeMirror/syntaxTreeUtils.ts:25-49 | the method returns those probes, in the document, without repeats, starting with the position |
| SyntaxTreeUtils.FirstNamed | src/contentScripts/codeMirror/syntaxTreeUtils.ts:60-65 | the search finds nothing exactly when no node has the name; otherwise it finds the first node with it |
| SyntaxTreeUtils.ChainsSearchSpec | src/contentScripts/codeMirror/syntaxTreeUtils.ts:58-74 | searching the probes' chains finds nothing exactly when no chain holds a paragraph; what it finds is a paragraph in some probe's chain |
| SyntaxTreeUtils.ParagraphAtSpec | src/contentScripts/codeMirror/syntaxTreeUtils.ts:51-77 | `findParagraphNodeAt` is `null` exactly when no bias -1 or +1 chain of any probe holds a paragraph; otherwise it returns a paragraph from such a chain |
| SyntaxTreeUtils.FindParagraphNodeAt | src/contentScripts/codeMirror/syntaxTreeUtils.ts:51-77 | the loops over probes and then bias -1 and +1 parent chains, with early return, return the first paragraph |
| SyntaxTreeUtils.GetParagraphLineRange | src/contentScripts/codeMirror/syntaxTreeUtils.ts:79-84 | the range lies in the document |
| SyntaxTreeUtils.ParagraphLineRangeSpec | src/contentScripts/codeMirror/syntaxTreeUtils.ts:79-84 | the range runs from the start of the line holding `node.from` to the end of the line holding `max(node.from, node.to - 1)`, so `from <= node.from` and it is line aligned |
| SyntaxTreeUtils.ParagraphRangesSpec | src/contentScripts/codeMirror/syntaxTreeUtils.ts:86-113 | the result holds the line range of every paragraph node entered and nothing else, each once, sorted by start |
| SyntaxTreeUtils.SortByFromStable | src/contentScripts/codeMirror/syntaxTreeUtils.ts:112 | sorting by start keeps the order of ranges with the same start |
| SyntaxTreeUtils.CollectParagraphRanges | src/contentScripts/codeMirror/syntaxTreeUtils.ts:86-113 | the iteration with the seen set and the final sort computes that result |
| InsertAlertCommand.DefaultMarker | src/contentScripts/codeMirror/insertAlertCommand.ts:16-21 | `createAlertLine` writes the default type's marker `[!NOTE]` |
| InsertAlertCommand.BlockquotePrefixSpec | src/contentScripts/codeMirror/insertAlertCommand.ts:27-30 | the prefix found is the longest start of the line made of whitespace and `>`, and holds a `>`; none is found exactly when no such start holds a `>` |
| InsertAlertCommand.QuotedIsBlockquote | src/contentScripts/codeMirror/insertAlertCommand.ts:23-25 | a line starting with `>` is a blockquote line |
| InsertAlertCommand.AlertIsBlockquote | src/contentScripts/codeMirror/insertAlertCommand.ts:23-25 | an alert title line is a blockquote line |
| InsertAlertCommand.BlockquoteLinePrefix | src/contentScripts/codeMirror/insertAlertCommand.ts:17 | there is a match of `^>\s?` exactly when the line starts with `>`; its length is 1 or 2, within the line, and it is 2 exactly when the second character is `\s` whitespace |
| InsertAlertCommand.ToggleUnquoted | src/contentScripts/codeMirror/insertAlertCommand.ts:58-64 | text with an unquoted line becomes `> [!NOTE]`, a bare note, followed by every input line prefixed with `> `; there is one more line, and all are quoted |
| InsertAlertCommand.ToggleAlert | src/contentScripts/codeMirror/insertAlertCommand.ts:66-78 | in quoted text whose first line is an alert, only that line's marker range is replaced, by the next type's upper-case marker; the other lines are unchanged |
| InsertAlertCommand.CycledLineSpec | src/contentScripts/codeMirror/insertAlertCommand.ts:66-78 | the cycled line is an alert of the next type, with its marker at the same place and the same title |
| InsertAlertCommand.ToggleQuoted | src/contentScripts/codeMirror/insertAlertCommand.ts:81-82 | quoted text whose first line is no alert gets the first line's blockquote prefix + `[!NOTE]` in front, with the lines verbatim; so nesting depth is kept |
| InsertAlertCommand.ToggleCycles | src/contentScripts/codeMirror/insertAlertCommand.ts:66-78 | after one toggle of a quoted alert, five more toggles give the same text again |
| InsertAlertCommand.MarkerEditCycles | src/contentScripts/codeMirror/insertAlertCommand.ts:42-46 | the edit on the line turns it into the cycled line |
| InsertAlertCommand.MarkerChangeCycles | src/contentScripts/codeMirror/insertAlertCommand.ts:42-47 | the change lies in the line and putting it into the document replaces the line by its cycled form |
| InsertAlertCommand.MarkerChangeIff | src/contentScripts/codeMirror/insertAlertCommand.ts:33-36 | there is a change exactly for an alert title line |
| InsertAlertCommand.ToggleAlertMarkerOnLine | src/contentScripts/codeMirror/insertAlertCommand.ts:32-49 | a non-alert line gives `false` and no change; an alert line gives `true` and the document with the marker cycled; the selection is clamped to the new document, and a valid view stays valid |
| InsertAlertCommand.NonEmptyRanges | src/contentScripts/codeMirror/insertAlertCommand.ts:97 | exactly the ranges that are not empty are kept |
| InsertAlertCommand.ExpandWithSpec | src/contentScripts/codeMirror/insertAlertCommand.ts:104-112 | with `min(lineStart, first paragraph from)` and `max(lineEnd, last paragraph to)` the range holds the selection, is line aligned, starts no later than any paragraph and ends no earlier than the last |
| InsertAlertCommand.ExpandRangeSpec | src/contentScripts/codeMirror/insertAlertCommand.ts:101-114 | the same for the paragraphs `collectParagraphRanges` reports over the range |
| InsertAlertCommand.ExpandRanges | src/contentScripts/codeMirror/insertAlertCommand.ts:100-114 | the loop pushes one expanded range per non-empty range, in order |
| InsertAlertCommand.MergeRanges | src/contentScripts/codeMirror/insertAlertCommand.ts:118-130 | the reduce, which extends the last merged range in place when the next starts no later than it ends, computes the merge |
| InsertAlertCommand.MergeSeparated | src/contentScripts/codeMirror/insertAlertCommand.ts:116-130 | merged ranges are proper and each ends strictly before the next starts: sorted, pairwise disjoint and not touching |
| InsertAlertCommand.MergeCovers | src/contentScripts/codeMirror/insertAlertCommand.ts:116-130 | the merged ranges cover exactly the offsets of the sorted ranges |
| InsertAlertCommand.MergeContains | src/contentScripts/codeMirror/insertAlertCommand.ts:116-130 | each input range lies inside one merged range |
| InsertAlertCommand.SelectionChangesFit | src/contentScripts/codeMirror/insertAlertCommand.ts:132-141 | the changes lie in the document in order without overlap, each spans whole lines and inserts that text toggled |
| InsertAlertCommand.SelectionPipeline | src/contentScripts/codeMirror/insertAlertCommand.ts:99-141 | the changes come from expanding, sorting (same ranges) and merging, all line aligned |
| InsertAlertCommand.SelectionChangesCover | src/contentScripts/codeMirror/insertAlertCommand.ts:99-143 | every non-empty selection range lies inside one change |
| InsertAlertCommand.SelectionChangesExact | src/contentScripts/codeMirror/insertAlertCommand.ts:99-143 | the changes cover exactly the offsets of the expanded ranges |
| InsertAlertCommand.SelectionCommand | src/contentScripts/codeMirror/insertAlertCommand.ts:99-145 | the selection branch dispatches those changes, clamps the selection to the new document and leaves a valid view |
| InsertAlertCommand.QuoteChangeAt | src/contentScripts/codeMirror/insertAlertCommand.ts:173-177 | the change at a blockquote lies in the document |
| InsertAlertCommand.FirstChangeSpec | src/contentScripts/codeMirror/insertAlertCommand.ts:170-184 | the walk toggles nothing exactly when no node gives a change; otherwise it toggles at the first node that gives one |
| InsertAlertCommand.LastNamedSpec | src/contentScripts/codeMirror/insertAlertCommand.ts:173-174 | `outermostBlockquoteFrom` comes from the last blockquote met: none exactly when no node is a blockquote |
| InsertAlertCommand.ToggleAtNode | src/contentScripts/codeMirror/insertAlertCommand.ts:173-179 | at a blockquote whose start line is an alert, the marker is cycled and `true` returned; otherwise nothing changes |
| InsertAlertCommand.WalkChain | src/contentScripts/codeMirror/insertAlertCommand.ts:171-183 | the parent walk toggles at the first such blockquote of the chain, or changes nothing and yields the start of the last blockquote met |
| InsertAlertCommand.WalkBlockquotes | src/contentScripts/codeMirror/insertAlertCommand.ts:170-184 | the same over the bias -1 chains of all probes in order |
| InsertAlertCommand.OuterFromFits | src/contentScripts/codeMirror/insertAlertCommand.ts:186-188 | the remembered blockquote start lies in the document |
| InsertAlertCommand.ParagraphOrLine | src/contentScripts/codeMirror/insertAlertCommand.ts:200-217 | the range toggled by the fallback lies in the document |
| InsertAlertCommand.ParagraphOrLineSpec | src/contentScripts/codeMirror/insertAlertCommand.ts:200-217 | that range is line aligned: the paragraph's lines when one is found, else the cursor's line |
| InsertAlertCommand.ParagraphCommand | src/contentScripts/codeMirror/insertAlertCommand.ts:200-225 | the paragraph or line is replaced by its toggled text |
| InsertAlertCommand.BlockquoteCommand | src/contentScripts/codeMirror/insertAlertCommand.ts:165-225 | the walk's change, else the insertion above, else the paragraph toggle is dispatched |
| InsertAlertCommand.CursorCommand | src/contentScripts/codeMirror/insertAlertCommand.ts:147-225 | the cursor branch dispatches the cursor transaction; the selection becomes its cursor or the old selection clamped, and a valid view stays valid |
| InsertAlertCommand.InsertAlert | src/contentScripts/codeMirror/insertAlertCommand.ts:93-227 | the command always returns `true` and dispatches the selection branch when a range is non-empty, the cursor branch at the main head otherwise |
| InsertAlertCommand.BlankBranch | src/contentScripts/codeMirror/insertAlertCommand.ts:149-160 | a whitespace-only cursor line takes the blank-line transaction before any other branch |
| InsertAlertCommand.AlertLineBranch | src/contentScripts/codeMirror/insertAlertCommand.ts:162-164 | otherwise an alert title line under the cursor takes the marker change alone |
| InsertAlertCommand.WalkBranch | src/contentScripts/codeMirror/insertAlertCommand.ts:165-184 | otherwise the transaction is the one change the blockquote walk and its fallbacks produce |
| InsertAlertCommand.AboveBranch | src/contentScripts/codeMirror/insertAlertCommand.ts:186-214 | when the walk toggles nothing, the change is the insertion above when there is one, else the paragraph change |
| InsertAlertCommand.ExampleBlank | src/contentScripts/codeMirror/insertAlertCommand.ts:150 | `> [!NOTE] ` is a bare note alert |
| InsertAlertCommand.BlankLineOutcome | src/contentScripts/codeMirror/insertAlertCommand.ts:149-160 | on a whitespace-only line the line becomes `> [!NOTE] ` and the cursor lands at `line.from + 10`, the end of the new line |
| InsertAlertCommand.AlertLineOutcome | src/contentScripts/codeMirror/insertAlertCommand.ts:162-164 | on an alert title line the line's marker cycles to the next type, nothing else changes and no cursor is set |
| InsertAlertCommand.WalkOutcome | src/contentScripts/codeMirror/insertAlertCommand.ts:170-184 | when the walk meets a blockquote starting on an alert line, the first such one's start line is cycled, and the blockquotes before it start on no alert line |
| InsertAlertCommand.InsertAboveOutcome | src/contentScripts/codeMirror/insertAlertCommand.ts:186-198 | when no blockquote met starts on an alert line, the line `prefix[!NOTE]` and a line feed are inserted before the start line of the outermost one, with that line's blockquote prefix |
| InsertAlertCommand.ParagraphOutcome | src/contentScripts/codeMirror/insertAlertCommand.ts:200-225 | otherwise the paragraph around the cursor, or the cursor's line, is replaced by its toggled text |
| InsertAlertCommand.CursorFits | src/contentScripts/codeMirror/insertAlertCommand.ts:147-225 | the cursor branch's changes lie in the document and its cursor in the new document |
| InsertAlertCommand.CommandFits | src/contentScripts/codeMirror/insertAlertCommand.ts:93-227 | so does whatever the command dispatches |
| QuoteCommand.ConvertLines | src/contentScripts/codeMirror/quoteCommand.ts:5-10 | the output has as many lines as the input, each starts with `> `, and the rest of each is the input line |
| QuoteCommand.StripConvert | src/contentScripts/codeMirror/quoteCommand.ts:5-10 | removing the leading `> ` from each line gives the input back |
| QuoteCommand.QuotedLength | src/contentScripts/codeMirror/quoteCommand.ts:8-9 | prefixing the lines adds two characters per line |
| QuoteCommand.ConvertLength | src/contentScripts/codeMirror/quoteCommand.ts:5-10 | the output length is the input length plus 2 × (number of line feeds + 1) |
| QuoteCommand.NonEmptyOrdered | src/contentScripts/codeMirror/quoteCommand.ts:16 | dropping empty ranges keeps the others in document order without overlap |
| QuoteCommand.QuoteChanges | src/contentScripts/codeMirror/quoteCommand.ts:22-31 | one change per non-empty range, spanning exactly its `from..to`; the changes lie in the document in order without overlap |
| QuoteCommand.QuoteChangesInsert | src/contentScripts/codeMirror/quoteCommand.ts:23-29 | each change inserts text whose every line starts with `> `, whose stripped form is the range's text, and which is two characters per line longer |
| QuoteCommand.QuoteSelection | src/contentScripts/codeMirror/quoteCommand.ts:12-35 | with no non-empty range it returns `false` and changes nothing; otherwise it dispatches those changes and returns `true`; the view stays valid |
| TestUtils.IndexOfFound | src/contentScripts/codeMirror/testUtils.ts:21-23 | `indexOf` is not `-1` exactly when the marker occurs |
| TestUtils.MarkerCheckSpec | src/contentScripts/codeMirror/testUtils.ts:25-34 | the parser throws when exactly one of `[[`/`]]` occurs, when both occur together with `\|`, and when the first `]]` comes before the first `[[`, for each error exactly then |
| TestUtils.ParseSelectionMarkers | src/contentScripts/codeMirror/testUtils.ts:20-48 | it fails exactly with those errors; otherwise, putting `[[` at the anchor and `]]` at the head, or `\|` at the cursor, into the document gives back the input; the anchor is where the first `[[` of the input starts and the head is where its first `]]` starts, minus 2; with only a cursor marker, anchor = head = where the first `\|` starts; with no marker the document is the input and anchor = head = 0 |
| TestUtils.AsWrittenAgrees | src/contentScripts/codeMirror/testUtils.ts:36-39 | the code as written gives the same result unless removing `[[` joins a `]` before it and a `]` after it |
| TestUtils.AsWrittenLosesText | src/contentScripts/codeMirror/testUtils.ts:36-39 | on `x][[]y]]` the code as written gives `xy]]`, which does not restore the input; the corrected parser gives `x]]y` |

## Left out

- `getSyntaxTree` (syntaxTreeUtils.ts:17-23) is a timeout and fallback around a foreign parser. The model has it return one tree oracle per command. The source asks for a tree per selection range; all of those calls see the same state.
- The Lezer Markdown grammar, which decides what is a `paragraph` or `blockquote` node, is left out. The tree is an oracle, and `TreeFits` assumes only that its nodes lie in the document.
- Editor.EditorView.Dispatch: when a transaction sets no cursor, CodeMirror maps the old selection through the changes. The model keeps the old selection and clamps each end to the new document's length. That keeps every view valid, but a range end after or inside a change does not move to where CodeMirror's mapping would put it.
- Unicode `\s`, `trim` and case folding are written out as characters. `\s` and `trim` use the ECMAScript whitespace set, and case mapping is ASCII only. No other regular-expression engine behaviour is modelled.
- Offsets count Dafny `char`s, which are Unicode scalar values. The program's offsets count UTF-16 code units. This covers `lineAt`, selection anchors and heads, `markerRange`, and `indexOf` in `parseSelectionMarkers`. On text with a character outside the Basic Multilingual Plane, such as an emoji, every later offset in the model is one less per such character than the program's. The edits themselves are the same.
- Offsets are unbounded naturals. JavaScript numbers are doubles, and documents never reach their limits.
- `createEditorHarness` (testUtils.ts:50-65) builds a DOM view. It is left out.
- The Joplin registration, menus, settings and toasts are host plumbing and are left out. They live in src/commands.ts, src/quoteSelectionCommand.ts, src/insertNoteAlertCommand.ts, src/index.ts and contentScript.ts.
- The CodeMirror decorations and widgets (alertDecorations.ts, ghAlertsEditor.ts) are rendering glue and are left out.
- The markdown-it delegation (src/contentScripts/markdownIt/) and the colour table (src/alerts/alertColors.ts) are left out.
- `toggleBlockquoteText` and `createInsertQuoteCommand` are not part of this model. insertQuoteCommand.test.ts and quoteCommand.test.ts call them, but none of the files defines them. quoteCommand.test.ts also expects cursor and paragraph behaviour that quoteCommand.ts does not have: on a bare cursor it returns `false`. It also expects a selection over `> Quoted line`, an empty line and `Plain line` to leave the quoted line alone (quoteCommand.test.ts:104-109), while `convertToBlockquoteText` prefixes every line, giving `> > Quoted line`. The model follows quoteCommand.ts.
- InsertAlertCommand.NonEmptyRanges: its contract states which ranges are kept, not that they stay in order. The order follows from its definition as an in-order filter, and QuoteCommand.NonEmptyOrdered proves it for ordered selections.
- SyntaxTreeUtils.GetParagraphLineRange: its own contract states only the bounds. ParagraphLineRangeSpec states the full property.

## Findings

| source | as written | input that shows it | evidently intended | confidence | as-written member | corrected member |
|---|---|---|---|---|---|---|
| src/contentScripts/codeMirror/testUtils.ts:36-38 | The document is `input.replace('[[', '').replace(']]', '')`, and the head is `input.indexOf(']]') - 2`. The second `replace` takes the first `]]` of the string with `[[` already removed. That can be a `]]` formed by a `]` just before `[[` and a `]` just after it. | `x][[]y]]`: the document becomes `xy]]` with selection 2..4. Putting the markers back gives `xy[[]]]]`. | Remove the two markers where they were found, which gives the document `x]]y` with `]y` selected. | low; not executed | TestUtils.ParseSelectionMarkersAsWritten (shown by TestUtils.AsWrittenLosesText) | TestUtils.ParseSelectionMarkers |
