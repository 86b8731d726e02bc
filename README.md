# codereplacer — a Dafny model of the search-and-replace core

codereplacer is a VS Code extension that finds code by the shape of its
syntax tree and replaces every match. The user pastes a snippet into a side
panel. The extension parses the snippet with the TypeScript compiler and walks
the open document's tree. It records every run of sibling nodes that is
"basically equal" to the snippet's statements, highlights those ranges in the
editor, and on request replaces them all in one edit. For languages the
TypeScript parser does not cover, and as a fallback when the tree search finds
nothing, it searches comment-stripped, whitespace-collapsed text. Each
occurrence is mapped back to an approximate range of the original document.

This project models that core in Dafny and proves what it promises. It has
these modules, one per source file or concern:

| module | file | models |
|---|---|---|
| `Syntax` | `syntax.dfy` | the parsed tree (`Node`, kinds, optional lists), ranges and match results |
| `JsStrings` | `js_strings.dfy` | JavaScript string semantics: `trim`, `indexOf`, `lastIndexOf`, clamping `substring`, `split('\n')` |
| `TextUtils` | `text_utils.dfy` | `normalizeAndCleanText` and `normalizeText` (`src/textUtils.ts`, and the copy in `src/extension.ts`) |
| `AstUtils` | `ast_utils.dfy` | structural equivalence and pattern selection (`src/astUtils.ts`) |
| `SequenceMatcher` | `sequence_matcher.dfy` | `findASTSequences` and `visit` in `highlightTextInEditor` |
| `ApproxRange` | `approx_range.dfy` | the mapping from a normalized-text index back to an original range |
| `EditorTextSearch` | `editor_text_search.dfy` | `_performTextSearch` in `src/editorActions.ts` |
| `FuzzyTextSearch`, `FuzzyFinding` | `fuzzy_text_search.dfy`, `fuzzy_finding.dfy` | `performTextSearch` in `src/textSearch.ts`, and a defect in its loop |
| `State` | `state.dfy` | the shared state holder (`src/state.ts`) as a class |
| `Edits` | `edits.dfy` | sorting by descending start and the batch edit as successive splices |
| `EditorActions` | `editor_actions.dfy` | language dispatch, fallback merge, highlight, replace and clear (`src/editorActions.ts`) |
| `LegacyEquivalence` | `legacy_equivalence.dfy` | the earlier equivalence in `src/extension.ts`, which forwards `ignoreIdentifiers` everywhere |
| `LegacyExtension` | `legacy_extension.dfy` | the earlier single-node `visit`, replace and clear in `src/extension.ts` |

## Modelling choices

- **Parser output.** The TypeScript parser is not modelled. Its output is a
  `Node` value: a kind tag, the node's text, its start and end offsets, the
  `getChildren` list, the `forEachChild` list and the kind-specific fields the
  comparison reads. A field that may be `undefined` is an `Option` or a
  `NodeList` (`Missing` or `Present`). Kind numbers are distinct placeholders;
  TypeScript's own numbering is not reproduced.
- **Parse of the find text.** `parseCodeToAST` takes the parser's outcome as a
  parameter, `Threw` or `Parsed(statements)`.
- **Positions.** Offsets are characters of a `string`, and `positionAt` is the
  identity. A range is a pair of offsets.
- **State.** The module-level state of `src/state.ts` is a class,
  `State.ExtensionState`. Its methods carry `modifies` clauses. The editor's view
  of the decoration type sits beside it: the ranges it shows, and which types
  were disposed. That lets the editor actions state what the user sees.
- **Editor edit.** `editor.edit` is modelled as successive splices in
  descending start order. VS Code rejects a batch whose ranges overlap, so
  overlap is modelled as a failed edit. A concurrent modification of the
  document is a boolean parameter. So is the presence of an active editor.
- **Fuzzy matching.** `string-similarity` is a foreign library. It is an
  oracle: a function from the search start to either nothing or an index at
  or after it, inside the normalized document.
- **Rounding.** `Math.round(m * L / max(1, N))` is modelled exactly, as
  `floor((2 m L + N') / (2 N'))` with `N' = max(1, N)`. That is round half up
  on the exact rational, not on a floating-point product.
- **Where the code and the description disagree, the model follows the code.**
  - `src/textSearch.ts` maps `matchIndex = -1` before it breaks out of the
    loop (see Findings).
  - `src/astUtils.ts` passes `false` to all nested comparisons except the
    function-like `name`.
  - The earlier `highlightTextInEditor` in `src/extension.ts` (line 462) calls
    the comparison without the flag, so it compares with `false`. Its
    traversal uses `forEachChild`, so the root node itself is never compared.

## Model

| member | source | states |
|---|---|---|
| JsStrings.TrimStart | src/textUtils.ts:59 | the result is a suffix of the input; everything dropped is JS whitespace; the result does not start with whitespace |
| JsStrings.TrimEnd | src/textUtils.ts:59 | the result is a prefix of the input; everything dropped is JS whitespace; the result does not end with whitespace |
| JsStrings.Trim | src/editorActions.ts:142 | `String.prototype.trim` is `trimEnd` after `trimStart`: a contiguous slice of the input with no whitespace at either edge, empty exactly when the input is blank |
| JsStrings.TrimIsTrimmedAt | src/editorActions.ts:142 | the trimmed text is the input with only whitespace removed before and after it, and its own edges are not whitespace |
| JsStrings.TrimUnique | src/editorActions.ts:142 | any slice with whitespace-only margins and non-whitespace edges is the trimmed text, so the characterisation pins `trim` down |
| JsStrings.TrimmedEmptyIffBlank | src/editorActions.ts:144-147 | trimming yields the empty string if and only if every character is whitespace, the test behind `if (!trimmedTextToFind)` |
| JsStrings.LineTerminatorIsWhitespace | src/textUtils.ts:26 | every line terminator excluded by the regex `.` is also matched by `\s` |
| JsStrings.IndexOf | src/editorActions.ts:48 | `indexOf(pat, from)` returns -1 or an index at or after the clamped start where the pattern fits |
| JsStrings.IndexOfSpec | src/editorActions.ts:48 | a result other than -1 is the first occurrence at or after the clamped start; -1 means there is no occurrence there |
| JsStrings.LastIndexOf | src/editorActions.ts:74 | `lastIndexOf` returns -1 or an index inside the string |
| JsStrings.LastIndexOfSpec | src/editorActions.ts:74 | a result other than -1 is an occurrence with none after it; -1 means there is no occurrence at all |
| JsStrings.LastIndexOfBelowSpec | src/editorActions.ts:74 | the backwards scan from a bound finds the last occurrence at or below it, or reports that none exists |
| JsStrings.ClampIndex | src/editorActions.ts:61 | an index is clamped into [0, len], and an index already inside is kept |
| JsStrings.Substring | src/editorActions.ts:71-73 | `substring` is the slice between the smaller and the larger of the two arguments, each clamped to [0, len] |
| JsStrings.SplitLines | src/editorActions.ts:51 | `split('\n')` yields at least one piece, no piece contains a line feed, and joining the pieces with line feeds gives the input back |
| JsStrings.NonWhitespaceAppend | src/textUtils.ts:56 | the non-whitespace characters of a concatenation are those of each part, in order |
| TextUtils.LineEnd | src/textUtils.ts:26 | the end of a `.*` match: no line terminator before it, a line terminator at it unless at the end of the text |
| TextUtils.DelimitedLength | src/textUtils.ts:26 | a lazy `/*…*/`-style match: it starts with the opener, ends at the first closer after it, and is 0 when no closer follows |
| TextUtils.StripComments | src/textUtils.ts:17-52 | removing comments never lengthens the text |
| TextUtils.CollapseWhitespace | src/textUtils.ts:56 | `replace(/\s+/g, ' ')` never lengthens the text, is empty only for empty input, and keeps a leading non-whitespace character |
| TextUtils.CollapsedIsSingleSpaced | src/textUtils.ts:56 | after collapsing, every whitespace character is `' '` and no two whitespace characters are adjacent |
| TextUtils.NormalizedShape | src/textUtils.ts:12-61 | the output has no leading or trailing whitespace, no whitespace other than `' '` and no two adjacent whitespace characters |
| TextUtils.TrimOfCollapsed | src/textUtils.ts:59 | trimming a single-spaced text yields a normalized text |
| TextUtils.SliceOfSingleSpaced | src/textUtils.ts:59 | every contiguous slice of a single-spaced text is single-spaced |
| TextUtils.CollapseOfNormalized | src/textUtils.ts:56 | collapsing whitespace leaves a normalized text unchanged |
| TextUtils.NormalizedIsFixedPoint | src/textUtils.ts:12-61 | a normalized text without comment markers normalizes to itself, under every language id |
| TextUtils.WhitespaceRunIgnored | src/textUtils.ts:56-59 | replacing one whitespace run by any other between the same words does not change the normalized text, so `"a,   b"` and `"a, b"` normalize equal |
| TextUtils.EdgeWhitespaceIgnored | src/textUtils.ts:56-59 | whitespace (possibly none) added before and after a text without comment markers does not change the normalized text |
| TextUtils.ExampleWhitespaceIgnored | src/textUtils.ts:56-59 | `"  a,   b\n"` and `"a, b"` both normalize to `"a, b"`, under every language id |
| TextUtils.CollapseRun | src/textUtils.ts:56 | a whitespace run before a word collapses to one space |
| TextUtils.TrimStartPastRun | src/textUtils.ts:59 | trimming removes a leading whitespace run and nothing after it |
| TextUtils.CollapseAppend | src/textUtils.ts:56 | collapsing distributes over a concatenation whose left part ends in a non-whitespace character |
| TextUtils.HashStripRemovesAllHashes | src/textUtils.ts:37-43 | for the `#` languages, no `#` survives comment removal |
| TextUtils.CollapseKeepsNonWhitespace | src/textUtils.ts:56 | collapsing keeps every non-whitespace character, in order |
| TextUtils.TrimKeepsNonWhitespace | src/textUtils.ts:59 | trimming keeps every non-whitespace character, in order |
| TextUtils.UnknownLanguageKeepsText | src/textUtils.ts:48-51 | for an id with no comment syntax, the non-whitespace characters of the input appear unchanged and in order in the output |
| TextUtils.NoCommentsIsIdentity | src/textUtils.ts:48-51 | an unrecognised id removes nothing |
| TextUtils.BlockCommentRemoved | src/textUtils.ts:18-30 | for the C-like ids and `json`, a leading `/*…*/` with no earlier `*/` is removed up to its first `*/` |
| TextUtils.MarkupCommentRemoved | src/textUtils.ts:31-36 | for `html`, `xml` and `vue`, a leading `<!--…-->` is removed up to its first `-->` |
| TextUtils.DelimitedAt | src/textUtils.ts:26 | the lazy match of a delimited comment ends exactly at the first closer |
| TextUtils.LineCommentRemoved | src/textUtils.ts:18-27 | for the C-like ids, `//` removes up to, not including, the next line terminator |
| TextUtils.HashCommentRemoved | src/textUtils.ts:42 | for the `#` languages, `#` removes up to, not including, the next line terminator |
| TextUtils.LineEndAt | src/textUtils.ts:26 | a `.*` match stops exactly at the first line terminator |
| TextUtils.ReplaceCr | src/textUtils.ts:75 | every lone CR becomes LF and every other character is kept |
| TextUtils.NormalizeText | src/textUtils.ts:73-83 | the output of `normalizeText` contains no `\r` |
| TextUtils.CrLfWithoutCr | src/textUtils.ts:75 | both replacements leave a text without `\r` unchanged |
| TextUtils.TwoPassesAreOne | src/textUtils.ts:75 | the two passes map each CRLF pair and each lone CR to one LF, the single-pass line-ending normalisation |
| TextUtils.NormalizeTextTrims | src/extension.ts:70-74 | `normalizeText` trims exactly when `trimEdges` is true; this copy and the one in src/textUtils.ts:73-83 are the same function |
| TextUtils.NormalizeTextWithoutCr | src/textUtils.ts:73-83 | with `trimEdges = false`, an input without `\r` is returned unchanged |
| AstUtils.AreNodesBasicallyEqual | src/astUtils.ts:72-74 | two absent nodes are equal, exactly one absent is unequal, two present nodes are compared by kind |
| AstUtils.NodesEqual | src/astUtils.ts:63-257 | different kinds are unequal; identifiers are equal if and only if the flag is set or their text agrees; literals are equal if and only if their text agrees; the listed keywords are equal on kind alone |
| AstUtils.CompareNodeArrays | src/astUtils.ts:271-289 | an undefined array counts as empty; arrays are equal if and only if they have the same length and are pairwise equal with the flag off |
| AstUtils.MissingIsEmpty | src/astUtils.ts:281 | an undefined array compares exactly like an empty one, on either side |
| AstUtils.Significant | src/astUtils.ts:241-253 | the trivia filter keeps exactly the non-trivia children and adds none |
| AstUtils.SignificantCounts | src/astUtils.ts:244-245 | the trivia filter keeps every non-trivia child as often as it occurs, and no trivia |
| AstUtils.SignificantAppend | src/astUtils.ts:244-245 | the trivia filter keeps order: filtering a concatenation concatenates the filtered parts |
| AstUtils.ModifiersOnly | src/astUtils.ts:297-310 | every modifier kind is kept as often as it occurs and every other kind is dropped |
| AstUtils.ModifiersOnlyAppend | src/astUtils.ts:123-124 | the modifier filter keeps order: filtering a concatenation concatenates the filtered parts |
| AstUtils.SortKinds | src/astUtils.ts:301-302 | sorting yields an ordered permutation of the kinds |
| AstUtils.SortedUnique | src/astUtils.ts:301-302 | two ordered sequences with the same multiset are equal |
| AstUtils.CompareModifiersIsMultisetEquality | src/astUtils.ts:297-310 | `compareModifiers` holds if and only if the two multisets of modifier kinds coincide, whatever their order |
| AstUtils.ParseCodeToAST | src/astUtils.ts:11-48 | a throw gives no pattern; a lone expression statement with trimmed code not ending in `;` gives its bare expression; otherwise all statements, including none |
| AstUtils.Reflexive | src/astUtils.ts:63-257 | every node equals itself, with either flag value |
| AstUtils.OptionReflexive | src/astUtils.ts:72-74 | every optional node equals itself |
| AstUtils.ArrayReflexive | src/astUtils.ts:271-289 | every node array equals itself |
| AstUtils.Symmetric | src/astUtils.ts:63-257 | the relation is symmetric for every pair of nodes and either flag value |
| AstUtils.OptionSymmetric | src/astUtils.ts:72-74 | the comparison of optional nodes is symmetric |
| AstUtils.ArraySymmetric | src/astUtils.ts:271-289 | the array comparison is symmetric |
| AstUtils.VariableDeclarationSymmetric | src/astUtils.ts:97-106 | the variable-declaration arm is symmetric |
| AstUtils.CallSymmetric | src/astUtils.ts:137-145 | the call arm is symmetric |
| AstUtils.AccessSymmetric | src/astUtils.ts:147-158 | the property- and element-access arm is symmetric |
| AstUtils.ParameterSymmetric | src/astUtils.ts:160-175 | the parameter arm is symmetric |
| AstUtils.FunctionLikeSymmetric | src/astUtils.ts:177-197 | the function-like arm is symmetric |
| AstUtils.IfSymmetric | src/astUtils.ts:206-213 | the `if` arm is symmetric |
| AstUtils.ChildrenSymmetric | src/astUtils.ts:241-253 | the default arm is symmetric |
| AstUtils.FlagMonotone | src/astUtils.ts:63-257 | equality with the flag off implies equality with the flag on |
| AstUtils.EraseTopName | src/astUtils.ts:78-81 | erasing the names the flag reaches keeps the node's kind |
| AstUtils.FlagReachesOnlyTopNames | src/astUtils.ts:78-81 | comparing with the flag on equals comparing with the flag off once the top identifier, or a function-like node's own name, is erased: the flag reaches nothing else |
| AstUtils.FunctionNameCarriesFlag | src/astUtils.ts:190 | for function-like nodes the flag acts only through the `name` field |
| AstUtils.FunctionLikeArm | src/astUtils.ts:177-197 | the function-like kinds are compared by the function-like arm, with the caller's flag |
| AstUtils.FlagUnusedBelowTop | src/astUtils.ts:97-257 | for every kind other than an identifier or a function-like node, the flag makes no difference |
| AstUtils.VariableNameNeverIgnored | src/astUtils.ts:101 | variable declarations with different identifier names are unequal even with the flag on |
| AstUtils.ParameterNameNeverIgnored | src/astUtils.ts:170 | parameters with different identifier names are unequal even with the flag on |
| AstUtils.RenamedFunctionMatches | src/astUtils.ts:190 | a function-like node equals any copy of itself with a different declared name, with the flag on |
| AstUtils.ExampleRenamedFunction | src/astUtils.ts:190 | `function foo(a) { return bar(a); }` and `function baz(a) { return bar(a); }` are equal with the flag on and unequal with it off |
| AstUtils.ExampleInnerCalleeCompared | src/astUtils.ts:137-145 | `function foo(a) { return bar(a); }` and `function foo(a) { return qux(a); }` are unequal even with the flag on: an inner callee name is compared with the flag off |
| AstUtils.ExampleCallsDiffer | src/astUtils.ts:137-145 | calls with different callee names are unequal |
| AstUtils.ReturnsDiffer | src/astUtils.ts:241-253 | return statements whose expressions differ are unequal |
| AstUtils.DifferAtMiddle | src/astUtils.ts:241-253 | nodes whose three significant children differ in the middle one are unequal in the default arm |
| AstUtils.ExampleBodiesDiffer | src/astUtils.ts:199-204 | the bodies `{ return bar(a); }` and `{ return qux(a); }` are unequal with the flag off |
| AstUtils.SingleStatementBlocks | src/astUtils.ts:199-204 | two one-statement blocks are equal if and only if their statements are equal with the flag off |
| AstUtils.CallArm | src/astUtils.ts:137-145 | calls are compared by callee, type arguments and arguments |
| AstUtils.BlockArm | src/astUtils.ts:199-204 | blocks are compared by their statement arrays |
| AstUtils.DefaultArm | src/astUtils.ts:241-254 | any other kind is compared by its trivia-filtered children, pairwise, with the flag off |
| AstUtils.DefaultArmComparesSignificantChildren | src/astUtils.ts:241-253 | the default arm is exactly `compareNodeArrays` applied to the trivia-filtered children |
| AstUtils.TriviaIgnored | src/astUtils.ts:317-321 | appending a trivia node (a comment, or an empty syntax list) does not change the filtered children |
| AstUtils.SignificantOfNonTrivia | src/astUtils.ts:317-321 | the filter keeps a list without trivia unchanged |
| SequenceMatcher.SequenceMatchAt | src/editorActions.ts:173-180 | the inner loop decides that every `siblings[i+j]` equals `pattern[j]` with the UI flag |
| SequenceMatcher.RunRange | src/editorActions.ts:182-190 | a run's range runs from the start of its first node to the end of its last, inside the document |
| SequenceMatcher.RunResults | src/editorActions.ts:198 | one result per recorded run |
| SequenceMatcher.FindASTSequences | src/editorActions.ts:168-206 | the `for` loop with its jump by k records exactly the greedy runs of the reference scan |
| SequenceMatcher.GreedyFits | src/editorActions.ts:172 | every recorded run fits inside the sibling list |
| SequenceMatcher.GreedySound | src/editorActions.ts:172-200 | every recorded start is a full match, and recorded runs are increasing and do not overlap |
| SequenceMatcher.GreedyCovers | src/editorActions.ts:172-200 | every position where the pattern matches is recorded or lies inside a recorded run: nothing is skipped but overlaps |
| SequenceMatcher.LeftmostFirst | src/editorActions.ts:172-200 | the first recorded run is the leftmost match |
| SequenceMatcher.ShortListsHaveNoRuns | src/editorActions.ts:169-171 | a sibling list shorter than the pattern yields nothing |
| SequenceMatcher.ExampleOverlappingRunSkipped | src/editorActions.ts:200 | `[A, A, A]` against `[A, A]` yields exactly one run, at 0 |
| SequenceMatcher.SequenceResultsInDocument | src/editorActions.ts:186-190 | every run's range lies inside the document, with mode `ast` |
| SequenceMatcher.Visit | src/editorActions.ts:208-212 | the recursive `visit` yields exactly the reference traversal's results |
| SequenceMatcher.Subtrees | src/editorActions.ts:208-212 | the pre-order listing starts with the node itself |
| SequenceMatcher.VisitIsPreorderScan | src/editorActions.ts:208-212 | `visit` equals scanning the child list of every node, in pre-order |
| SequenceMatcher.VisitAllIsPreorderScan | src/editorActions.ts:211 | visiting a list of children equals scanning the children of each of their subtrees, in pre-order |
| SequenceMatcher.ChildResultsIncluded | src/editorActions.ts:211 | every match found below a child is found from its parent, so nodes inside a matched run are still searched |
| SequenceMatcher.VisitResultsInDocument | src/editorActions.ts:208-212 | every result of the traversal lies inside the document, with mode `ast` |
| ApproxRange.ApproxIndexRounds | src/editorActions.ts:56-57 | the approximate index is the rational `m * L / max(1, N)` rounded half up |
| ApproxRange.ApproxIndexInDocument | src/editorActions.ts:56-57 | an index inside the normalized text scales to an offset inside the original |
| ApproxRange.SearchRadius | src/editorActions.ts:58 | the radius is at least 200 and at least three times the trimmed find length |
| ApproxRange.FirstSignificantIndex | src/editorActions.ts:52 | the first line that is not blank, or past the end when all are blank |
| ApproxRange.LastSignificantIndex | src/editorActions.ts:67 | the last line that is not blank, or none when all are blank |
| ApproxRange.DocumentRange | src/editorActions.ts:80-86 | a range built from two offsets lies inside the document, and a range already inside is kept |
| ApproxRange.RangeNear | src/editorActions.ts:59-82 | every range recovered near an approximate index satisfies 0 <= start <= end <= document length |
| ApproxRange.MapToOriginal | src/editorActions.ts:51-86 | every range mapped back from a normalized index lies inside the document |
| ApproxRange.StartIsFirstLineInWindow | src/editorActions.ts:59-65 | the window `[max(0, a-r), min(len, a+r+k))` lies inside the document; a start is found if and only if the first line is non-empty and occurs in it, and then it is the first occurrence |
| ApproxRange.EndAfterStart | src/editorActions.ts:66-82 | after clamping, the end lies between the start and the document length |
| ApproxRange.EndGuessCases | src/editorActions.ts:70-78 | the end is the last occurrence of the last significant line in its window, or start plus k |
| ApproxRange.ClipEndBounds | src/editorActions.ts:80-82 | the three clamping steps give an end between the start and the document length |
| ApproxRange.EndSnippetInDocument | src/editorActions.ts:71-74 | an occurrence of the last line found in the clamped end window is an occurrence in the document, inside it |
| ApproxRange.LastInWindow | src/editorActions.ts:73-74 | an occurrence found by `lastIndexOf` in a clamped, possibly swapped `substring` is an occurrence in the document |
| ApproxRange.RangeNearIsAnchored | src/editorActions.ts:59-82 | a recovered range starts at an occurrence of the first significant line and ends at an occurrence of the last, or at start plus k clamped |
| ApproxRange.MappedRangeIsNear | src/editorActions.ts:55-62 | mapping an index back is the window search around its scaled offset |
| ApproxRange.MappedRangeIsAnchored | src/editorActions.ts:64-82 | a range mapped back is anchored at the first and last significant lines |
| ApproxRange.MappedRangeMissing | src/editorActions.ts:55-65 | an occurrence maps to no range if and only if the first significant line is empty or absent from the window, so such an occurrence is dropped |
| ApproxRange.TrimmedTextHasLines | src/editorActions.ts:51-55 | a trimmed, non-empty find text has a non-empty first and last significant line |
| ApproxRange.SignificantLinesExist | src/editorActions.ts:52-53 | a list whose first line is not blank has trimmed first and last significant lines that are non-empty |
| EditorTextSearch.Record | src/editorActions.ts:88-101 | see RecordContents |
| EditorTextSearch.RecordContents | src/editorActions.ts:88-101 | a mapped range is appended unless it is already recorded; nothing else changes |
| EditorTextSearch.RecordDistinct | src/editorActions.ts:88-101 | recording keeps the ranges pairwise distinct |
| EditorTextSearch.TextResultsTagged | src/editorActions.ts:98 | every text result carries mode `text` and its range, in order |
| EditorTextSearch.PerformTextSearch | src/editorActions.ts:18-116 | the method returns exactly the reference search's ranges, tagged `text` |
| EditorTextSearch.SearchLoop | src/editorActions.ts:44-110 | the `while` loop, advancing `searchStartIndex` to `matchIndex + 1`, computes the reference scan and terminates |
| EditorTextSearch.RecordMapped | src/editorActions.ts:84-101 | one iteration's bookkeeping matches the reference step |
| EditorTextSearch.ScanStep | src/editorActions.ts:48-109 | one step of the reference scan: stop at -1, otherwise record and continue from the next index |
| EditorTextSearch.ScanSound | src/editorActions.ts:48-109 | every reported range is the mapping of an occurrence of the normalized target |
| EditorTextSearch.ScanComplete | src/editorActions.ts:48-109 | the mapping of every occurrence at or after the start is reported |
| EditorTextSearch.ScanMembership | src/editorActions.ts:48-109 | a range is reported if and only if it was recorded before or maps from an occurrence |
| EditorTextSearch.TextSearchReports | src/editorActions.ts:18-116 | a range is reported if and only if it is the mapped range of an occurrence of the normalized target in the normalized document |
| EditorTextSearch.TextSearchWellFormed | src/editorActions.ts:66-101 | the reported ranges are pairwise distinct and lie inside the document |
| EditorTextSearch.TextSearchAnchored | src/editorActions.ts:59-82 | every reported range starts at an occurrence of the first significant line of the trimmed find text |
| EditorTextSearch.FoundWithinBounds | src/editorActions.ts:64-82 | a range found at an occurrence is anchored at the first and last lines |
| EditorTextSearch.EmptyTargetFindsNothing | src/editorActions.ts:30-34 | an empty normalized target yields no results |
| EditorTextSearch.ScanDistinct | src/editorActions.ts:88-101 | the scan keeps its ranges pairwise distinct |
| EditorTextSearch.ScanInDocument | src/editorActions.ts:66-86 | the scan only reports ranges inside the document |
| FuzzyTextSearch.NextMatch | src/textSearch.ts:42-49 | the exact `indexOf` result is kept unless it is -1 and `isFallback` is false; only then is the fuzzy oracle consulted, and a result is -1 or at or after the start |
| FuzzyTextSearch.FindMatch | src/textSearch.ts:42-49 | the method computes the index of the reference step |
| FuzzyTextSearch.NextMatchMatched | src/textSearch.ts:42-49 | an index other than -1 is an exact occurrence or the oracle's answer |
| FuzzyTextSearch.PerformTextSearch | src/textSearch.ts:10-121 | the method returns exactly the as-written reference search, tagged `text` |
| FuzzyTextSearch.SearchNormalizedLoop | src/textSearch.ts:37-115 | the search after the two empty checks equals the as-written reference |
| FuzzyTextSearch.ScanLoop | src/textSearch.ts:41-115 | the `while (true)` loop that breaks only after mapping computes the as-written scan and terminates |
| FuzzyTextSearch.SearchesThroughParts | src/textSearch.ts:19-35 | the search is the trim, the two normalisations and the scan, in that order |
| FuzzyTextSearch.AsWrittenStep | src/textSearch.ts:41-114 | one as-written step maps the index even when it is -1, and then breaks or continues from the next index |
| FuzzyTextSearch.CorrectedStep | src/textSearch.ts:41-114 | one corrected step stops at -1 before mapping |
| FuzzyTextSearch.AsWrittenIsCorrectedThenLast | src/textSearch.ts:41-114 | the as-written scan is the corrected scan plus the one extra mapping attempt at index -1 |
| FuzzyTextSearch.ScanCorrectedSound | src/textSearch.ts:41-114 | every range of the corrected scan maps from an exact or fuzzy match |
| FuzzyTextSearch.ScanAsWrittenWellFormed | src/textSearch.ts:56-101 | the as-written scan keeps ranges pairwise distinct and inside the document |
| FuzzyTextSearch.SearchAsWrittenWellFormed | src/textSearch.ts:56-101 | the search's results are pairwise distinct and satisfy 0 <= start <= end <= document length |
| FuzzyTextSearch.EmptyInputsFindNothing | src/textSearch.ts:23-35 | an empty normalized target or document yields no results |
| FuzzyTextSearch.SearchCorrectedSound | src/textSearch.ts:41-114 | with the break moved before the mapping, every result maps from a match and starts at an occurrence of the first significant line |
| FuzzyTextSearch.CorrectedMappedSound | src/textSearch.ts:56-82 | every corrected result is the mapped range of a match and is anchored |
| FuzzyTextSearch.CorrectedFallbackIsScan | src/textSearch.ts:43 | with `isFallback` the oracle is never consulted and the corrected scan is the exact scan |
| FuzzyTextSearch.CorrectedFallbackIsEditorSearch | src/textSearch.ts:10-121 | the corrected fallback search equals `_performTextSearch` of src/editorActions.ts |
| FuzzyFinding.MinusOneMapsToWord | src/textSearch.ts:56-82 | the index -1 still maps to a range: the window clamps to the start of the document |
| FuzzyFinding.MissingTextReported | src/textSearch.ts:41-114 | for a document `ab` and find text `a`, newline, `b`, the normalized target `a b` does not occur, yet the as-written search reports `[0, 2)`; the corrected search reports nothing |
| FuzzyFinding.MissingTextNormalized | src/textUtils.ts:56-59 | the normalized document is `ab`, the normalized target is `a b`, and the target does not occur |
| FuzzyFinding.ScansOfLongerTarget | src/textSearch.ts:41-114 | the as-written scan reports the mapping of -1; the corrected scan reports nothing |
| FuzzyFinding.WordNormalizes | src/textUtils.ts:12-61 | a two-letter word normalizes to itself |
| FuzzyFinding.TwoLinesNormalize | src/textUtils.ts:56-59 | two letters on two lines normalize to the letters with one space between them |
| FuzzyFinding.TwoLinesSplit | src/textSearch.ts:51 | `split('\n')` separates the two lines |
| FuzzyFinding.TwoLinesFirst | src/textSearch.ts:52-53 | the first significant line is the first letter |
| FuzzyFinding.TwoLinesLast | src/textSearch.ts:67-68 | the last significant line is the second letter |
| FuzzyFinding.WordRangeNear | src/textSearch.ts:59-82 | around index -1, the first line is found at 0 and the last line ends at 2 |
| FuzzyFinding.MinusOneScales | src/textSearch.ts:56-57 | `Math.round(-1 * 1)` is -1 |
| FuzzyFinding.MapThroughLines | src/textSearch.ts:51-82 | mapping an index back is the window search with the first and last significant lines |
| State.ExtensionState.constructor | src/state.ts:7-12 | the module starts with no decoration type and no results |
| State.ExtensionState.InitializeDecoration | src/state.ts:17-32 | a decoration type is adopted only when none is live, so a second call changes nothing; results are untouched |
| State.ExtensionState.GetDecorationType | src/state.ts:39-47 | the live decoration type, or `None` where the source throws |
| State.ExtensionState.GetMatchedResults | src/state.ts:53-56 | returns the stored results, so a following call after `setMatchedResults` returns the same contents |
| State.ExtensionState.SetMatchedResults | src/state.ts:62-65 | replaces the stored list wholesale and nothing else |
| State.ExtensionState.ClearMatchedResults | src/state.ts:70-75 | leaves the list empty, whatever it held, so it is idempotent |
| State.ExtensionState.SetDecorations | src/editorActions.ts:264 | the editor shows exactly the given ranges |
| State.ExtensionState.DisposeDecoration | src/state.ts:80-86 | disposes the live type, which takes its highlights off the editor, and resets the handle to absent |
| State.ExtensionState.ClearState | src/state.ts:92-95 | clears the results and then disposes, keeping the state consistent |
| Edits.InsertPermutes | src/editorActions.ts:302-304 | inserting into the sorted list adds exactly one element |
| Edits.InsertSorted | src/editorActions.ts:302-304 | inserting keeps the list in descending start order |
| Edits.SortSortsAndPermutes | src/editorActions.ts:302-304 | sorting by descending start gives a permutation in descending start order |
| Edits.InsertStable | src/editorActions.ts:302-304 | insertion keeps the original order of results with equal starts |
| Edits.SortStable | src/editorActions.ts:302-304 | the sort is stable, like `Array.prototype.sort` |
| Edits.Splice | src/editorActions.ts:313 | one replacement changes the length by the replacement's length minus the range's |
| Edits.ApplyInPrefix | src/editorActions.ts:310-315 | edits applied in descending order below an offset leave the text after it unchanged |
| Edits.ApplyInOrderRebuilds | src/editorActions.ts:310-315 | successive splices in descending order equal rebuilding the document from the gaps between the ranges |
| Edits.RebuildLength | src/editorActions.ts:310-315 | the edited length is the old length minus the ranges' lengths plus one replacement per range |
| Edits.RebuildKeepsEnds | src/editorActions.ts:310-315 | the text before the first range and after the last is unchanged |
| Edits.ChainIsDisjoint | src/editorActions.ts:310-315 | a chain of ranges in descending order is pairwise disjoint |
| Edits.DisjointIsChain | src/editorActions.ts:310-315 | pairwise disjoint, non-empty ranges in descending order form a chain |
| EditorActions.NoLanguageIsBoth | src/editorActions.ts:152-153 | no language id is in both the tree list and the text list |
| EditorActions.MergeFallback | src/editorActions.ts:229-234 | the merge loop appends exactly the reference merge's results |
| EditorActions.MergeCovers | src/editorActions.ts:229-234 | the merge keeps every existing result and adds each incoming range not already present |
| EditorActions.MergeDisjoint | src/editorActions.ts:229-234 | when no incoming range is already present, the merge is plain concatenation |
| EditorActions.FallbackKeepsAll | src/editorActions.ts:226-234 | merged into an empty tree result, the fallback's results are all kept |
| EditorActions.ClearHighlights | src/editorActions.ts:347-367 | the stored results are always emptied, and the highlights are removed when a decoration type is live |
| EditorActions.HighlightTextInEditor | src/editorActions.ts:124-281 | the stored results after a find are the reference results when an editor and a decoration type exist, and empty otherwise; the editor shows exactly their ranges |
| EditorActions.FindMatches | src/editorActions.ts:152-252 | the dispatch computes the reference results: tree mode with text fallback, or text mode |
| EditorActions.SearchWithFallback | src/editorActions.ts:156-240 | in tree mode the results are the tree matches when there are any, and otherwise the text search's results merged into an empty list |
| EditorActions.SearchByAst | src/editorActions.ts:160-216 | the tree search runs `visit` with the pattern chosen by `parseCodeToAST` |
| EditorActions.NothingToFind | src/editorActions.ts:144-147 | a blank find text, or an unsupported language, stores no results |
| EditorActions.HighlightSources | src/editorActions.ts:152-252 | the results come from the tree search, the fallback merge, or text mode, according to the language |
| EditorActions.AstLanguageSources | src/editorActions.ts:155-240 | for a tree language the results are the tree matches when there are any, and the merged fallback otherwise |
| EditorActions.HighlightResultsWellFormed | src/editorActions.ts:124-281 | every stored result lies inside the document |
| EditorActions.AstSearchWellFormed | src/editorActions.ts:186-198 | every tree result lies inside the document and carries mode `ast` |
| EditorActions.TextHighlightsWellFormed | src/editorActions.ts:241-247 | every text result lies inside the document and carries mode `text` |
| EditorActions.TextHighlightsDistinct | src/editorActions.ts:226-247 | when the results come from text search, their ranges are pairwise distinct |
| EditorActions.ReplaceFoundMatches | src/editorActions.ts:287-341 | no editor or no results: no edit; otherwise the sorted edit; results cleared exactly after a successful edit, kept on failure |
| EditorActions.DisjointMatchesReplaced | src/editorActions.ts:302-336 | pairwise-disjoint results inside the document are replaced in descending order, giving the rebuilt document |
| EditorActions.ChainedResultsDisjoint | src/editorActions.ts:310-315 | an edit that succeeds was given pairwise-disjoint ranges |
| EditorActions.OverlapRefused | src/editorActions.ts:310-336 | two overlapping results make the edit fail, so nothing changes and the results are kept |
| EditorActions.InsertKeepsChain | src/editorActions.ts:302-304 | inserting a range disjoint from a chain keeps it a chain |
| EditorActions.DisjointResultsChain | src/editorActions.ts:302-304 | sorting disjoint results gives a chain of ranges |
| LegacyEquivalence.AreNodesBasicallyEqual | src/extension.ts:166-168 | the base rules are those of src/astUtils.ts |
| LegacyEquivalence.NodesEqual | src/extension.ts:158-380 | kinds, identifiers, literals and keywords follow the rules of src/astUtils.ts, while the flag is forwarded to every nested call |
| LegacyEquivalence.CompareNodeArrays | src/extension.ts:383-400 | an undefined array counts as empty; arrays are equal if and only if pairwise equal with the caller's flag |
| LegacyEquivalence.AgreesWhenFlagOff | src/extension.ts:158-380 | with the flag off, the earlier comparison agrees with src/astUtils.ts on every pair of nodes |
| LegacyEquivalence.OptionAgrees | src/extension.ts:166-168 | with the flag off, the optional comparisons agree |
| LegacyEquivalence.ArrayAgrees | src/extension.ts:383-400 | with the flag off, the array comparisons agree |
| LegacyEquivalence.FunctionLikeAgrees | src/extension.ts:267-287 | with the flag off, the function-like arms agree |
| LegacyEquivalence.ChildrenAgree | src/extension.ts:361-377 | with the flag off, the default arms agree |
| LegacyEquivalence.FlagMonotone | src/extension.ts:158-380 | equality with the flag off implies equality with the flag on |
| LegacyEquivalence.OptionMonotone | src/extension.ts:166-168 | the same for optional nodes |
| LegacyEquivalence.ArrayMonotone | src/extension.ts:383-400 | the same for node arrays |
| LegacyEquivalence.AccessMonotone | src/extension.ts:240-249 | the same for the access arm |
| LegacyEquivalence.ParameterMonotone | src/extension.ts:250-266 | the same for the parameter arm |
| LegacyEquivalence.FunctionLikeMonotone | src/extension.ts:267-287 | the same for the function-like arm |
| LegacyEquivalence.ChildrenMonotone | src/extension.ts:361-377 | the same for the default arm |
| LegacyEquivalence.ReachesAtLeastAsFar | src/extension.ts:158-400 | whatever src/astUtils.ts equates with the flag on, the earlier comparison equates too: forwarding the flag only widens it |
| LegacyEquivalence.OffThenOn | src/extension.ts:267-287 | a function-like pair equal in src/astUtils.ts with the flag on is equal in the earlier arm |
| LegacyEquivalence.Reflexive | src/extension.ts:158-380 | every node equals itself, with either flag value |
| LegacyEquivalence.OptionReflexive | src/extension.ts:166-168 | every optional node equals itself |
| LegacyEquivalence.ArrayReflexive | src/extension.ts:383-400 | every node array equals itself |
| LegacyEquivalence.Symmetric | src/extension.ts:158-380 | the relation is symmetric for every pair of nodes and either flag value |
| LegacyEquivalence.OptionSymmetric | src/extension.ts:166-168 | symmetric on optional nodes |
| LegacyEquivalence.ArraySymmetric | src/extension.ts:383-400 | symmetric on node arrays |
| LegacyEquivalence.FunctionLikeSymmetric | src/extension.ts:267-287 | symmetric in the function-like arm |
| LegacyEquivalence.ChildrenSymmetric | src/extension.ts:361-377 | symmetric in the default arm |
| LegacyEquivalence.CalleeIgnored | src/extension.ts:232-239 | with the flag on, calls with different callees are equal: the flag reaches nested identifiers |
| LegacyEquivalence.ReturnsMatch | src/extension.ts:361-377 | return statements with equal expressions are equal, with the caller's flag |
| LegacyEquivalence.MatchAtMiddle | src/extension.ts:361-377 | the default arm compares the significant children pairwise with the caller's flag |
| LegacyEquivalence.DefaultArm | src/extension.ts:361-377 | a return statement is compared by the default arm |
| LegacyEquivalence.SingleStatementBlocks | src/extension.ts:288-293 | two one-statement blocks are equal if and only if their statements are equal with the caller's flag |
| LegacyEquivalence.SameExceptBody | src/extension.ts:267-287 | function-like nodes differing only in an equal body are equal |
| LegacyEquivalence.InnerCalleeIgnored | src/extension.ts:267-287 | with the flag on, `function foo(a) { return bar(a); }` equals `function foo(a) { return qux(a); }` |
| LegacyEquivalence.ExampleInnerCalleeIgnored | src/extension.ts:232-239 | the two versions differ: the earlier one equates functions that differ in an inner callee, src/astUtils.ts does not |
| LegacyExtension.NodeRange | src/extension.ts:465-469 | a matched node's range lies inside the document and is its own offsets when those are inside |
| LegacyExtension.Visit | src/extension.ts:461-477 | the recursive `visit` appends exactly the reference traversal's ranges |
| LegacyExtension.VisitChildren | src/extension.ts:476 | the `forEachChild` loop appends the ranges of every child, in order |
| LegacyExtension.AstSubtrees | src/extension.ts:476 | the pre-order listing starts with the node itself |
| LegacyExtension.MatchingRanges | src/extension.ts:462-471 | filtering yields at most one range per node |
| LegacyExtension.MatchingRangesComplete | src/extension.ts:462-471 | every node equal to the pattern with the flag off is reported |
| LegacyExtension.MatchingRangesSound | src/extension.ts:462-471 | every reported range comes from a node equal to the pattern with the flag off |
| LegacyExtension.MatchingRangesAppend | src/extension.ts:461-477 | filtering distributes over concatenation |
| LegacyExtension.VisitIsPreorderFilter | src/extension.ts:461-477 | `visit` compares every node on its own, in pre-order, including those inside earlier matches |
| LegacyExtension.VisitAllIsPreorderFilter | src/extension.ts:476-480 | visiting a child list compares every node of its subtrees, in pre-order |
| LegacyExtension.AsResults | src/extension.ts:516 | the tagged results have exactly the given ranges |
| LegacyExtension.SortedRangesSortsAndPermutes | src/extension.ts:516 | sorting by descending start gives a permutation in descending start order |
| LegacyExtension.RangesOfPermutes | src/extension.ts:516 | permuting results permutes their ranges |
| LegacyExtension.ReplaceAgreesWithCurrent | src/extension.ts:502-539 | the earlier replace computes what src/editorActions.ts computes on the same ranges |
| LegacyExtension.DisjointRangesReplaced | src/extension.ts:516-528 | pairwise-disjoint ranges inside the document are replaced in descending order, giving the rebuilt document |
| LegacyExtension.OverlapRefused | src/extension.ts:521-533 | two overlapping ranges make the edit fail |
| LegacyExtension.HighlightFindsMatchingNodes | src/extension.ts:431-480 | a range is highlighted if and only if it comes from a node below the root equal to the first statement with the flag off |
| LegacyExtension.HighlightRangesInDocument | src/extension.ts:461-482 | every highlighted range lies inside the document |
| LegacyExtension.LegacySession.constructor | src/extension.ts:8-9 | no stored ranges and no highlights at start |
| LegacyExtension.LegacySession.ClearHighlights | src/extension.ts:542-557 | the stored ranges are always emptied, and the highlights are removed when a decoration type exists |
| LegacyExtension.LegacySession.HighlightTextInEditor | src/extension.ts:422-499 | after a find the stored ranges are the reference ranges, and the editor shows exactly them |
| LegacyExtension.LegacySession.ReplaceFoundMatches | src/extension.ts:502-539 | no editor or no ranges: no edit; ranges are applied in descending order and cleared only on a successful edit |

## Left out

- The TypeScript compiler is not part of this model: `createSourceFile`, `getChildren`, `forEachChild`, `getStart` and `getEnd`. Their output is given as a `Node` tree with offsets.
- The `ts.createProgram` diagnostics in `src/extension.ts` (lines 31-64) are computed and logged but never change the result, so they are left out.
- The VS Code surface is not modelled: decoration styles, hover messages, message boxes and logging. Decoration per visible editor is modelled as one list of shown ranges.
- `positionAt` is the identity on offsets. UTF-16 code units and line/column positions are not modelled.
- `document.save` is not modelled. It does not affect which results are cleared.
- Whether `editor.edit` succeeds is an input, beyond the overlap rule. The tie order of two empty ranges with the same start inside one VS Code edit is not modelled.
- Ranges are not revalidated against a document that changed after the find.
- `string-similarity` is an oracle. With a threshold of 0 or below, the real loop would not terminate: an empty word rates 0. The oracle's contract (an index at or after the start) excludes that case.
- `compareModifiers` sorts with JavaScript's default string order. The model sorts numerically. For equal multisets both orders give equal sequences, so the outcome is the same.
- The range-error `catch` inside the match loops and the AST `catch` are not modelled, because no modelled step throws; the parse failure of the find text is modelled as the `Threw` outcome.
- `getMatchedResults` returns a copy. Dafny sequences are values, so aliasing cannot be expressed and the copy is implicit.
- The `activate`/`deactivate` lifecycle of `src/extension.ts`, the webview, `getNonce` and the HTML generation are not modelled. `LegacySession`'s constructor takes the decoration type as given.
- TextUtils.DelimitedLength: requires a non-empty closing delimiter, which holds for every regex in `src/textUtils.ts`.
- src/webviewProvider.ts, src/webviewUtils.ts, media/webview.js and main.js are UI and network glue and are not part of this model.

## Findings

| source | as written | input that shows it | evidently intended | confidence | as-written member | corrected member |
|---|---|---|---|---|---|---|
| src/textSearch.ts:41-114 | the loop maps `matchIndex` to a range before testing it for -1, so a search that finds no occurrence still maps index -1 and can report a range | document `ab`, find text `a`, newline, `b`, `isFallback` true; the normalized target `a b` does not occur, yet `[0, 2)` is reported | stop at -1 before mapping, as `_performTextSearch` in src/editorActions.ts:48 does | not executed | FuzzyFinding.MissingTextReported | FuzzyTextSearch.SearchCorrectedSound |
