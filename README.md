# highlight-selections-vscode: the highlight engine in Dafny

This project models the core of the VS Code extension
highlight-selections-vscode. The core is `updateDecorations` in
`src/extension.ts` together with the module-level `decorationTypes` cache
it keeps. On every trigger the engine does the following:

1. It clears the ranges of every decoration style it has cached.
2. It reads the selected text, and stops there when the selection is empty.
3. It scans the whole document for the selected text. The scan is literal
   (the text is regex-escaped), case-sensitive, left to right and without
   overlap. After each match the global regular expression resumes at the
   match's end.
4. It looks up the decoration style keyed by the exact selected text. On a
   miss it creates a new style and stores it in the cache.
5. It applies the ranges it found under that style.

Files:

- `wrappers.dfy` (module `Wrappers`): the `Option` type.
- `scanner.dfy` (module `Scanner`): the occurrence scanner.
  - `NextMatch` is one `regex.exec` from a given `lastIndex`.
  - `GreedyMatches` is the offsets the `while ((match = regex.exec(text)))`
    loop reports.
  - `Occurrences` is the ranges that loop pushes.
  - `Scan` is the loop itself, written as an imperative `while` loop and
    proved equal to `Occurrences`.
  - `IsLeftmostScan` is an independent, declarative description of a
    left-to-right, non-overlapping scan. It is proved equivalent to
    `GreedyMatches` in both directions.
- `highlighting.dfy` (module `Highlighting`): the controller and its cache.
  - `Engine` is the state as a value: the cache from selected text to style
    handle, the ranges the editor shows for each style, and the next fresh
    handle.
  - `Trigger` is one run of `updateDecorations` on that value. `Run` folds
    it over a session of triggers.
  - The class `Highlighter` holds the same state in mutable fields. Its
    `Update` method follows the source statement by statement and is proved
    to produce `Trigger` of the old state.

Offsets are character offsets into the document text. A range is the
half-open span `[match.index, match.index + match[0].length)`. Creating a
decoration style is modelled as minting a handle, a natural number never
handed out before.

One might expect the scan to report every offset at which the selection
occurs. The code does something narrower: a
global regular expression resumes after the end of each match, so an
occurrence that overlaps an earlier match is not reported ("aa" in "aaa" is
found at 0 only). The model follows the code.
`OverlappingOccurrenceSkipped` shows the difference, and
`ExactWhenOccurrencesDisjoint` proves that the two readings agree when
no two occurrences overlap.

## Model

| member | source | states |
|---|---|---|
| Scanner.NextMatch | src/extension.ts:26-31 | one search from `lastIndex` reports an offset at or after it whose occurrence lies inside the text, or nothing |
| Scanner.NextMatchSound | src/extension.ts:26-31 | the reported offset is a literal occurrence with no occurrence between `lastIndex` and it; reporting nothing means no occurrence at or after `lastIndex` |
| Scanner.LeftmostIsNextMatch | src/extension.ts:26-31 | an occurrence with none before it from `lastIndex` is exactly what the search reports (the converse of NextMatchSound) |
| Scanner.AbsentIsNoMatch | src/extension.ts:26-31 | with no occurrence at or after `lastIndex`, the search reports nothing |
| Scanner.SkipMismatch | src/extension.ts:26-31 | an offset whose character differs from the selection's first is passed over |
| Scanner.GreedyMatchesSound | src/extension.ts:26-38 | every reported offset is a literal occurrence, and each starts at or after the end of the previous one, so the offsets strictly ascend and never overlap |
| Scanner.AscendingCons | src/extension.ts:31-38 | an occurrence followed by ascending occurrences from its end is still ascending and non-overlapping |
| Scanner.ConsAt | src/extension.ts:31-38 | the k-th search of a scan that finds `i` first is the (k-1)-th search of the scan resuming at `i + length` |
| Scanner.LeftmostScanCons | src/extension.ts:31-38 | a first leftmost match followed by a leftmost scan from its end is a leftmost scan |
| Scanner.GreedyIsLeftmostScan | src/extension.ts:26-38 | the loop's offsets meet the declarative description: each search starts where the previous match ended, finds the leftmost occurrence from there, and the last search finds none |
| Scanner.TailAt | src/extension.ts:31-38 | the k-th search of a leftmost scan's tail is the (k+1)-th search of the whole scan |
| Scanner.LeftmostScanTail | src/extension.ts:31-38 | dropping the first offset of a leftmost scan leaves a leftmost scan from that offset's end |
| Scanner.LeftmostScanIsGreedy | src/extension.ts:26-38 | any sequence meeting the declarative description is the loop's output, so the description and the loop agree in both directions |
| Scanner.GreedyCoversEveryMatch | src/extension.ts:26-38 | every occurrence is reported or lies inside the span of a reported match |
| Scanner.ExactWhenOccurrencesDisjoint | src/extension.ts:26-38 | when no two occurrences overlap, an offset is reported if and only if the selection occurs there |
| Scanner.NothingReportedIffAbsent | src/extension.ts:26-38 | the scan reports nothing if and only if the selection does not occur in the document |
| Scanner.SpansOfAt | src/extension.ts:32-37 | the k-th range runs from the k-th offset for the selection's length |
| Scanner.SpansOfAppend | src/extension.ts:37 | pushing one range extends the ranges of the reported offsets by that offset's range |
| Scanner.OccurrencesCoverSelection | src/extension.ts:31-38 | each pushed range starts at the corresponding reported offset, ends one selection length later inside the document, and covers exactly the selected text; the ranges ascend without overlapping |
| Scanner.ScanStep | src/extension.ts:31-38 | one loop round keeps the loop's invariant: the ranges pushed so far followed by the matches still to come make up the whole scan |
| Scanner.ScanDone | src/extension.ts:31 | when `exec` returns null, the ranges pushed so far are all of the scan's ranges |
| Scanner.Scan | src/extension.ts:26-38 | the loop returns exactly `Occurrences`, the ranges of the leftmost non-overlapping scan |
| Scanner.RepeatedWord | src/extension.ts:26-38 | "cat" in "cat cat dog cat" is reported at 0, 4 and 12 |
| Scanner.SpecialCharactersAreLiteral | src/extension.ts:26-38 | the escaped "a.b" is reported in "a.b axb a.b" at 0 and 8 only; "axb" at 4, which the unescaped pattern would match, is not an occurrence |
| Scanner.WhitespaceSelection | src/extension.ts:26-38 | a whitespace selection matches whitespace literally, including adjacent occurrences |
| Scanner.WholeDocument | src/extension.ts:26-38 | a selection equal to the whole document is one range spanning it |
| Scanner.OverlappingOccurrenceSkipped | src/extension.ts:31 | "aa" occurs at 1 in "aaa" but only 0 is reported, because the search resumes at the match's end |
| Highlighting.TriggerEmptySelection | src/extension.ts:17-24 | an empty selection clears every cached style, leaves other ranges alone, keeps the cache and the handle counter, and does not depend on the document |
| Highlighting.TriggerCache | src/extension.ts:40-55 | a non-empty selection ends up cached; a hit reuses its style and keeps the cache; a miss stores a fresh handle under exactly that text; no other key changes |
| Highlighting.TriggerApplies | src/extension.ts:17-56 | after a non-empty selection, its style shows exactly the scan's ranges and every other cached style shows none |
| Highlighting.CreatingStylePreservesValid | src/extension.ts:40-55 | creating a style for an uncached selection keeps the cache consistent |
| Highlighting.ValuesOfInsert | src/extension.ts:54 | storing a new key in the cache adds exactly its handle to the handles in use |
| Highlighting.TriggerPreservesValid | src/extension.ts:12-57 | a trigger keeps handles fresh, distinct selections on distinct handles, and the editor's styles equal to the cached ones |
| Highlighting.ClearAllTwice | src/extension.ts:17-19 | clearing the styles twice is clearing them once |
| Highlighting.ReclearAndSet | src/extension.ts:17-19 | clearing again and setting the same ranges under the same style gives back the same table |
| Highlighting.NonEmptyTriggerIdempotent | src/extension.ts:17-56 | repeating a trigger with the same non-empty selection and text reuses the same style and sets the same ranges |
| Highlighting.TriggerIdempotent | src/extension.ts:12-57 | repeating any trigger leaves the state as the first run left it |
| Highlighting.TriggerGrowsCacheByAtMostOne | src/extension.ts:40-55 | one trigger adds at most one cache entry, and the same trigger twice adds at most one in total |
| Highlighting.SelectionsSeenSplit | src/extension.ts:21-24 | the non-empty selections of a session are those of its first trigger plus those of the rest |
| Highlighting.RunCache | src/extension.ts:5 | the cache never evicts: after a session its keys are the old keys plus every non-empty selection seen, and old keys keep their styles |
| Highlighting.RunPreservesValid | src/extension.ts:5 | a session keeps the cache consistent |
| Highlighting.EqualLengthSelectionsGetDistinctStyles | src/extension.ts:40-54 | two different selections of equal length get two different styles, because the key is the exact text |
| Highlighting.Highlighter.constructor | src/extension.ts:5 | the engine starts with an empty cache |
| Highlighting.Highlighter.ClearStyles | src/extension.ts:17-19 | the loop over the cache gives every cached style no ranges and changes nothing else |
| Highlighting.Highlighter.StyleFor | src/extension.ts:40-55 | on a hit it returns the cached style and changes nothing; on a miss it returns a fresh handle and stores it under the selected text |
| Highlighting.Highlighter.Update | src/extension.ts:12-57 | with no editor nothing changes; otherwise the new state is `Trigger` of the old one, and the cache stays consistent |

## Left out

- The debounce of 10 ms (src/extension.ts:59-61). Timing is not modelled: each trigger is one call of `Update`.
- The event subscriptions (src/extension.ts:67-76) and the initial call in `activate` (src/extension.ts:78-80). They only decide when `Update` runs. `Run` models any sequence of triggers. The document-change handler reuses the editor captured at activation; which editor a trigger sees is the caller's choice in the model.
- The `extension.helloWorld` command, `console.log` and `showInformationMessage`: they have no effect on highlighting.
- The style's appearance (border width, style, colours, overview ruler), read from the configuration when the style is created (src/extension.ts:42-53). A created style is a fresh handle.
- `escape-string-regexp` and the regular-expression engine. An escaped pattern matches its text literally, so the search is modelled as a literal substring search.
- `positionAt`, `vscode.Range` and rendering by `setDecorations`. Ranges stay character offsets; converting them to line and column is host code.
- Decorations are kept per editor by the host. The model has one editor surface: `applied` holds what that editor shows for each style.
- JavaScript strings are sequences of UTF-16 code units, while a Dafny `char` is a Unicode scalar value. A character outside the Basic Multilingual Plane is one offset in the model but two code units in JavaScript. For documents containing such characters, the model's offsets can therefore differ from `match.index`. There is no normalisation in either.
- Reading the selection and the document (src/extension.ts:21, 27): an `Editor` value carries both texts, taken from one snapshot.
- `deactivate` does nothing and is not modelled.
