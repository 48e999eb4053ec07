# CAS lookup pipeline — a Dafny model

This project models the search pane of the VI reference tool. The tool looks up Brazilian intervention values (VI) by CAS registry number. The user types or pastes one or more CAS numbers. The pane then:

1. splits the typed string into tokens at every single space that is followed by a non-whitespace character; that space is consumed. A fragment that still holds whitespace loses it and is followed by a one-space gap marker, so a tab or line break between two codes merges them into one token.
2. looks every token up in the VI dictionary, in order and without deduplication. An unknown CAS number gets a record with every value absent.
3. shows a chip strip and a table. A value cell shows the stored number with its first `.` turned into `,`, or `-` when the value is absent or `0` (the JavaScript truthiness test). The CETESB VI cell of ten listed CAS numbers gets a trailing ` *`.
4. copies a single column to the clipboard as CRLF-separated lines and confirms the copy with a toast.
5. builds the USEPA header from the `lastUpdated` phrase.
6. runs a two-state machine (Entry / Results) that holds a registry of rendered rows for chip navigation and the handle of the latest highlight timer.

Each value is held as the text JavaScript's `String(v)` gives for the stored number, so there is no floating point in the model. DOM elements and timers are abstract natural-number handles.

Modules, one per stage:

- `Common`: `Option` and `Evaluation` (an expression that yields a value or throws).
- `Text`: JavaScript string built-ins: `\s`, `replace`, `split`, `join` and `toUpperCase`.
- `Tokenizer`: the parser.
- `Records`: the nine-field record, the column keys and the pretty names.
- `Lookup`: the lookup loop and the whole submit pipeline.
- `Cells`: cell texts, rows and the sum marker.
- `Export`: the clipboard text and the toast.
- `Header`: the USEPA header.
- `Pane`: the state machine.

Some behaviours of the code differ from what a reader of the UI might expect. The model keeps them as written and proves each one:

- The `"CAS No."` filter never fires. The split breaks `"CAS No. 71-43-2"` into `CAS`, `No.` and `71-43-2`, which gives three rows (`Tokenizer.NoHeaderToken`, `Lookup.PastedHeaderRows`).
- A tab or line break between two CAS numbers is not a separator. The two codes merge into one token, followed by a gap marker (`Tokenizer.TokenizeInnerWhitespace`).
- A stored value `0` shows `-`, like an absent value (`Cells.Truthy`, `Cells.Cell`).
- The sum marker is appended even when VI is absent, which shows `- *` (`Cells.MarkerOnAbsentValue`).
- Clearing the search does not cancel the highlight timer. Only unmounting does (`Pane.ClearKeepsTimer`).
- The result list is empty only for the empty string. Input made only of blanks gives one gap row and moves the pane to Results (`Lookup.EmptyResultsIffEmptyInput`, `Pane.BlankInputShowsGap`).
- A `lastUpdated` phrase with fewer than three words throws as soon as results are rendered, so no chips or table appear. One with three or four words shows the year as `undefined` (`Header.TooShortCrashes`, `Pane.ShortPhraseBreaksResults`, `Header.ShortPhrase`).

## Model

| member | source | states |
|---|---|---|
| Text.StripWs | src/components/cas/CasTable.tsx:118-121 | removing whitespace leaves a whitespace-free string no longer than the input, and leaves a whitespace-free input unchanged |
| Text.StripWsAppend | src/components/cas/CasTable.tsx:121 | removing whitespace distributes over concatenation |
| Text.ReplaceFirst | src/components/cas/CasTable.tsx:84 | `replace(".", ",")` keeps the length, changes only the first `.` into `,`, lowers the `.` count by one and raises the `,` count by one when a `.` is present, and is the identity otherwise |
| Text.Upper | src/components/cas/CasTable.tsx:255 | upper-casing keeps the length and maps every character through the Latin upper-case table |
| Text.IndexFrom | src/components/cas/CasTable.tsx:75 | finds the first occurrence of the separator at or after a position, or reports that there is none |
| Text.SplitOn | src/components/cas/CasTable.tsx:75 | `split(sep)` yields at least one piece, and no piece contains the separator |
| Text.JoinSplitOn | src/components/cas/CasTable.tsx:75 | joining the pieces of a split with the separator gives back the string |
| Text.SplitOnJoin | src/components/cas/CasTable.tsx:87 | splitting a join of separator-free parts gives back exactly those parts |
| Text.SplitOnCharCount | src/components/cas/CasTable.tsx:75 | splitting on one character gives one more piece than the number of its occurrences |
| Text.Join | src/components/cas/CasTable.tsx:87 | `join(sep)` is as long as the parts together plus one separator between each two parts, and it begins with the first part |
| Tokenizer.BreakFrom | src/components/cas/CasTable.tsx:116 | finds the first match of `/ (?=\S)/` at or after a position: a space followed by a non-whitespace character |
| Tokenizer.Fragments | src/components/cas/CasTable.tsx:116 | `split(/ (?=\S)/)` yields at least one fragment |
| Tokenizer.FragmentsWellSplit | src/components/cas/CasTable.tsx:116 | no fragment contains a break, and every fragment after the first is non-empty and starts with a non-whitespace character |
| Tokenizer.JoinFragments | src/components/cas/CasTable.tsx:116 | putting the consumed spaces back between the fragments gives the typed string |
| Tokenizer.FragmentsOfJoin | src/components/cas/CasTable.tsx:116 | any well-split sequence is exactly what the split returns on its space-join, so the split is the unique decomposition |
| Tokenizer.Piece | src/components/cas/CasTable.tsx:117-124 | a fragment without whitespace passes through unchanged; a fragment with whitespace becomes its stripped form followed by exactly one gap marker |
| Tokenizer.Expand | src/components/cas/CasTable.tsx:117-125 | every token the reduce emits is either the gap marker or whitespace-free, and there are at least as many tokens as fragments |
| Tokenizer.Tokenize | src/components/cas/CasTable.tsx:116-125 | the parser yields at least one token, and every token is either the gap marker or whitespace-free |
| Tokenizer.ExpandDropsOnlyWhitespace | src/components/cas/CasTable.tsx:117-125 | with the gap markers removed, the tokens are the fragments with their whitespace stripped, one for one and in order |
| Tokenizer.StripJoin | src/components/cas/CasTable.tsx:116-121 | removing whitespace from a space-join equals concatenating the stripped parts |
| Tokenizer.TokensKeepText | src/components/cas/CasTable.tsx:116-125 | the non-gap tokens, concatenated, equal the input with all whitespace removed |
| Tokenizer.GapFromWsFragment | src/components/cas/CasTable.tsx:118-121 | a fragment that holds whitespace puts a gap marker among the tokens |
| Tokenizer.NonEmptyToken | src/components/cas/CasTable.tsx:116-125 | any non-empty input yields a gap marker or a non-empty whitespace-free token |
| Tokenizer.NoHeaderToken | src/components/cas/CasTable.tsx:116-130 | the parser never produces the token `"CAS No."` |
| Tokenizer.TokenizePastedHeader | src/components/cas/CasTable.tsx:116-125 | for any non-empty whitespace-free code, `"CAS No. " + code` parses into `CAS`, `No.` and the code |
| Tokenizer.FragmentsDoubleSpace | src/components/cas/CasTable.tsx:116 | for any whitespace-free `a` and non-empty whitespace-free `b`, the split of `a + "  " + b` keeps the first space on the fragment `a + " "` and breaks before `b` |
| Tokenizer.TokenizeDoubleSpace | src/components/cas/CasTable.tsx:116-125 | for any whitespace-free `a` and non-empty whitespace-free `b`, `a + "  " + b` parses into `a`, a gap marker, and `b` |
| Tokenizer.TokenizeBlank | src/components/cas/CasTable.tsx:116-125 | any non-empty input made only of whitespace parses into an empty token and one gap marker |
| Tokenizer.TokenizeInnerWhitespace | src/components/cas/CasTable.tsx:116-125 | a whitespace character other than a space between two whitespace-free codes merges them into one token, followed by one gap marker |
| Tokenizer.StripBlank | src/components/cas/CasTable.tsx:121 | removing whitespace from a string made only of whitespace gives the empty string |
| Tokenizer.GapOnlyFromWsFragment | src/components/cas/CasTable.tsx:117-125 | a gap marker among the tokens comes from some fragment that holds whitespace (the converse of `GapFromWsFragment`) |
| Records.EmptyHasNoValues | src/components/cas/CasTable.tsx:139-151 | the record of an unknown CAS has all nine values absent |
| Records.TableColumnsOnce | src/components/cas/CasTable.tsx:287-367 | the table shows each of the nine value columns exactly once |
| Records.PrettyName | src/components/cas/CasTable.tsx:50-60 | every column's pretty name is non-empty and contains no `'`, the quote that delimits it in the toast |
| Records.PrettyNameInjective | src/components/cas/CasTable.tsx:50-60 | no two columns share a pretty name |
| Lookup.Kept | src/components/cas/CasTable.tsx:129-130 | the loop keeps only tokens that are non-empty and not `"CAS No."`, and never more tokens than it was given |
| Lookup.KeptMultiplicity | src/components/cas/CasTable.tsx:129-130 | a kept token occurs among the kept tokens exactly as often as in the input, so there is no deduplication |
| Lookup.Find | src/components/cas/CasTable.tsx:131-151 | a known CAS maps to its dictionary record unchanged; any other token maps to a record with all nine values absent |
| Lookup.Results | src/components/cas/CasTable.tsx:127-153 | there is exactly one entry per kept token, in token order, and entry i pairs kept token i with its lookup |
| Lookup.Search | src/components/cas/CasTable.tsx:127-153 | the imperative loop builds exactly the result list |
| Lookup.CodesAreKeptTokens | src/components/cas/CasTable.tsx:129-153 | the CAS column of the result list is the kept token sequence |
| Lookup.ResultsMultiplicity | src/components/cas/CasTable.tsx:129-153 | every kept token gets as many entries as it has occurrences in the input |
| Lookup.SearchInput | src/components/cas/CasTable.tsx:115-153 | every entry's CAS is the gap marker or a non-empty whitespace-free token, and never `"CAS No."` |
| Lookup.EmptyResultsIffEmptyInput | src/components/cas/CasTable.tsx:115-159 | the result list is empty exactly when the typed string is empty |
| Lookup.SearchKeepsText | src/components/cas/CasTable.tsx:115-153 | the non-gap CAS codes of the result list, concatenated, equal the input without whitespace |
| Lookup.GapRowsEmpty | src/components/cas/CasTable.tsx:131-151 | when `" "` is not a dictionary key, a gap entry carries the empty record |
| Lookup.PastedHeaderRows | src/components/cas/CasTable.tsx:115-153 | for any non-empty whitespace-free code, a pasted `"CAS No. " + code` yields the three rows `CAS`, `No.` and the code |
| Lookup.TokenizeTwoCodes | src/components/cas/CasTable.tsx:116-125 | for whitespace-free `a` and non-empty whitespace-free `b`, `a + " " + b` parses into exactly `a` and `b` |
| Lookup.UnknownAfterKnown | src/components/cas/CasTable.tsx:115-153 | for non-empty whitespace-free `a` in the dictionary and `b` not in it, `a + " " + b` gives two entries in input order: `a` with its dictionary record, then `b` with the empty record |
| Cells.Cell | src/components/cas/CasTable.tsx:388 | an absent or zero value renders `-`; a present value renders with the same length and only its first `.` turned into `,` |
| Cells.CellDecimal | src/components/cas/CasTable.tsx:388 | for a rendering with at most one `.`, the cell has no `.` and at most one more `,` than the input |
| Cells.NumberCell | src/components/cas/CasTable.tsx:388-426 | the cell of a stored number has no `.` and at most one `,` |
| Cells.CasSumsDistinct | src/components/cas/CasTable.tsx:37-48 | the sum-marker list holds ten distinct CAS numbers |
| Cells.Truthy | src/components/cas/CasTable.tsx:388 | `undefined`, `null` and `0` are falsy; every other stored number is truthy |
| Cells.Marker | src/components/cas/CasTable.tsx:410 | the marker is ` *` exactly for a CAS number in the ten-element list, and empty for every other CAS |
| Cells.Row | src/components/cas/CasTable.tsx:377-427 | a row is the CAS cell followed by the nine value cells in table order; for a well-formed record no value cell shows a `.`, and the only value cell ending in ` *` is the VI cell (position 6) of a listed CAS |
| Cells.Table | src/components/cas/CasTable.tsx:372-429 | the table has one row per entry, in result order, and every row of a well-formed record obeys the marker and decimal rules |
| Cells.CellLastNotStar | src/components/cas/CasTable.tsx:388-426 | the cell of a stored number never ends with `*` |
| Cells.SumMarker | src/components/cas/CasTable.tsx:408-411 | in a well-formed record, a cell ends with ` *` exactly when it is the VI cell of a CAS number in the ten-element list |
| Cells.TableMarker | src/components/cas/CasTable.tsx:372-429 | in the table, a value cell of a well-formed row ends with ` *` exactly when it is at position 6 (VI) and the row's CAS is listed, and no value cell shows a `.` |
| Cells.CasCellUnmarked | src/components/cas/CasTable.tsx:386 | a CAS cell that is whitespace-free or the gap marker never ends with ` *` |
| Cells.MarkerOnAbsentValue | src/components/cas/CasTable.tsx:409-410 | a listed CAS with no VI value shows `- *` |
| Cells.DecimalCell | src/components/cas/CasTable.tsx:388 | `0.3` renders as `0,3` |
| Cells.KnownRow | src/components/cas/CasTable.tsx:386-426 | a record with only VRQ 0.3 and VI 5 shows `0,3`, `5`, and `-` in the other seven columns |
| Export.ColumnLines | src/components/cas/CasTable.tsx:78-85 | the export has one line per entry, in order, each that entry's plain cell; a line of a well-formed record has no `.`, at most one `,`, and no sum marker |
| Export.ColumnText | src/components/cas/CasTable.tsx:80-87 | the clipboard text is empty for an empty list; for a non-empty list without line feeds in the stored renderings, it splits on CRLF into exactly the column lines |
| Export.LinesRoundTrip | src/components/cas/CasTable.tsx:87 | a non-empty list of lines without line feeds survives a CRLF join followed by a CRLF split |
| Export.Description | src/components/cas/CasTable.tsx:91 | the toast description is `Coluna '`, the column's pretty name, then `' copiada com sucesso.`, so the name can be read back from it |
| Export.CopyColumn | src/components/cas/CasTable.tsx:77-93 | the toast is titled `Copiado!` and carries the description of the clicked column; for a non-empty list of well-formed rows the clipboard splits on CRLF into the column lines |
| Export.DescriptionIdentifiesColumn | src/components/cas/CasTable.tsx:89-92 | two columns with the same toast description are the same column, so the toast names the column that was clicked |
| Export.CrlfFree | src/components/cas/CasTable.tsx:87 | a text without a line feed contains no CRLF, even when a CRLF follows it |
| Export.CellLineFree | src/components/cas/CasTable.tsx:84 | a cell contains a line feed only if the stored rendering does |
| Export.ExportRoundTrip | src/components/cas/CasTable.tsx:80-87 | for a non-empty result list, splitting the clipboard text on CRLF gives one line per entry, in order, each the entry's unmarked cell |
| Export.WellFormedRoundTrip | src/components/cas/CasTable.tsx:80-87 | when every row holds only stored-number renderings, the clipboard text splits on CRLF into exactly the column lines |
| Export.ExportDropsMarker | src/components/cas/CasTable.tsx:84 | each export line plus the entry's sum marker (VI column only) is the displayed cell |
| Export.ExportExample | src/components/cas/CasTable.tsx:77-87 | rows with VRQ 1.5, no VRQ, and VRQ 2 export as `1,5\r\n-\r\n2` |
| Header.UsepaLabel | src/components/cas/CasTable.tsx:254-258 | the label is `-` exactly when `lastUpdated` is absent or empty; it throws exactly when a non-empty phrase has fewer than two spaces |
| Header.UsepaHeader | src/components/cas/CasTable.tsx:253-258 | the header cell is exactly `USEPA, -` when `lastUpdated` is absent or empty, and is exactly the `toUpperCase` TypeError when a non-empty phrase has fewer than two spaces |
| Header.SplitWords | src/components/cas/CasTable.tsx:75 | splitting a space-join of space-free words gives back the words |
| Header.LabelOfWords | src/components/cas/CasTable.tsx:254-258 | with at least three words, the label is word 2 upper-cased, a space, and then word 4 (or `undefined` if there is no word 4) |
| Header.PhraseWords | src/components/cas/CasTable.tsx:75 | the published phrase splits into its five words |
| Header.StandardPhrase | src/components/cas/CasTable.tsx:75-258 | `atualizado em <month> de <year>` gives the upper-cased month, a space, and the year |
| Header.StandardHeader | src/components/cas/CasTable.tsx:75-258 | for the published phrase the header cell is `USEPA, `, the upper-cased month, a space, and the year |
| Header.ShortWords | src/components/cas/CasTable.tsx:75 | a three-word phrase splits into its three words |
| Header.ShortPhrase | src/components/cas/CasTable.tsx:254-258 | a phrase that ends after the month shows the year as `undefined` |
| Header.TooShortCrashes | src/components/cas/CasTable.tsx:254-255 | a non-empty phrase with fewer than two spaces throws |
| Pane.Edit | src/components/cas/CasTable.tsx:200-208 | typing sets the input and leaves the selection, the registry and the timer unchanged |
| Pane.Submit | src/components/cas/CasTable.tsx:155-161 | submit leaves the selection null exactly when the input is empty; otherwise it sets the selection to the result list; input, registry and timer are untouched |
| Pane.Clear | src/components/cas/CasTable.tsx:219-223 | clear empties the input, sets the selection to null and empties the registry; the timer is left as it was |
| Pane.SubmitAfterClear | src/components/cas/CasTable.tsx:155-161 | submitting right after a clear changes nothing |
| Pane.Render | src/components/cas/CasTable.tsx:379-383 | a render appends its records after the existing registry and changes nothing else |
| Pane.FirstRow | src/components/cas/CasTable.tsx:97-99 | `find` returns the first registry record with that CAS, or none |
| Pane.ChipClick | src/components/cas/CasTable.tsx:96-113 | a click with no registered row changes nothing; otherwise it highlights the first registered row of that CAS, and the new timer replaces the tracked one with nothing else changed |
| Pane.Unmount | src/components/cas/CasTable.tsx:164-170 | unmounting cancels exactly the tracked timer, and cancels nothing when no timer is tracked |
| Pane.LatestTimerCancelled | src/components/cas/CasTable.tsx:107-111 | after a successful chip click, unmounting cancels that click's timer |
| Pane.ClearKeepsTimer | src/components/cas/CasTable.tsx:164-170 | after a clear, unmounting cancels the same timer as before the clear |
| Pane.ChipFindsFirstRow | src/components/cas/CasTable.tsx:96-101 | with an empty registry, after a search and its first render, a chip highlights the row of the first entry with that CAS |
| Pane.CopyFromPane | src/components/cas/CasTable.tsx:77-93 | a copy from the Results state produces the toast `Copiado!` with the description `Coluna '<pretty name>' copiada com sucesso.` |
| Pane.PaneExportRoundTrip | src/components/cas/CasTable.tsx:77-93 | in a valid Results state with well-formed records, the clipboard text splits on CRLF into one line per row, each the row's unmarked cell |
| Pane.View | src/components/cas/CasTable.tsx:174-258 | a render throws exactly when a result list is shown and the USEPA header throws; otherwise the Entry screen shows the input, and the Results screen shows the chips, the header and the table of the result list, one chip per row equal to its CAS cell |
| Pane.BlankInputShowsGap | src/components/cas/CasTable.tsx:115-161 | submitting any non-empty input made only of whitespace selects a single gap entry |
| Pane.ScreenMarker | src/components/cas/CasTable.tsx:372-429 | on the screen after a search whose header renders, with a well-formed dictionary, a table cell ends with ` *` exactly when it is the VI cell of a listed CAS, and no value cell shows a `.` |
| Pane.ShortPhraseBreaksResults | src/components/cas/CasTable.tsx:253-258 | with a non-empty `lastUpdated` of fewer than two spaces, the Entry screen still renders, but the render after a search throws the `toUpperCase` TypeError |
| Pane.ValidReachable | src/components/cas/CasTable.tsx:155-223 | every transition keeps a shown result list non-empty |

## Left out

- JSX markup and DOM effects are not modelled. This covers header colSpans (the USEPA header spans 6 columns in the code), tint classes, the flipped chip strip, `scrollIntoView`, and the class add/remove done by the timer callback. Only the row registry and the timer handle are modelled.
- `navigator.clipboard.writeText` and `toast` are asynchronous side effects. Only the strings passed to them are modelled.
- The fetch of the reference file (src/services/fetchService.ts) is network I/O. The dictionary and `lastUpdated` are parameters instead.
- src/components/cas/CasItem.tsx and src/components/cas/SelectCas.tsx are not part of this model. They are a superseded per-row variant built on asynchronous fetches.
- The page and error chrome (src/components/cas/Cas.tsx, src/components/ui/errorDisplay/ErrorDisplay.tsx, src/app/page.tsx, src/app/layout.tsx) is not modelled. Its only decision is a two-way fallback for the error message.
- `Number`→`String` conversion is not modelled. Values are taken as their rendering. `Truthy` assumes the rendering is never `NaN`, because JSON cannot hold NaN.
- The form library's asynchronous `handleSubmit` is treated as one synchronous step on the current input.
- Render cycles are not tracked. React re-invokes inline ref callbacks on every render, so the registry in `CasTable.tsx` can grow with duplicates. `Pane.Render` models one render, and callers apply it as often as renders happen.
- Characters outside the Basic Multilingual Plane are one element of a Dafny string but two UTF-16 code units in JavaScript. No step of the pipeline treats them specially (none is whitespace, and none is upper-cased by `Text.Upper`), so only string lengths differ.
- Text.Upper: upper-cases only `a`–`z` and the Latin-1 letters U+00E0–U+00FE (except U+00F7). `ß`, `ÿ`, `µ` and letters outside Latin-1 are left unchanged, unlike JavaScript's full Unicode case mapping.
- Lookup.Find: dictionary values that are `null`, and keys inherited through the JavaScript prototype chain, are treated as absent keys. In `CasTable.tsx` both also show all values absent.
- Pane.CopyFromPane: requires a non-null selection. `selectedCas!` would throw on null, but the column buttons exist only in the Results state.
- Export.ExportRoundTrip: requires at least one entry, because `"".split("\r\n")` gives one empty line. The pane never exports an empty list.
