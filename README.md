# SKSU campus kiosk slideshow, modelled in Dafny

The kiosk page runs one object, `SlideshowManager`. It fetches a Google
Sheets CSV export and turns its rows into slides. It shows one slide at a
time, advances on a timer, and reloads the sheet on a second timer. This
project models the logic of that object:

- `JsString.dfy`: the JavaScript string operations the kiosk uses.
  - `trim`, with the full ECMAScript whitespace set.
  - `split` on one character.
  - `includes`.
  - `replace(/['"]/g, '')`.
- `Csv.dfy`: `parseCSV`.
  - `Scan` and `ParseLine` are the per-line loop written as a fold.
  - `ScanLine` and `ParseCsv` are that loop and the `map`/`filter` written as methods.
  - Lemmas cover the field count, the quote handling and the quote-free case.
- `ImageUrl.dfy`: `processImageUrl`.
  - Each `url.match(/marker([a-zA-Z0-9-_]+)/)` is modelled as the leftmost position where the marker is followed by an id character, followed by the greedy id run.
- `SlideData.dfy`: the pure part of `loadSlides`.
  - The fetch outcome is an input: `NetworkError`, or `Response(status, body)`.
  - Parsing, the header drop, the title filter and the record defaults.
- `Kiosk.dfy`: the `SlideshowManager` class.
  - Its fields, plus the set of auto-advance timers still armed and a counter of page rebuilds.
  - Navigation, `startAutoSlide`, `loadSlides`, `init` and one tick of the `startAutoRefresh` timer.
  - The index arithmetic is written with JavaScript's truncating `%`.

Behaviours of the code worth noting, all modelled as written:

- Every `'` and `"` in an image link is removed, wherever it occurs.
- The third Drive pattern, `/open?id=`, can never be tried. A link containing it also contains `id=`, so the `id=` branch is taken first.
- A `/file/d/` link whose marker is not followed by an id character gives the fallback image. The `id=` pattern is not tried for it.
- `renderSlides` marks the first slide active on the page but leaves `currentSlideIndex` as it was. After a reload the index can therefore be larger than the new slide list. The next move still lands on a valid index.
- `clearInterval` is called on the old auto-advance timer, but `slideInterval` keeps its handle.
- A link holding at least one quote character and otherwise only whitespace is not blank, so it does not get the fallback. Cleaning it leaves nothing, so the slide's image link is the empty string (`EmptyResult`). A link of whitespace only is blank and gets the fallback (`BlankGivesFallback`).

## Model

| member | source | states |
|---|---|---|
| JsString.Trim | script.js:117 | the trimmed text is no longer than its argument and has no whitespace at either end |
| JsString.TrimSpec | script.js:117 | `Trim` removes a run of whitespace at each end and leaves none there; it keeps only characters of its argument |
| JsString.TrimUnique | script.js:129 | any string that is a trim of `s` (whitespace-bounded slice, none left at the ends) equals `Trim(s)` |
| JsString.TrimIdempotent | script.js:129 | trimming twice is trimming once |
| JsString.TrimUnchanged | script.js:117 | a string without whitespace at its ends is its own trim |
| JsString.TrimEmptyIffBlank | script.js:123 | a trim is empty exactly when every character is whitespace |
| JsString.IsBlank | script.js:123 | `s.trim() === ''` holds exactly when every character of `s` is whitespace |
| JsString.Count | script.js:107 | the count of a character is at most the length and is zero exactly when the character is absent |
| JsString.Split | script.js:98 | `split` yields one piece more than there are separators, and no piece holds the separator |
| JsString.JoinSplit | script.js:98 | joining the pieces of a split with the separator gives back the text |
| JsString.SplitJoin | script.js:98 | splitting a join of separator-free pieces gives back the pieces |
| JsString.SplitAppendPiece | script.js:98 | appending separator-free text extends only the last piece |
| JsString.SplitSnoc | script.js:98 | one more ordinary character extends the last piece |
| JsString.SplitSnocSep | script.js:98 | one more separator starts a new empty piece |
| JsString.Contains | script.js:133 | `includes` holds exactly when the substring occurs at some index |
| JsString.RemoveQuotes | script.js:129 | the result has no `'` or `"` and its characters come from the input; `RemoveQuotesChar`, `RemoveQuotesAppend` and `RemoveQuotesCounts` fix it to the input with the quotes dropped and the rest in order |
| JsString.RemoveQuotesChar | script.js:129 | a single quote character is dropped and any other character is kept |
| JsString.RemoveQuotesAppend | script.js:129 | quote removal of a concatenation is the concatenation of the removals, so the kept characters stay in order; with `RemoveQuotesChar` this fixes the result |
| JsString.RemoveQuotesCounts | script.js:129 | every character other than a quote occurs as often after quote removal as before |
| JsString.RemoveQuotesNone | script.js:129 | text without quotes is unchanged |
| Csv.Step | script.js:107-114 | one iteration of the loop body; the body is the definition, characterised by `ScanCounts`, `ScanClean`, `QuoteFreeSeparator` and `QuoteFreeOrdinary` |
| Csv.Scan | script.js:104-115 | the loop as a fold of `Step` over the line; the body is the definition, characterised by `ScanCounts`, `ScanClean`, `ScanQuoteFree` and `ScanAppend` |
| Csv.ParseLine | script.js:99-118 | the `lines.map` callback: the fields pushed plus the trimmed last field; the body is the definition, characterised by `ParseLineFields`, `ParseLineQuoteFree` and `QuotedCommaExample` |
| Csv.ScanLine | script.js:99-118 | the per-line `for` loop computes `ParseLine(line)`; the loop invariant ties its variables to the scan of the prefix |
| Csv.ScanCounts | script.js:104-115 | after any prefix, `inQuotes` holds exactly when an odd number of `"` was seen; one field was pushed per comma seen outside quotes |
| Csv.ScanClean | script.js:107-114 | no pushed field and no partial field holds `"`; every pushed field is trimmed |
| Csv.ParseLineFields | script.js:104-118 | a line gives 1 + (commas outside quotes) fields, none holding `"` and each equal to its own trim |
| Csv.ScanQuoteFree | script.js:104-115 | on a line without `"` the scan state is the comma split: trimmed pieces pushed, the last piece pending, `inQuotes` off |
| Csv.QuoteFreeSeparator | script.js:109-111 | a comma outside quotes pushes the trimmed piece and starts a new one |
| Csv.QuoteFreeOrdinary | script.js:112-113 | any other character extends the pending piece |
| Csv.ParseLineQuoteFree | script.js:99-118 | a line without `"` gives exactly its comma-split pieces, each trimmed |
| Csv.ScanAppend | script.js:104-115 | scanning one more character is one more loop step |
| Csv.ScanVerbatim | script.js:112-113 | text without `"` (and, outside quotes, without commas) is copied verbatim into the pending field |
| Csv.QuotedSection | script.js:107-113 | a quoted section, commas included, enters the pending field without its quotes and leaves `inQuotes` as it was |
| Csv.QuotedCommaExample | script.js:99-118 | `a,"b,c",d` gives the three fields `a`, `b,c`, `d` for any ordinary characters a, b, c, d |
| Csv.ExampleLine | script.js:99-118 | the same line, given the trims of its fields |
| Csv.ExampleStart | script.js:112-113 | first step of the example: the character enters the pending field |
| Csv.ExampleFirstField | script.js:109-111 | the example's first comma pushes `a` |
| Csv.ExampleQuotedField | script.js:107-113 | the example's quoted section leaves `b,c` pending |
| Csv.ExampleSecondField | script.js:109-111 | the example's second comma pushes `b,c` |
| Csv.TrimEach | script.js:117 | each piece is replaced by its trim, in place |
| Csv.TrimEachSnoc | script.js:117 | trimming each piece commutes with appending a piece |
| Csv.ParsedLines | script.js:99 | `lines.map(...)`: one row per line, the row of line k being `ParseLine(lines[k])` |
| Csv.ParsedLinesSnoc | script.js:99 | mapping one more line appends its row |
| Csv.ParseCsv | script.js:97-120 | the method (split, mapping loop, filtering loop) returns `CsvRows(csvText)` |
| Csv.KeepWide | script.js:119 | `filter(row => row.length > 1)`; the body is the definition, characterised by `KeepWideMembers` and `KeepWideAppend` |
| Csv.Lines | script.js:98 | `csvText.split('\n')`; the body is the definition, characterised by `JsString.JoinSplit` and `JsString.SplitJoin` |
| Csv.CsvRows | script.js:97-120 | the value `parseCSV` returns; the body is the definition, characterised by `CsvRowsMembers` and `CsvRowsShape`, and computed by `ParseCsv` |
| Csv.KeepWideMembers | script.js:119 | `filter(row => row.length > 1)` keeps exactly the rows with more than one field |
| Csv.KeepWideAppend | script.js:119 | the filter keeps order and treats each row on its own |
| Csv.CsvRowsMembers | script.js:97-120 | a row is returned exactly when it is the row of some line that has a comma outside quotes |
| Csv.CsvRowsShape | script.js:97-120 | every returned row has at least two fields, none holding `"` or surrounding whitespace |
| ImageUrl.IdRunLength | script.js:138 | the run of `[a-zA-Z0-9-_]` characters at an index is maximal: all id characters, then the end or a non-id character |
| ImageUrl.FirstMatch | script.js:138 | the result is the leftmost index at or after `from` where the marker is followed by an id character; with none, there is no such index |
| ImageUrl.MatchId | script.js:138-145 | `match(/marker([a-zA-Z0-9-_]+)/)` and its capture; the body is the definition, characterised by `MatchIdLeftmost` and `MatchIdNone` |
| ImageUrl.FileId | script.js:134-146 | the `fileId` the three-way `if`/`else if` chain computes; the body is the definition, characterised by `OpenBranchUnreachable`, `FileLink`, `FileMarkerWithoutId`, `IdParameterLink` and `DriveLinkWithoutId` |
| ImageUrl.Clean | script.js:129 | `url.replace(/['"]/g, '').trim()`; the body is the definition, characterised by `CleanUnchanged`, `PassThrough` and `EmptyResult` |
| ImageUrl.ProcessImageUrl | script.js:122-162 | `processImageUrl(url)`; the body is the definition, characterised case by case by `BlankGivesFallback`, `PassThrough`, `FileLink`, `FileMarkerWithoutId`, `IdParameterLink`, `DriveLinkWithoutId`, `DriveLinkRewritten` and `EmptyResult` |
| ImageUrl.IdRunAtMatch | script.js:138-139 | the capture at a match is a non-empty, maximal run of id characters right after the marker |
| ImageUrl.MatchIdLeftmost | script.js:138-139 | the capture is the id run after the leftmost match |
| ImageUrl.MatchIdNone | script.js:138-139 | there is no capture exactly when the pattern matches nowhere |
| ImageUrl.OpenMarkerHoldsIdMarker | script.js:143-144 | every `/open?id=` holds an `id=` six characters later |
| ImageUrl.OpenBranchUnreachable | script.js:137-146 | a link with `/open?id=` contains `id=`, so the file id comes from `/file/d/` or `id=` only |
| ImageUrl.BlankGivesFallback | script.js:123-126 | empty or whitespace-only input gives `CONFIG.FALLBACK_IMAGE` |
| ImageUrl.PassThrough | script.js:128-161 | a link whose cleaned form lacks `drive.google.com` is returned as its quote-free text, trimmed, and holds no quote |
| ImageUrl.FileLink | script.js:137-152 | a Drive link with a `/file/d/<id>` match gives the direct-view link of the id after the leftmost match |
| ImageUrl.FileMarkerWithoutId | script.js:137-156 | a Drive link holding `/file/d/` never followed by an id character gives the fallback, even when `id=<id>` occurs |
| ImageUrl.IdParameterLink | script.js:140-152 | a Drive link without `/file/d/` gives the direct-view link of the id after the leftmost `id=` match |
| ImageUrl.DriveLinkWithoutId | script.js:140-156 | a Drive link without `/file/d/` and without an `id=` match gives the fallback |
| ImageUrl.FileIdIsRun | script.js:134-146 | the extracted file id is empty or made of `[a-zA-Z0-9-_]` characters only |
| ImageUrl.DriveLinkRewritten | script.js:133-157 | a Drive link never passes through: the result is the fallback or the direct-view prefix followed by a non-empty run of id characters |
| ImageUrl.EmptyResult | script.js:123-161 | the result is empty exactly when the input is not blank but is blank once its quotes are removed |
| ImageUrl.MissingCharNotContained | script.js:133 | a string lacking one of the characters of `t` does not include `t` |
| ImageUrl.DriveHostAbsent | script.js:133 | a string without the letter `v` does not include `drive.google.com` |
| ImageUrl.CleanUnchanged | script.js:123-129 | a quote-free link without whitespace at its ends is not blank and is its own cleaned form |
| ImageUrl.PlainLinkUnchanged | script.js:122-161 | such a link without `v` is returned unchanged |
| ImageUrl.PassThroughExample | script.js:159-161 | `https://example.com/pic.png` is returned unchanged |
| SlideData.IsOk | script.js:51-53 | `response.ok`, a status from 200 to 299; the body is the definition, used by `FailedFetchNoSlides` |
| SlideData.FieldOr | script.js:80-83 | `row[i] \|\| default`; the body is the definition, characterised by `ToSlideFields` |
| SlideData.HasTitle | script.js:71 | `row[2] && row[2].trim() !== ''`; the body is the definition, characterised by `TitledMembers` and `ToSlideFields` |
| SlideData.ToSlide | script.js:79-84 | the record built for one row; the body is the definition, characterised by `ToSlideFields` |
| SlideData.Titled | script.js:71 | the title filter; the body is the definition, characterised by `TitledMembers`, `TitledAppend` and `TitledLength` |
| SlideData.SlidesFromRows | script.js:62-85 | no slides for at most one row, else the titled data rows mapped to records; the body is the definition, characterised by `SlidesMembers`, `SlidesCount` and `BlankTitleFiltered` |
| SlideData.LoadSucceeds | script.js:51-88 | the load reaches `lastUpdateTime = Date.now()`; the body is the definition, characterised by `LoadedOnlyOnSuccess` and `Kiosk.LoadedFromRows` |
| SlideData.LoadedSlides | script.js:43-95 | the value `this.slides` holds after `loadSlides`; the body is the definition, characterised by `FailedFetchNoSlides`, `LoadedOnlyOnSuccess` and `SlidesMembers` |
| SlideData.ToSlides | script.js:71-85 | `.map(...)`: one record per kept row, in order |
| SlideData.TitledMembers | script.js:71 | the title filter keeps exactly the rows whose third field is present and not blank |
| SlideData.TitledAppend | script.js:71 | the title filter keeps order and treats each row on its own |
| SlideData.TitledLength | script.js:71 | the filter never yields more rows than it is given |
| SlideData.SlidesMembers | script.js:62-85 | a slide is in the list exactly when it is the record of a row after the first whose title is not blank |
| SlideData.SlideHasRow | script.js:69-85 | every slide comes from such a row |
| SlideData.RowHasSlide | script.js:69-85 | every such row yields a slide |
| SlideData.ToSlideFields | script.js:78-84 | the title is the row's third field, never the `'Untitled'` default; description and campus fall back only when missing or empty; the image link is `processImageUrl(row[0])` |
| SlideData.SlidesFieldsNonEmpty | script.js:78-84 | every slide has a non-blank title and non-empty description and campus |
| SlideData.SlidesCount | script.js:62-85 | there are never more slides than data rows |
| SlideData.BlankTitleFiltered | script.js:69-85 | a header plus two data rows, the second without a title, give exactly one slide, built from the first |
| SlideData.FailedFetchNoSlides | script.js:51-94 | a transport failure or a non-ok response gives no slides and no successful load |
| SlideData.LoadedOnlyOnSuccess | script.js:62-88 | slides exist only after a successful load, which yields the titled data rows of the parsed body |
| Kiosk.JsRem | script.js:253-259 | JavaScript `%` with a positive divisor: in `[0, n)` for a non-negative dividend, in `(-n, 0]` for a negative one |
| Kiosk.NextIndex | script.js:253 | `(i + 1) % n`; the body is the definition, characterised by `MovesStayInRange`, `MovesWrap` and `MovesCancel` |
| Kiosk.PrevIndex | script.js:259 | `(i - 1 + n) % n`; the body is the definition, characterised by `MovesStayInRange`, `MovesWrap` and `MovesCancel` |
| Kiosk.MovesStayInRange | script.js:251-261 | from any index that is not negative, even a stale one, next and previous land in `[0, n)` |
| Kiosk.MovesWrap | script.js:251-261 | on a valid index next adds one and wraps the last slide to 0; previous subtracts one and wraps 0 to the last |
| Kiosk.MovesCancel | script.js:251-261 | on a valid index next then previous, and previous then next, restore the index |
| Kiosk.AdvanceCompose | script.js:251-255 | `a` moves forward then `b` moves are `a + b` moves |
| Kiosk.AdvanceCounts | script.js:251-255 | before the last slide is passed, `k` moves forward add `k` |
| Kiosk.AdvanceFullCycle | script.js:251-273 | `n` moves forward from a valid index visit each slide in turn and return to the start |
| Kiosk.LoadedFromRows | script.js:59-88 | with an ok response, the load succeeds exactly when there are more than one parsed row, and the slides are the titled data rows |
| Kiosk.FetchSlides | script.js:43-95 | the loading body returns `LoadedSlides(fetch)`, and reports success exactly when `LoadSucceeds(fetch)` |
| Kiosk.SlideshowManager.constructor | script.js:11-15 | the initial field values: no slides, index 0, no timer, update time 0 |
| Kiosk.SlideshowManager.GoToSlide | script.js:228-249 | an out-of-range index changes nothing; any other becomes the current index; nothing else changes |
| Kiosk.SlideshowManager.NextSlide | script.js:251-255 | no change without slides; otherwise the index becomes `NextIndex`, which is valid |
| Kiosk.SlideshowManager.PreviousSlide | script.js:257-261 | no change without slides; otherwise the index becomes `PrevIndex`, which is valid |
| Kiosk.SlideshowManager.StartAutoSlide | script.js:263-277 | the old timer is cleared; afterwards the armed timers are exactly one fresh handle when there are more than one slide and none otherwise; the handle counter moves only when a timer is armed |
| Kiosk.SlideshowManager.AutoAdvanceTick | script.js:271-273 | a live auto-advance timer moves to the next slide; a cleared one changes nothing |
| Kiosk.SlideshowManager.RenderSlides | script.js:164-226 | the page is rebuilt once; `currentSlideIndex` and the timers are untouched |
| Kiosk.SlideshowManager.LoadSlides | script.js:43-95 | the slides are replaced as a whole by `LoadedSlides(fetch)`, whatever they held; the update time moves only on a successful load |
| Kiosk.SlideshowManager.Init | script.js:20-41 | load; with slides, render once, clear the old timer and arm exactly one fresh timer when there are more than one slide; without slides the timers are untouched; the refresh timer is armed |
| Kiosk.SlideshowManager.RefreshTick | script.js:279-294 | reload; exactly when the slide count changed the page is rebuilt and the timer restarted: the old one cleared, and the armed timers become one fresh handle when there are more than one slide and none otherwise; otherwise the timers are untouched; the index is never reset |

## Left out

- Network I/O: `fetch` and `response.text()` become the `FetchResult` input. A failure of `response.text()` counts as `NetworkError`.
- `Date.now()` becomes the `now` parameter.
- Timers: `setInterval` and `clearInterval` are handles and a set of armed handles. Periods and firing times are not modelled. The refresh timer is only a flag (`refreshArmed`).
- Async interleaving: overlapping refreshes, and the `init()` that the constructor starts without awaiting it, are not modelled. `Init` and `RefreshTick` run to completion.
- The DOM is not modelled:
  - slide markup, dots, the counter text and the classes `goToSlide` toggles;
  - `showFallbackContent`, `hideLoadingScreen` and `updateLastUpdatedDisplay`;
  - `escapeHtml`, which relies on the browser's serializer.
- `RenderSlides` models only the count of rebuilds.
- `animateNumbers`, the `IntersectionObserver`, and the keyboard and swipe listeners: these are event wiring and floating-point animation outside the slideshow object.
- `console.log`: no behaviour.
- Strings are sequences of characters, so UTF-16 surrogate pairs are not distinguished.
- `ProcessImageUrl`: the `!url` test for `null`/`undefined` is not modelled, because the only caller passes `row[0] \|\| ''`.
- `ImageUrl.PassThroughExample` is proved for its literal link. The Drive example `https://drive.google.com/file/d/ABC123xyz/view` is covered by `ImageUrl.FileLink` for any link, but is not stated as a literal.
