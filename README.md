# Kakao Page crawler: a verified model

The repository crawls the Kakao Page web-comic catalogue into one SQLite table, `contents`, keyed by the numeric content id. It has two crawlers:

- `kakao.js` visits a list of title pages. From each page it reads the metadata (title, author, cover, genre, views, rating, schedule, first-episode date, episode count) and normalises it into typed columns. It then upserts one full record per title, all inside one transaction.
- `link.js` scrolls an infinite genre listing until it stops growing. It then picks the title links out of the listing and marks each title as revisited (column `re = 1`) with a second, flag-only upsert path.

This project models both crawlers in Dafny and proves properties of the model. The modules follow the program's structure:

- `Text`: the JavaScript string operations the crawlers use (`trim`, `replace(/c/g, '')`, `includes`, `\d`, `parseInt` and `${n}` rendering).
- `JsNumbers`: `parseFloat` over exact decimals, and `Math.round`.
- `FieldNormalizer`: `parseViews`, `parseRating` and `formatDateString`.
- `Contents`: the `contents` table, its two upsert paths, and the database handle as a class. A transaction is a snapshot taken at BEGIN and restored at ROLLBACK.
- `Links`: the notice URL and the id taken from a URL's last path segment.
- `DetailScraper`: `scrapePageData` and the batch loop of `kakao.js`.
- `ScrollStabiliser`: the scroll loop of `link.js`. It is a step function, a reference description of when the loop stops, and the `while` loop proved against both.
- `LinkCollector`: the anchor filter and the revisit transaction of `link.js`.

The browser is replaced by its answers:

- A `Page` holds what each selector of a detail page returned.
- A `Visit` says whether the page loaded and whether its upsert went through.
- A `Cycle` holds what one round of the scroll loop measured.
- An `Anchor` is a listing link with its title text.

Null is `None`. An empty string is falsy in JavaScript, so the converters treat it as null.

A storage error while upserting one record does not end the batch. In `kakao.js:167-179` the error is rethrown inside `scrapePageData`, which catches it and returns `null`. The main loop counts that URL as one failure and still commits the other records. `DetailScraper.RunBatch` rolls the batch back only when COMMIT fails, or when a `page.close()` throws out of the loop (kakao.js:227).

## Model

| member | source | states |
|---|---|---|
| Text.TrimStart | kakao.js:15 | The result is a suffix of the input; everything cut off is white space; the result does not start with white space. |
| Text.TrimStartOf | kakao.js:15 | White space followed by text that does not start with white space is trimmed to exactly that text. |
| Text.TrimEnd | kakao.js:13 | The result is a prefix of the input; everything cut off is white space; the result does not end with white space. |
| Text.Trim | kakao.js:13 | `trim()` leaves no white space at either end. |
| Text.TrimSlice | kakao.js:13 | `trim()` returns a slice of its input with only white space outside it: every character that is not white space is kept, and no character is added. |
| Text.TrimOfTrimmed | kakao.js:13 | Text with no white space at either end trims to itself. |
| Text.Remove | kakao.js:11 | `replace(/c/g, '')` leaves no `c`, keeps every other character, and returns text without `c` unchanged. |
| Text.RemoveSplit | kakao.js:11 | Removal works piece by piece and keeps the order: removing `c` from `a + b` is removing it from `a`, then from `b`, and a single character is dropped exactly when it is `c`. |
| Text.RemoveAppend | kakao.js:11 | Removing `c` commutes with appending a character other than `c`. |
| Text.IncludesExtends | kakao.js:127 | `includes` still finds an infix after text is added before and after it. |
| Text.IncludesAppended | kakao.js:127 | `includes` still finds an infix after text is appended. |
| Text.Includes | kakao.js:13-14 | `includes(w)` holds exactly when `w` occurs at some position. Its behaviour is stated by `IncludesExtends` and `IncludesAppended`, and by `UnscaledKeeps`, `CurrentEpNeedsTotal` and `ExtractHrefsMembers` where it decides a branch. |
| Text.DigitChar | kakao.js:37 | Each digit value renders as a `\d` character that reads back as that value. |
| Text.DigitsValue | kakao.js:32 | `parseInt(s, 10)` of a digit string, read left to right. Its value is stated by `DigitsValuePrepend`, `DecimalDigitsValue` and `TwoDigitsValue`. |
| Text.DigitsValuePrepend | kakao.js:32 | `parseInt` of a digit followed by `s` is the digit times `10^|s|` plus the value of `s`. |
| Text.DecimalDigits | kakao.js:37 | `${n}` is a non-empty digit string, one character long exactly when `n < 10`, with no leading zero when `n >= 10`. |
| Text.DecimalDigitsValue | kakao.js:32-37 | `parseInt` reads the rendering of `n` back as `n`. |
| Text.LeadingDigits | kakao.js:15 | The longest digit prefix: all digits, followed by a non-digit or the end. |
| Text.LeadingDigitsOf | kakao.js:128 | Digits followed by a non-digit lead with exactly those digits. |
| JsNumbers.Fraction | kakao.js:15 | Digits after a decimal point are worth at least 0 and less than 1, and nothing is worth 0. |
| JsNumbers.FractionValue | kakao.js:15 | The fraction digits `d` are worth the value of `d` divided by ten `|d|` times (`".25"` is 25/100). |
| JsNumbers.FractionDigits | kakao.js:15 | The fraction part of the leading literal is all digits. |
| JsNumbers.DecimalPrefix | kakao.js:15 | An unsigned literal is never negative. |
| JsNumbers.DecimalPrefixExists | kakao.js:15 | There is an unsigned literal at the head of the text exactly when it starts with a digit, or with a point and a digit. |
| JsNumbers.DecimalPrefixOfPoint | kakao.js:15 | `<digits>.<digits>` with a digit on at least one side, followed by text that does not go on with a digit, is worth integer part plus fraction; the text after it is ignored. |
| JsNumbers.PointLiteralParts | kakao.js:15 | In that text the integer digits are the ones before the point and the fraction digits the ones after it. |
| JsNumbers.DecimalPrefixOfDigits | kakao.js:15 | Digits followed by text that goes on with neither a digit nor a point are worth the digits' value; the text after them is ignored. |
| JsNumbers.IntegerLiteralParts | kakao.js:15 | In that text the integer digits are those digits and there are no fraction digits. |
| JsNumbers.SignedPrefix | kakao.js:15 | A negative literal starts with `-`. |
| JsNumbers.SignedPrefixOfSign | kakao.js:15 | A signed literal is the unsigned one, negated after `-`, and exists exactly when the unsigned one does; text without a sign reads as the unsigned literal. |
| JsNumbers.ParseFloat | kakao.js:15 | `parseFloat` is negative only when the text holds a `-`. |
| JsNumbers.ParseFloatExists | kakao.js:15-16 | `parseFloat` is a number, not `NaN`, exactly when the text after its leading white space starts with an optionally signed literal. |
| JsNumbers.ParseFloatNeedsDigit | kakao.js:15-16 | Text with no digit at all is `NaN`. |
| JsNumbers.ParseFloatOfUnsigned | kakao.js:15 | Text that starts with a digit or a point is read as the unsigned literal at its head. |
| JsNumbers.ParseFloatOfDigits | kakao.js:15 | `parseFloat` of digits followed by other text reads the digits' value (`"12만"` reads 12). |
| JsNumbers.ParseFloatOfPoint | kakao.js:22 | `parseFloat` of `<digits>.<digits>` followed by text that does not go on with a digit reads integer part plus fraction (`"9.8점"` reads 9.8). |
| JsNumbers.ParseFloatAfterSpace | kakao.js:15 | Leading white space is skipped: `parseFloat` of white space then `s` is the optionally signed literal at the head of `s`. |
| JsNumbers.ParseFloatOfSignedDigits | kakao.js:15 | White space, a sign and digits, followed by text that goes on with neither a digit nor a point, read as the digits' value, negated after `-` (`" -12만"` reads -12). |
| JsNumbers.ParseFloatOfSignedPoint | kakao.js:22 | White space, a sign and `<digits>.<digits>`, followed by text that does not go on with a digit, read as integer part plus fraction, negated after `-`. |
| JsNumbers.Round | kakao.js:16 | `Math.round(x)` lies in `(x - 1/2, x + 1/2]`. |
| JsNumbers.LeadingDigitsPadded | kakao.js:13 | Trailing white space does not change the leading digits. |
| JsNumbers.DecimalPrefixPadded | kakao.js:13 | Trailing white space does not change the leading literal. |
| JsNumbers.SignedPrefixPadded | kakao.js:13 | Trailing white space does not change the signed literal. |
| JsNumbers.ParseFloatIgnoresTrim | kakao.js:13-15 | `parseFloat(s.trim()) == parseFloat(s)`, so trimming the remainder before parsing changes no view count. |
| FieldNormalizer.ParseViews | kakao.js:9 | Absent or empty text gives `null`. |
| FieldNormalizer.Unscaled | kakao.js:13-14 | The number text once the scale word is stripped and the rest trimmed: `억` is checked first, then `만`. What it keeps and drops is stated by `UnscaledKeeps` and `UnscaledOf`. |
| FieldNormalizer.UnscaledKeeps | kakao.js:13-14 | With `억` in the text, every `억` is removed and every other character that is not white space is kept. Otherwise, with `만`, the same holds for `만`. Text with neither word is kept as it is. No character is added. |
| FieldNormalizer.UnscaledOf | kakao.js:13-14 | A literal with no scale word and no white space at its ends, followed by at most one scale word, is left as the literal. |
| FieldNormalizer.ScaledIsScaleOf | kakao.js:12-14 | The multiplier is 100000000 when the text holds `억`, else 10000 when it holds `만`, else 1. |
| FieldNormalizer.ScaledByUnit | kakao.js:12-16 | After a literal with no scale word, the multiplier is 1, 10000 or 100000000 for no word, `만` or `억`. |
| FieldNormalizer.ParseViewsNonNegative | kakao.js:8-18 | Without a `-` in the text, a view count is never negative. |
| FieldNormalizer.RoundWhole | kakao.js:16 | `Math.round` of a whole number is that number. |
| FieldNormalizer.ParseViewsOfText | kakao.js:11-16 | Once commas are gone, a literal followed by at most one scale word gives `null` when the literal is not a number, and otherwise `parseFloat` of the literal times the word's multiplier, rounded. |
| FieldNormalizer.ParseViewsOfLiteral | kakao.js:11-16 | The same, for a literal that `parseFloat` reads as `x`: the count is `x` times the multiplier, rounded. |
| FieldNormalizer.ParseViewsNoDigits | kakao.js:15-16 | Text without a digit gives `null`. |
| FieldNormalizer.ParseViewsOfPoint | kakao.js:11-16 | A count with a decimal point, `<digits>.<digits>` and at most one scale word, is integer part plus fraction times the multiplier, rounded. |
| FieldNormalizer.ParseViewsDecimalMan | kakao.js:11-16 | `"1.5만"` gives 15000. |
| FieldNormalizer.BothWordsShape | kakao.js:13 | From `<d1>억<d2>만` only `억` is stripped: the text left is `<d1><d2>만`. |
| FieldNormalizer.ParseViewsBothWords | kakao.js:13-16 | With both words, `억` is checked first: `<d1>억<d2>만` gives the value of the digits `d1 d2` times 100000000, and the `만` adds nothing. |
| FieldNormalizer.ParseViewsEokAndMan | kakao.js:13-16 | `"1억2000만"` gives 1200000000000. |
| FieldNormalizer.ParseViewsOfWhole | kakao.js:11-16 | A literal that `parseFloat` reads as the whole number `n`, followed by at most one scale word, gives `n`, `10000·n` or `100000000·n`. |
| FieldNormalizer.ParseViewsOfDigitText | kakao.js:11-16 | Text whose comma-free form is digits plus at most one scale word gives the digits' value times the multiplier. |
| FieldNormalizer.ParseViewsOfNumStr | kakao.js:11-16 | Text whose comma-free form is the rendering of `n` plus at most one scale word gives `n` times the multiplier. |
| FieldNormalizer.ParseViewsOfDigits | kakao.js:11-16 | Commas anywhere in the number are dropped: `n` written with commas, then an optional `만` or `억`, gives `n`, `10000·n` or `100000000·n`. |
| FieldNormalizer.ParseViewsGrouped | kakao.js:11 | `"1,234"` gives 1234. |
| FieldNormalizer.ParseViewsMan | kakao.js:14 | `"3만"` gives 30000. |
| FieldNormalizer.ParseViewsEok | kakao.js:13 | `"2억"` gives 200000000. |
| FieldNormalizer.ParseRating | kakao.js:19-25 | A rating exists exactly when the text is present, non-empty and parses. Twice the result is within 1 of the parsed number. A number in 0..10 gives 0..5. |
| FieldNormalizer.ParseFloatOfLiteral | kakao.js:22 | `parseFloat("<digits>.<digits>")` is integer part plus fraction. |
| FieldNormalizer.ParseFloatNinePointEight | kakao.js:22 | `parseFloat("9.8")` is 9.8. |
| FieldNormalizer.ParseRatingHigh | kakao.js:23 | `"9.8"` gives 5 (4.9 rounded). |
| FieldNormalizer.ParseRatingZero | kakao.js:20-23 | `"0"` gives 0, and no text gives `null`. |
| FieldNormalizer.FormatDateString | kakao.js:28-42 | `null` exactly for absent or empty text; converted exactly when the text matches `^\d{2}\.\d{2}\.\d{2}$`; the result is a 10-character `YYYY-MM-DD` with year 2000..2099 that converts back to the input; any other text is an unexpected format. |
| FieldNormalizer.IsCompactDate | kakao.js:30 | The test `^\d{2}\.\d{2}\.\d{2}$`. `FormatDateString` converts exactly the texts it accepts, and `FormatDateOf` and `FormatDateOtherInputs` state the result for each kind of text. |
| FieldNormalizer.CenturyDigits | kakao.js:32-37 | `2000 + parseInt(YY)` renders as `"20"` followed by YY itself. |
| FieldNormalizer.CenturyOf | kakao.js:36-37 | `2000 + 10a + b` renders as `"20"` followed by the digits `a` and `b`. |
| FieldNormalizer.DecimalDigitsAppend | kakao.js:37 | Rendering `10q + d` is rendering `q` and then the digit `d`. |
| FieldNormalizer.TwoDigitsValue | kakao.js:32 | `parseInt` of two digits is ten times the first plus the second. |
| FieldNormalizer.FormatDateOf | kakao.js:30-37 | `YY.MM.DD` becomes `20YY-MM-DD`, with month and day copied unchanged. |
| FieldNormalizer.FormatDateCompact | kakao.js:30-37 | `"24.03.15"` becomes `"2024-03-15"`. |
| FieldNormalizer.FormatDateOtherInputs | kakao.js:38-41 | `"2024-03-15"` is an unexpected format, and `""` is no date. |
| Contents.WithContent | kakao.js:71-78 | The upsert adds the record's id. It leaves every other row alone. All nine detail columns (nulls included) come from the record. The `re` flag of an existing row is kept, and a new row has none. |
| Contents.WithRevisit | link.js:161-165 | The revisit upsert adds the id and sets `re`. It leaves every other row alone and keeps an existing row's detail columns. A new row has only the flag. |
| Contents.WithContentIdempotent | kakao.js:71-78 | Upserting the same record twice is upserting it once. |
| Contents.WithRevisitIdempotent | link.js:161-165 | Marking an id twice is marking it once. |
| Contents.UpsertsCommute | kakao.js:71-78 | A full upsert and a revisit upsert of any ids give the same table in either order. |
| Contents.ContentsTable.constructor | kakao.js:50 | A new handle holds the given table, with no transaction open. |
| Contents.ContentsTable.Begin | kakao.js:202 | BEGIN opens a transaction and records the table as its snapshot. |
| Contents.ContentsTable.Commit | kakao.js:232 | COMMIT closes the transaction and keeps the writes. |
| Contents.ContentsTable.Rollback | kakao.js:237-238 | ROLLBACK closes the transaction and restores the snapshot. |
| Contents.ContentsTable.Upsert | kakao.js:165 | The table becomes `WithContent` of the old table. |
| Contents.ContentsTable.MarkRevisited | link.js:170 | The table becomes `WithRevisit` of the old table. |
| Links.LastSegmentSpec | kakao.js:108 | `split('/').pop()` is a slash-free suffix of the URL, preceded by `/` unless it is the whole URL. |
| Links.LastSegmentAfterSlash | kakao.js:108 | Whatever precedes the last `/` does not change the last segment. |
| Links.LastSegment | kakao.js:108 | `split('/').pop()`: the text after the last `/`. This is stated by `LastSegmentSpec` and `LastSegmentAfterSlash`. |
| Links.ParseId | kakao.js:109-111 | The test `^\d+$` and then `parseInt`: an id exactly for a non-empty digit segment, worth the digits' value. This is stated by `IdOfRoundTrip` and `BuildRecord`. |
| Links.IdOf | kakao.js:107-112 | The id of a detail URL: `ParseId` of the last segment. This is stated by `IdOfRoundTrip`, `BuildRecord` and `IdsOfAt`. |
| Links.IdOfRoundTrip | kakao.js:107-112 | A URL ending in `/` and the rendering of `n` has id `n`. |
| DetailScraper.Schedule | kakao.js:156 | `null` exactly when the text is absent or empty; otherwise the last two characters, or the whole text when it is shorter. |
| DetailScraper.Genre | kakao.js:119-121 | The second genre span when there are at least two, else `null`. This is stated by `RecordOf`'s genre clauses. |
| DetailScraper.FirstDigitRun | kakao.js:128 | A match is a non-empty digit run, and no match means the text has no digit. |
| DetailScraper.FirstDigitRunOf | kakao.js:128 | In digit-free text, then digits, then a non-digit or the end, the first match is those digits. |
| DetailScraper.CurrentEp | kakao.js:125-131 | An episode count exists only for text that contains `전체`, and for such text exactly when it has a digit run. |
| DetailScraper.CurrentEpFromRun | kakao.js:127-129 | Text with `전체` takes its count from its first digit run. |
| DetailScraper.CurrentEpOfDigits | kakao.js:125-131 | `전체` text, then digits, then a non-digit gives the digits' value. |
| DetailScraper.CurrentEpOf | kakao.js:125-131 | `전체` text, then the rendering of `n`, then a non-digit gives `n`. |
| DetailScraper.CurrentEpNeedsTotal | kakao.js:127-130 | Without `전체` there is no count, whatever digits the text has. |
| DetailScraper.RecordOf | kakao.js:148-159 | Each column is its converter applied to the page's text: genre is `Genre`, views `ParseViews`, rating `ParseRating`, schedule `Schedule`, start date `FormatDateString`, episode count `CurrentEp`. So the lemmas about those converters describe the stored values. The record carries the id and the page's title, author and cover unchanged. Stated directly as well: the genre is present exactly when there are at least two spans, and is the second. A view count needs non-empty text and is not negative without a `-`. A rating needs text that parses and is in 0..5 for a parsed 0..10. The schedule is at most two characters. A start date is present exactly when the text is `YY.MM.DD`, and is then an ISO date in 2000..2099 that converts back to it. An episode count needs `전체` in its text. |
| DetailScraper.BuildRecord | kakao.js:107-112 | A record is built exactly when the URL's last segment is a number. It carries that id and is `RecordOf` that id and the page. |
| DetailScraper.Scraped | kakao.js:176-181 | `scrapePageData` returns a record exactly when the page loaded, the id is numeric and the upsert went through. The record it returns is `RecordOf` the URL's id and the page. |
| DetailScraper.ScrapePageData | kakao.js:89-182 | It returns `Scraped`. Without a record the table is unchanged; with one, the table is upserted with exactly that record. |
| DetailScraper.WrittenAtMostAttempted | kakao.js:206-229 | A batch writes at most one record per attempted URL, and attempts at most every URL. |
| DetailScraper.WrittenIds | kakao.js:206-229 | Every written record comes from one URL of the batch. That URL is not the notice link and has the record's id. Its page loaded and its upsert went through. The record is `RecordOf` that id and page. |
| DetailScraper.WrittenSplit | kakao.js:222-225 | The writes of a batch are those of any prefix followed by those of the rest, so a failing URL removes only its own record. |
| DetailScraper.WrittenStep | kakao.js:206-224 | Each URL adds its own share to the writes, and adds one attempt unless it is the notice link. |
| DetailScraper.Written | kakao.js:206-229 | The records a batch writes, in visiting order. This is stated by `WrittenAtMostAttempted`, `WrittenIds`, `WrittenSplit` and `WrittenStep`, and it is what `RunBatch` upserts. |
| DetailScraper.UpsertAllSnoc | kakao.js:206-229 | Upserting one more record is one more `WithContent`. |
| DetailScraper.UpsertAll | kakao.js:206-229 | The records upserted one after another. This is stated by `UpsertAllRow`, `UpsertAllIdempotent` and `UpsertAllSnoc`. |
| DetailScraper.LastFor | kakao.js:74-77 | The record found for an id is one of the records and has that id; there is none when no record has it. |
| DetailScraper.LastForIsLast | kakao.js:74-77 | The record found is the one at the position that no later record for the id follows, and any such position gives it. |
| DetailScraper.UpsertAllRow | kakao.js:71-78 | After a run of upserts a row exists exactly for old ids and written ids. It holds the last written record's columns, or is untouched when none was written. Its `re` flag is never changed. |
| DetailScraper.UpsertAllIdempotent | kakao.js:71-78 | Writing a batch's records again leaves the table unchanged. |
| DetailScraper.RunBatch | kakao.js:201-240 | The transaction is closed afterwards. The success count is the number of records written, and successes plus failures is the number of URLs other than the notice link. When COMMIT succeeds the table holds every written record in order; otherwise the table is as before. The "otherwise" also covers a `page.close()` that throws out of the loop (kakao.js:227), which rolls back the same way. |
| ScrollStabiliser.ElementCount | link.js:17-27 | `getElementCount` is -1 exactly when the query failed, and otherwise the count, at least 0. |
| ScrollStabiliser.Step | link.js:62-104 | One round of the loop: stop with a failure, a stable count or settled height, or go on with the new count and flat-scroll tally. This is stated by `StepAgrees`. |
| ScrollStabiliser.Stabilise | link.js:55-105 | The loop from its initial state. This is stated by `StabiliseIsFirstStop` and `StabiliseIgnoresLaterRounds`. |
| ScrollStabiliser.StepAgrees | link.js:62-104 | One round stops exactly when the reference says so, with its verdict, and otherwise enters the next round in the expected state. |
| ScrollStabiliser.RunAgrees | link.js:55-105 | The loop stops at the first round where a query fails, the count repeats the previous one, or the third flat scroll in a row completes, with the matching outcome. It runs out of input when there is no such round. |
| ScrollStabiliser.StabiliseIsFirstStop | link.js:55-105 | The same, from the initial `-1` count with no flat scrolls: the first round is never compared. |
| ScrollStabiliser.StabiliseIgnoresLaterRounds | link.js:55-105 | Rounds after the stopping round are never looked at. |
| ScrollStabiliser.FlatRunPrefix | link.js:91-104 | The tally of flat scrolls at a round depends only on the rounds up to it. |
| ScrollStabiliser.RepeatedCountStops | link.js:76-82 | Counts 5, 8, 8 stop in the third round because the count is unchanged. |
| ScrollStabiliser.DroppedCountContinues | link.js:83-85 | A count that drops from 8 to 5 does not stop the loop. |
| ScrollStabiliser.FlatScrollsSettle | link.js:91-104 | Three flat scrolls in a row stop the loop; a change of height in between resets the tally. |
| ScrollStabiliser.ScrollUntilStable | link.js:55-105 | The `while (true)` loop returns `Stabilise` of its rounds. |
| LinkCollector.ExtractHrefsMembers | link.js:125-145 | An href is collected exactly when some anchor carries it that is not the notice link and whose title is present, non-empty and free of `단행`. |
| LinkCollector.Kept | link.js:128-140 | Whether an anchor is collected: not the notice link, with a title that is non-empty once trimmed and does not include `단행`. This is stated by `ExtractHrefsMembers` and `NoticeNeverCollected`. |
| LinkCollector.ExtractHrefs | link.js:125-145 | The hrefs of the kept anchors, in document order. This is stated by `ExtractHrefsMembers` and `ExtractHrefsSplit`. |
| LinkCollector.NoticeNeverCollected | link.js:128-130 | The notice link is never collected. |
| LinkCollector.ExtractHrefsSplit | link.js:125-145 | Filtering keeps document order: the links of a listing are those of any first part followed by those of the rest. |
| LinkCollector.FilterAnchors | link.js:122-145 | The `forEach` that pushes onto `results` returns `ExtractHrefs` of the anchors. |
| LinkCollector.IdsOfNoneAt | link.js:169-171 | One link without a numeric last segment makes the list of ids fail. |
| LinkCollector.IdsOfAt | link.js:169-171 | When the ids exist, there is one per link, in order, and each is that link's id. |
| LinkCollector.IdsOf | link.js:169-171 | The ids of the links, or none when some link has no numeric last segment. This is stated by `IdsOfAt`, `IdsOfNoneAt` and `IdsOfSnoc`. |
| LinkCollector.RevisitAllRow | link.js:161-171 | After marking, rows exist for old ids and marked ids. Every marked row is flagged. No existing row loses or changes a detail column. Unmarked rows are untouched, and new rows carry only the flag. |
| LinkCollector.RevisitAllIdempotent | link.js:161-171 | Running the revisit pass twice is running it once. |
| LinkCollector.RevisitAllSnoc | link.js:169-171 | Marking one more id is one more `WithRevisit`. |
| LinkCollector.RevisitAll | link.js:169-171 | The ids marked one after another. This is stated by `RevisitAllRow`, `RevisitAllIdempotent` and `RevisitAllSnoc`. |
| LinkCollector.IdsOfSnoc | link.js:170 | One more link with an id appends that id. |
| LinkCollector.MarkRevisits | link.js:167-173 | The transaction is closed afterwards. It commits exactly when every link has a numeric id, and then every id is marked in order. Otherwise the table is as before. |
| LinkCollector.ErroredCrawlWritesNothing | link.js:118-155 | After a scroll error no link is collected and marking changes nothing. |
| LinkCollector.Collected | link.js:118-155 | The links a crawl collects: the filtered anchors after a clean stop whose extraction ran, else none. This is stated by `ErroredCrawlWritesNothing` and `CollectLinks`. |
| LinkCollector.CollectLinks | link.js:54-173 | The outcome is `Stabilise` of the rounds. The links are the filtered anchors only after a clean stop with the extraction run. Writes commit exactly when the loop stopped and every link has an id, and are as `MarkRevisits` describes. |

## Left out

- Puppeteer (browser launch, pages, navigation, user agent, selectors, `page.evaluate`, scrolling, `sleep`): the answers of the page are inputs (`Page`, `Visit`, `Cycle`, `Anchor`), and waits are not modelled.
- Console logging, warnings and error-message text.
- The `cnt` cursor file and the `<cnt>.json` URL list (kakao.js:190-194, 251): the URL list is an input. `cnt` is declared inside the `try` block, so the `finally` block's write cannot see it; this plumbing is not modelled.
- index.js and test.js: browser scroll loops with logging and a JSON dump, with no logic beyond what link.js has.
- `db.close` and the database setup failure path (kakao.js:49-84): the handle is an object that exists.
- JsNumbers.ParseFloat: numbers are exact decimals, not IEEE doubles, and the grammar is a decimal prefix without exponents, `Infinity` or hexadecimal forms. Results that depend on rounding of doubles are not captured.
- Text.Trim: its contract states only that no white space is left at the ends; `TrimSlice` states what is kept. The function is unfolded by most proofs, so the full statement is a lemma.
- Text.Remove: its contract states which characters remain; order and count are stated by `RemoveSplit`.
- JsNumbers.Fraction: its contract gives bounds; the value is stated by `FractionValue`.
- JsNumbers.FractionDigits: its contract says the result is all digits; which digits it is, for each shape of text, is stated by `PointLiteralParts` and `IntegerLiteralParts`.
- JsNumbers.DecimalPrefix: its contract states the sign; when a literal exists is stated by `DecimalPrefixExists`, and its value by `DecimalPrefixOfPoint` and `DecimalPrefixOfDigits`.
- JsNumbers.SignedPrefix: its contract states the sign; its value is stated by `SignedPrefixOfSign`.
- JsNumbers.ParseFloat: its contract states the sign; `NaN` is stated by `ParseFloatExists` and `ParseFloatNeedsDigit`. The value is stated by `ParseFloatOfDigits` and `ParseFloatOfPoint` for text that starts with the literal. `ParseFloatAfterSpace`, `ParseFloatOfSignedDigits` and `ParseFloatOfSignedPoint` cover text with leading white space or a sign.
- FieldNormalizer.ParseViews: its contract covers absent and empty text; the other cases are stated by the `ParseViews…` lemmas, which are kept apart because every statement about `ParseViews` unfolds `parseFloat`.
- JsNumbers.Round: exact on reals; the double-precision error of `num * multiplier` and `num / 2` is not modelled.
- Text.IsSpace: a representative subset of the white space that `trim` and `parseFloat` skip, not the full Unicode `Zs` class and line terminators.
- Strings are sequences of characters; UTF-16 surrogate pairs are not modelled, so `slice(-2)` in `DetailScraper.Schedule` takes two characters, not two code units.
- Text.DigitsValue: `parseInt` on long digit strings loses precision beyond 2^53 in the source; the model reads the exact value.
- DetailScraper.ScrapePageData: a browser call that the scraper does not guard (`newPage`, `setUserAgent`, `goto`, the start-date `evaluate`) is one `PageError`; which call failed is not modelled.
- The `re` column is not in kakao.js's `CREATE TABLE` (kakao.js:55-66); link.js writes it, so the model assumes it exists and keeps it apart from the detail columns.
- LinkCollector.IdsOf: the model treats a last segment of plain digits as the id SQLite stores. Other texts that SQLite's integer affinity would convert (a sign, surrounding spaces) count as no id, and the statement fails. A digit segment beyond SQLite's 64-bit integer range, which makes the statement fail on `INTEGER PRIMARY KEY`, is read as an id here.
- LinkCollector.MarkRevisits: a statement that throws is uncaught in link.js, so the process ends with the transaction open and SQLite discards it. The model rolls back, which leaves the same table.
- ScrollStabiliser.ScrollUntilStable: the loop runs over a finite sequence of rounds; `OutOfInput` stands for a loop the rounds given did not finish, and in `LinkCollector.CollectLinks` nothing is written then. The value `currentScrollCtrlCount` keeps after the loop (link.js:67, 110) is only logged and is not modelled.
- Rounds of the scroll loop in which the page's height query or scroll itself throws are one `Crashed` round; the order of page calls within a round is not modelled.
