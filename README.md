# Asahikawa fever-outpatient scrapers, modelled in Dafny

This project models the data-collection core of `takedah/opendata`. That
Django site lists the fever outpatient clinics of Asahikawa (Hokkaido) and
their locations.

- The prefecture publishes a spreadsheet of outpatient clinics. Its link is
  found on a web page (`ScrapeOutpatientSourceURL.get`). Each row becomes one
  `Outpatient` record (`ScrapeOutpatient`), after every cell is cleaned by
  `Scraper.normalize`.
- Locations come from the prefecture's open-data CSV files
  (`ScrapeOpendataLocation`) or from the Yahoo! Open Local Platform local
  search (`ScrapeYOLPLocation`).
- The `update_outpatients` management command ties these together through
  the two model managers, `OutpatientManager` and `LocationManager`. It
  upserts the scraped records, deletes the institutions that disappeared,
  and upserts the hospital and clinic locations.

Modules, one per component:

- `Base`: the Python exceptions the core raises, as values of `PyError`; `Result`, `Option`, and the location record.
- `Text`: the `str` and `re` operations the extractors use. These are `replace`, `split`, `strip`, `isspace` and the `^…$` line match.
- `Normalizer`: `Scraper.normalize` and `Scraper._format_string`.
- `SourceUrl`: `ScrapeOutpatientSourceURL.get`, as a method with the source's two nested loops.
- `OutpatientSheet`: `ScrapeOutpatient` and its helpers `_get_outpatient`, `_get_available`, `_get_opening_hours` and `_strip_if_time_format`.
- `OpendataLocation`: `ScrapeOpendataLocation`.
- `YolpLocation`: `ScrapeYOLPLocation`. JSON is a datatype; `markupsafe.escape` is modelled concretely.
- `Tables`: the two managers, as one generic class `Table<V>`. Its field `rows` is the database table, and its methods `Upsert`, `Delete` and `NameList` change or read it.
- `UpdateOutpatients`: `Command.handle`.

Each scraper's constructor fills its list in a loop. It is modelled as a
method with that loop. The method is proved equal to a specification
function, and the properties are proved as lemmas about that function.
Downloads, `float()`, `urllib.parse.quote`/`unquote` and the JSON decoder are
parameters: functions from a URL (or a string) to the parsed content.

One might expect `normalize` to be idempotent. The code is not, and the
model follows the code, for two reasons:

- The test for `"0"` runs before NFKC. Full-width `"０"` becomes `"0"` on the
  first pass and `""` on the second (`Normalizer.NormalizeNotIdempotent`).
- NFKC runs after the spaces are collapsed. A no-break space beside a space
  becomes a second space, which only a second pass collapses:
  `"a\u00a0 b"` gives `"a  b"` and then `"a b"` (`Normalizer.NoBreakSpaceDoubles`).

`Normalizer.NormalizeTwice` proves that these are the only two ways a second
pass can change the text.

Other behaviours of the code that the model keeps:

- The class `[○|〇]` in `_get_available` also accepts `|`.
- In `^.*.xlsx$` the dot before `xlsx` is not escaped, so any character may
  stand there (`SourceUrl.UnescapedDotAcceptsAnyCharacter`).
- `ScrapeOpendataLocation` always skips the first CSV record. For a file
  that begins with a blank line, as the test fixture does, the blank line is
  skipped, the header is read as data, and the header is then dropped
  because its municipality column is not Asahikawa.
- `get` rescans every `<div>` of the page once per `<article>`. The result is
  the last qualifying link, or `""` when the page has no article.

## Model

| member | source | states |
|---|---|---|
| Text.LineBody | outpatients/models.py:365-370 | a `^…$` pattern of `.` sees the text, or the text minus one final newline, and nothing with a newline inside |
| Text.Split | outpatients/models.py:716 | `str.split(",")` gives at least one part, and no part holds the separator |
| Text.JoinSplit | outpatients/models.py:716 | joining the parts of a split with the separator gives back the text |
| Text.SplitJoin | outpatients/models.py:716 | splitting separator-free parts joined with the separator gives back the parts |
| Text.Replace | outpatients/models.py:457 | `str.replace` never lengthens the text when the replacement is no longer than the pattern, and never empties a non-empty text when the replacement is non-empty |
| Text.ReplaceNone | outpatients/models.py:457 | a text without the pattern's first character is left as it is |
| Text.RemoveCharSpec | outpatients/models.py:462 | `.replace(" ", "")` is the text with every space left out and every other character kept, in order |
| Text.LStrip | outpatients/models.py:328 | the left strip removes exactly a whitespace prefix, leaving a non-whitespace first character |
| Text.RStrip | outpatients/models.py:328 | the right strip removes exactly a whitespace suffix, leaving a non-whitespace last character |
| Text.Strip | outpatients/models.py:328 | `strip()` gives a slice of the text. Everything cut off on either side is whitespace, and the slice starts and ends with non-whitespace |
| Normalizer.BlanksToSpaces | outpatients/models.py:328 | each U+3000, CR and LF becomes a space, and every other character stays in its place |
| Normalizer.CollapseSpaces | outpatients/models.py:325-329 | `re.sub("( +)", " ", …)` leaves no two spaces in a row, adds no character, keeps the first and last characters |
| Normalizer.RunBecomesOneSpace | outpatients/models.py:325-329 | a maximal run of spaces of any length becomes one space, and the text on each side is collapsed on its own |
| Normalizer.CollapseAppend | outpatients/models.py:325-329 | two texts that do not meet in two spaces collapse separately |
| Normalizer.CollapseNoDoubleSpace | outpatients/models.py:325-329 | text without two spaces in a row is left unchanged |
| Normalizer.CollapseShortens | outpatients/models.py:325-329 | text with two spaces in a row gets strictly shorter |
| Normalizer.FormatString | outpatients/models.py:314-331 | `_format_string` yields clean text (no CR, LF or U+3000, no whitespace at either end, no double space) and adds no character except the space |
| Normalizer.FormatStringOnlyTouchesWhitespace | outpatients/models.py:324-331 | `_format_string` changes nothing but whitespace: the non-whitespace characters are kept, in order |
| Normalizer.FormatStringKeepsClean | outpatients/models.py:324-331 | clean text passes `_format_string` unchanged |
| Normalizer.HalfWidth | outpatients/models.py:312 | NFKC maps the full-width ASCII forms to ASCII and the compatibility spaces and U+3000 to a space, and leaves everything else alone; whether a character is whitespace never changes |
| Normalizer.Nfkc | outpatients/models.py:312 | on the modelled characters NFKC works character by character and keeps the length |
| Normalizer.Normalize | outpatients/models.py:296-312 | `"0"` becomes `""`. Every result is trimmed and has no full-width ASCII form and no compatibility space. A text without compatibility spaces comes out clean |
| Normalizer.NormalizeValue | outpatients/models.py:306-307 | a non-str gives `""`; a str is normalized |
| Normalizer.NormalizeRow | outpatients/models.py:440 | `list(map(self.normalize, row))` normalizes each cell in place, keeping the row's length |
| Normalizer.NormalizeFixedPoint | outpatients/models.py:296-331 | clean text without full-width forms or compatibility spaces, other than `"0"`, is its own normal form |
| Normalizer.NormalizeTwice | outpatients/models.py:309-312 | normalizing twice equals normalizing once exactly when the first pass gives neither `"0"` nor two spaces in a row |
| Normalizer.NormalizeNotIdempotent | outpatients/models.py:309-312 | `"０"` normalizes to `"0"`, and that normalizes to `""` |
| Normalizer.NoBreakSpaceDoubles | outpatients/models.py:312-331 | `"a\u00a0 b"` normalizes to `"a  b"`, and that normalizes to `"a b"` |
| SourceUrl.LastQualifying | outpatients/models.py:360-371 | finds the last div with a non-empty `.xlsx` href and an alt naming 旭川, and none after it qualifies; none when no div qualifies |
| SourceUrl.Get | outpatients/models.py:343-373 | the URL is the host plus the last qualifying href; it is `""` exactly when there is no article or no qualifying div |
| SourceUrl.SourceUrlSpec | outpatients/models.py:343-373 | the URL `get` returns is `""` exactly when there is no article or no qualifying div; otherwise it is the host plus the href of the last qualifying div |
| SourceUrl.UnescapedDotAcceptsAnyCharacter | outpatients/models.py:365 | `"/fs/a_xlsx"` is accepted as a spreadsheet link; a bare `"xlsx"` is not |
| OutpatientSheet.Available | outpatients/models.py:482-497 | true only if a mark (○, 〇 or \|) occurs, and for one-line text exactly then |
| OutpatientSheet.StripIfTimeFormat | outpatients/models.py:529-549 | the result is the text itself or `HH:MM`; for one-line text it changes exactly when the text ends in `HH:MM:SS` |
| OutpatientSheet.StripTimeCell | outpatients/models.py:542-547 | whatever stands before a trailing `HH:MM:SS`, the result is `HH:MM` |
| OutpatientSheet.TimeCell | outpatients/models.py:542-547 | a cell holding exactly `HH:MM:SS` loses its seconds |
| OutpatientSheet.DayHours | outpatients/models.py:515-527 | a day's hours are empty exactly when all four ends are 00:00 |
| OutpatientSheet.OpeningHours | outpatients/models.py:499-527 | a day is closed exactly when cells 0, 2, 3 and 5 all read 00:00 once their seconds are gone |
| OutpatientSheet.DayHoursCases | outpatients/models.py:499-527 | the day's hours in all five cases: closed, morning only, afternoon only, one range through a 00:00 gap, two ranges joined by 、 |
| OutpatientSheet.ContractedDay | outpatients/models.py:527 | `～00:00、00:00～` is contracted to `～` |
| OutpatientSheet.UncontractedDay | outpatients/models.py:527 | without a 00:00 gap the joined halves are left unchanged |
| OutpatientSheet.GapForcesZeros | outpatients/models.py:527 | only a morning ending and an afternoon starting at 00:00 can form the contracted pattern |
| OutpatientSheet.OpeningHoursOfTimes | outpatients/models.py:511-514 | the four ends are cells 0, 2, 3 and 5 of the window, each without seconds |
| OutpatientSheet.ThroughGap | outpatients/models.py:515-527 | a morning ending and an afternoon starting at 00:00 give one range |
| OutpatientSheet.MorningOnly | outpatients/models.py:515-525 | a closed afternoon leaves the morning's range alone |
| OutpatientSheet.OpeningHoursJoinedFixture | outpatients/tests.py:351-356 | the fixture's weekday cells give `08:30～17:00` |
| OutpatientSheet.OpeningHoursMorningFixture | outpatients/tests.py:411-416 | the fixture's morning-only cells give `08:30～11:30` |
| OutpatientSheet.OpeningHoursClosedFixture | outpatients/tests.py:381-386 | all ends 00:00 give `""` |
| OutpatientSheet.EmptyCellIsNotZeroTime | outpatients/models.py:511-518 | a `"0"` start cell normalizes to `""`, not `00:00`, so the morning is written as `～` and not dropped |
| OutpatientSheet.Record | outpatients/models.py:441-480 | a record's name has no space, it has seven days, and a positive-patient modality is set only for a facility that sees positive patients |
| OutpatientSheet.GetOutpatient | outpatients/models.py:427-480 | IndexError exactly for rows under 58 cells. Otherwise a well-formed record whose name is the normalized name without its spaces, other characters in order |
| OutpatientSheet.OutpatientColumns | outpatients/models.py:440-480 | the column each field comes from, normalized; the address without 北海道; the three positive-patient modalities only for a facility that sees positive patients |
| OutpatientSheet.WeekDay | outpatients/models.py:468-474 | day k of the week (Monday first) is the opening hours of the six normalized cells 9+6k .. 14+6k of the row |
| OutpatientSheet.NormalizedCellTests | outpatients/models.py:482-549 | on a normalized cell, availability holds exactly when a mark occurs, and the time-format strip changes the text exactly when it ends in a time |
| OutpatientSheet.UnreadColumns | outpatients/models.py:440-480 | columns 54..56 and past 57 never affect the record |
| OutpatientSheet.NonEmptyRows | outpatients/models.py:396-397 | the rows kept are exactly the rows with at least one cell |
| OutpatientSheet.Collect | outpatients/models.py:396-398 | the constructor's loop yields at most one record per row, and fails only with the error of a non-empty row |
| OutpatientSheet.Outpatients | outpatients/models.py:388-398 | the scrape fails only with IndexError, and yields no more records than rows |
| OutpatientSheet.CollectFailureSticks | outpatients/models.py:396-398 | the first failing row's exception ends the whole scrape |
| OutpatientSheet.CollectSucceeds | outpatients/models.py:396-398 | the scrape succeeds exactly when no row has 1..57 cells; otherwise it fails with IndexError |
| OutpatientSheet.CollectRecords | outpatients/models.py:396-398 | on success there is one record per non-empty row, in order, each that row's conversion |
| OutpatientSheet.OutpatientsSpec | outpatients/models.py:388-398 | the constructor's list is the records of the non-empty rows, or IndexError when a row is short |
| OutpatientSheet.Scrape | outpatients/models.py:388-398 | the loop computes the specified list, and succeeds exactly when the rows fit |
| OpendataLocation.TableValues | outpatients/models.py:577-594 | every record after the first, or StopIteration when there is none |
| OpendataLocation.ExtractLocation | outpatients/models.py:596-623 | a location exactly for a 37-field Asahikawa row whose coordinates parse. Longitude comes from column 12 and latitude from column 11. The name is normalized column 5 with its spaces left out, other characters in order |
| OpendataLocation.Locations | outpatients/models.py:566-571 | at most one location per data row; `LocationsAppend`, `LocationsOfOne` and `LocationsFromRows` say which rows give one and that the order of the rows is kept |
| OpendataLocation.KeptAppend | outpatients/models.py:568-571 | filtering two parts of the file is filtering each |
| OpendataLocation.KeptFromRows | outpatients/models.py:568-571 | every kept value comes from a row, every accepted row contributes, and there are no more values than rows |
| OpendataLocation.LocationsAppend | outpatients/models.py:568-571 | the locations of two parts of a file are those of each, in order |
| OpendataLocation.LocationsOfOne | outpatients/models.py:568-571 | a single row contributes its own location, if any |
| OpendataLocation.LocationsFromRows | outpatients/models.py:568-571 | a location is listed exactly when some row yields it; at most one per row |
| OpendataLocation.ZeroCoordinateDropped | outpatients/models.py:609-621 | a coordinate written `"0"` normalizes to `""`, which `float` rejects, so the row is dropped |
| OpendataLocation.Scrape | outpatients/models.py:560-571 | StopIteration for an empty file; otherwise the locations of every record after the first |
| OpendataLocation.HeaderAfterBlankLineDropped | outpatients/tests.py:608-609 | a header row read as data is dropped because its municipality is 市町村 |
| YolpLocation.Escape | outpatients/models.py:642 | no `<`, `>`, `'` or `"` survives escaping, and nothing gets shorter |
| YolpLocation.UnescapeEscapeChar | outpatients/models.py:642 | each escaped character reads back to itself |
| YolpLocation.UnescapeEscape | outpatients/models.py:642 | escaping loses nothing: reading the entities back gives the name |
| YolpLocation.EscapePlain | outpatients/models.py:642 | a name without markup characters escapes to itself |
| YolpLocation.RequestUrl | outpatients/models.py:640-664 | the request is the search endpoint with the app id, then the quoted query, which can be read back from it, then the fixed codes: `ac=01204` (Asahikawa), `gc=0401` (hospitals), `sort=-match`, `detail=simple` and `output=json` |
| YolpLocation.Lookup | outpatients/models.py:690 | subscripting gives the member of a dict that has the key, KeyError for a dict without it, TypeError for anything else |
| YolpLocation.SearchResults | outpatients/models.py:677-703 | RuntimeError exactly when ResultInfo, Count, or (for a non-zero count) Feature is missing. TypeError exactly when the response or its ResultInfo is not a dict. On success, `[Origin]` for a count equal to zero and the Feature member otherwise |
| YolpLocation.ZeroCountGivesOrigin | outpatients/models.py:690-698 | a count equal to zero, `0` or `false`, gives the single placeholder result at "0,0" |
| YolpLocation.Iterate | outpatients/models.py:666 | a list yields its items; everything else that fails fails with TypeError |
| YolpLocation.ExtractLocation | outpatients/models.py:705-719 | a location exactly when the coordinates are a string of two parseable comma-separated fields; otherwise the error Python raises first |
| YolpLocation.CoordinatesRoundTrip | outpatients/models.py:716-718 | `"lon,lat"` gives back the two numbers parsed from its halves |
| YolpLocation.Locations | outpatients/models.py:666-672 | on success one location per result, each named after the facility; a failure is the error of one of the results |
| YolpLocation.YolpLocations | outpatients/models.py:634-672 | success needs a str name and a non-empty app id, and every location carries the name escaped, quoted and unquoted |
| YolpLocation.LocationsFailureSticks | outpatients/models.py:666-672 | the first failing result ends the whole search |
| YolpLocation.LocationsOnePerResult | outpatients/models.py:666-672 | on success there is one location per result, in order, each carrying the facility name |
| YolpLocation.LocationsOfOne | outpatients/models.py:666-672 | a single result contributes its location, or its error |
| YolpLocation.OriginLocation | outpatients/models.py:690-698 | the placeholder result reads as the number "0" twice |
| YolpLocation.Scrape | outpatients/models.py:634-672 | the constructor's loop computes the specified list of locations or error |
| YolpLocation.ConstructorChecks | outpatients/models.py:641-651 | a non-str name raises TypeError, then a missing or empty app id raises RuntimeError |
| YolpLocation.LocationsNamedAfterFacility | outpatients/models.py:668-670 | every location carries the escaped name when unquote undoes quote, and that reads back to the name |
| YolpLocation.ZeroHitsGiveOrigin | outpatients/models.py:690-698 | a search with no hits yields one location at the parsed "0" coordinates |
| YolpLocation.OneHit | outpatients/tests.py:674-684 | one hit yields its coordinates under the facility name |
| Tables.IndexOf | outpatients/models.py:27-31 | finds the first row with the name and user, or proves there is none |
| Tables.Deleted | outpatients/models.py:34-40 | the remaining rows are exactly those with another name, whoever created them |
| Tables.Upserted | outpatients/models.py:26-32 | an upsert adds at most one row and removes none |
| Tables.UpsertedSpec | outpatients/models.py:26-32 | upsert stores the record under its key, keeps every other row, keeps keys unique, adds the name, and appends exactly when the key was absent |
| Tables.GetUpsertedOther | outpatients/models.py:26-32 | upserting one name leaves every other name's record as it was |
| Tables.DeletedSpec | outpatients/models.py:34-40 | delete removes that name and no other, and keeps keys unique |
| Tables.DeletedUnique | outpatients/models.py:34-40 | deleting keeps keys unique |
| Tables.UniqueTail | outpatients/models.py:26-32 | the rows after the first of a table with unique keys have unique keys |
| Tables.UniqueCons | outpatients/models.py:26-32 | prepending a row whose key is new keeps keys unique |
| Tables.UpsertAll | outpatients/management/commands/update_outpatients.py:32-34 | upserting a list adds at most one row per item and removes none |
| Tables.UpsertAllNames | outpatients/management/commands/update_outpatients.py:32-34 | after upserting a list the table holds the old names plus the list's, with unique keys |
| Tables.UpsertAllLastWins | outpatients/management/commands/update_outpatients.py:32-34 | the last record upserted under a name is the one stored |
| Tables.Table.Upsert | outpatients/models.py:26-32 | on a table with unique keys, the rows become the upserted rows and keys stay unique; `created` is true exactly when the key was absent |
| Tables.Table.Delete | outpatients/models.py:34-40 | the rows lose every row of the name and keys stay unique; the result is true exactly when the name was present |
| Tables.Table.NameList | outpatients/models.py:42-43 | every row's name, in row order, and exactly the table's names |
| UpdateOutpatients.Without | outpatients/management/commands/update_outpatients.py:37-42 | removing a set of names keeps exactly the rows whose name is not in it |
| UpdateOutpatients.RefreshedOutpatients | outpatients/management/commands/update_outpatients.py:24-42 | after the refresh no row names an institution the table held and the spreadsheet no longer lists |
| UpdateOutpatients.Sheet | outpatients/management/commands/update_outpatients.py:29-30 | the download fails with MissingSchema exactly when the page has no article or no qualifying link, because the address is then `""` |
| UpdateOutpatients.Scraped | outpatients/management/commands/update_outpatients.py:29-32 | the records come from the downloaded sheet; the only failures are MissingSchema and IndexError |
| UpdateOutpatients.DeletedWithout | outpatients/management/commands/update_outpatients.py:40-42 | deleting names one at a time, in any order, removes exactly the set |
| UpdateOutpatients.WithoutSpec | outpatients/management/commands/update_outpatients.py:37-42 | removing a set of names removes exactly them and keeps keys unique |
| UpdateOutpatients.WithoutMember | outpatients/management/commands/update_outpatients.py:37-42 | every row left after removing names was already there |
| UpdateOutpatients.GetWithout | outpatients/management/commands/update_outpatients.py:37-42 | removing other names leaves a name's record as it was |
| UpdateOutpatients.RefreshedNames | outpatients/management/commands/update_outpatients.py:24-42 | after upserts and deletions the table names exactly the spreadsheet's institutions, with unique keys |
| UpdateOutpatients.RefreshedKeepsLatest | outpatients/management/commands/update_outpatients.py:32-42 | every spreadsheet institution is stored under the admin user with its last record |
| UpdateOutpatients.RefreshedLocations | outpatients/management/commands/update_outpatients.py:44-54 | after the hospital and then the clinic upserts, names stay unique, the stored names are the old ones plus every hospital and clinic name, and a clinic's record wins over a hospital of the same name |
| UpdateOutpatients.UpsertEach | outpatients/management/commands/update_outpatients.py:32-34 | the loop upserts every record, in order |
| UpdateOutpatients.DeleteAll | outpatients/management/commands/update_outpatients.py:40-42 | the loop deletes every name of the set |
| UpdateOutpatients.RefreshOutpatients | outpatients/management/commands/update_outpatients.py:24-42 | the outpatient table ends with exactly the spreadsheet's names and keeps unique keys |
| UpdateOutpatients.RefreshLocations | outpatients/management/commands/update_outpatients.py:45-48 | StopIteration and no change for an empty file; otherwise every location is upserted |
| UpdateOutpatients.ScrapeSheet | outpatients/management/commands/update_outpatients.py:29-30 | the records come from the spreadsheet whose address the prefecture's page gives; an empty address fails with MissingSchema |
| UpdateOutpatients.RefreshAllLocations | outpatients/management/commands/update_outpatients.py:44-54 | the hospital file is upserted and then the clinic file; an empty file ends with StopIteration, keeping the upserts done before it |
| UpdateOutpatients.Handle | outpatients/management/commands/update_outpatients.py:20-54 | a missing link or a failed spreadsheet changes nothing; otherwise the outpatient table is refreshed, then hospital and clinic locations are upserted, each CSV failure leaving the earlier work in place |

## Left out

- Downloads (`requests`, `DownloadHTML`, `DownloadExcel`, `DownloadCSV`, `DownloadJSON`) and `load_dotenv`. The downloads check neither the HTTP status nor the content type, so an error page's body is parsed as it is; the model's download parameters return whatever the parsers receive. Every download is a parameter that maps a URL to its parsed content. The one download failure modelled is MissingSchema, which `requests.get("")` raises when the page gives no spreadsheet link. Network errors are not modelled.
- Spreadsheet and file parsing: `pandas.read_excel` (the three skipped rows, NaN to `""`), `csv.reader`, `json.loads` and BeautifulSoup. The model starts from the rows, records, JSON value or div summaries they produce.
- `float()` is a parameter (`DecimalParser`), because floating point parsing is outside the model. Lemmas that need `float("")` to fail say so in their preconditions.
- `urllib.parse.quote` and `unquote` are parameters.
- Normalizer.Nfkc: covers the full-width ASCII forms U+FF01..U+FF5E and the spaces U+00A0, U+2000..U+200A, U+202F, U+205F and U+3000. The rest of Unicode NFKC is not modelled: compatibility ideographs, half-width katakana, ligatures, and the mappings to several characters. Some of those begin with a space: U+309B becomes U+0020 U+3099, and U+00A8 becomes U+0020 U+0308.
- Normalizer.HalfWidth: maps one character to one character, so it cannot express the mappings above that begin with a space.
- Normalizer.Normalize: two promises hold for the modelled characters only. The first is that the result has no whitespace at either end: real NFKC turns `"゛x"` into `" ゙x"`, which starts with a space. The second is that text without compatibility spaces comes out with no two spaces in a row (`NoCompatSpaces(text) ==> Clean(r)`): real NFKC turns `"a ¨"` into `"a  ̈"`, because U+00A8 becomes U+0020 U+0308 next to the space already there.
- Normalizer.NormalizeFixedPoint: holds for the modelled characters only. A clean text holding U+309B is changed by NFKC.
- Normalizer.NormalizeTwice: holds for the modelled characters only. With U+309B at the start, the first pass yields a leading space, which a second pass strips.
- Tables.Table.Upsert: requires unique keys. On a table with two rows for one name and user, `update_or_create` raises MultipleObjectsReturned, which is not modelled. Every method of the class keeps keys unique, so such a table does not arise here.
- The Django ORM, `transaction.atomic`, `User.objects.get(username="admin")` (a missing admin user) and the `Outpatient`/`Location` model fields' length limits. The admin user is a number, and a table is a sequence of rows.
- Concurrent writers to the database are not modelled.
- The scraper classes keep their list in a private attribute that only the constructor fills. Each is modelled as a method returning the list, not as a class.
- OutpatientSheet.GetOutpatient: the `excel_row is None` branch is not modelled, because pandas never yields `None` for a row.
- OutpatientSheet.StripIfTimeFormat: the branch that returns `None` for a non-str cell is not modelled, because cells are normalized to str before it runs.
- OutpatientSheet.Week has no contract of its own. The cells each day reads are stated in WeekDay, and the hours of each day in DayHoursCases.
- YolpLocation.Iterate: a non-empty dict or str is modelled as failing with TypeError at once. Python does iterate its keys or characters, but the first of them fails with TypeError on `["Geometry"]`.
- The `Outpatient`/`Location` views, forms and URLs are not part of this model.
