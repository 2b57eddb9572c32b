# GR20 booking checker, modelled in Dafny

The program watches the booking site of the GR20 mountain shelters in
Corsica. For each of three one-week periods it fetches the site's
availability table. Each table has a header row with one "DD/MM" column per
night, after two label columns. Below it come three body rows per shelter:
bivouac, rented tent and rented room. Each cell's colour gives a tier:
more than five places, fewer than five, or none.

The program turns each page into a list of twelve shelters. Each shelter
has one entry per header date and the records decoded from its rows. It
merges the pages by shelter name. Then it checks a fixed list of
(shelter, night) pairs for a night with a tier other than "none".

The model covers:

- the date codec: "DD/MM" header text to a calendar date, and a date to the
  site's "YYYY-MM-DD" query text;
- cell and row decoding;
- the empty shelter skeleton built from the headers;
- the assignment of a row's records to dates;
- the page loop;
- the merge of the pages;
- the matcher's decision;
- the composition of parse, merge and match.

Modules, one per file:

- `BookingTypes` (`types.dfy`): value types, and lookup by name and by date.
- `Config` (`config.dfy`): shelter names, query periods and watched pairs.
- `DateCodec` (`dates.dfy`).
- `RowDecoder` (`rows.dfy`).
- `TableParser` (`parser.dfy`): header dates, skeleton, assignment loop and
  page loop.
- `TableMerger` (`merger.dfy`).
- `Matcher` (`matcher.dfy`).
- `BookingRun` (`run.dfy`): the top-level run.

The program's loops are methods. Each method is proved equal to a
specification function: a left fold over the same input. The properties
are proved as lemmas about those functions. Every exception the program
can throw on the modelled path is a `Failure` value.

## Model

| member | source | states |
|---|---|---|
| BookingTypes.FindByName | index.ts:141 | the index of the first shelter with that name; it equals the list length exactly when the name is absent |
| BookingTypes.FindByDate | index.ts:112 | the index of the first entry with that date; it equals the list length exactly when no entry has the date |
| BookingTypes.RecordCountAppend | index.ts:116-119 | pushing one record into one entry raises the shelter's record count by exactly one |
| Config.ConfigurationWellFormed | index.constants.ts:3-40 | there are twelve distinct shelter names; every watched shelter is one of them and is watched once; every watched night lies in one of the three query periods |
| DateCodec.NatToString | index.ts:13-14 | the decimal text of a number is a numeral that reads back as the number, has no leading zero, and is one digit exactly for numbers below 10 |
| DateCodec.NumberValue | index.ts:6 | the value `Number` reads from a digit string is zero exactly when every digit is '0' |
| DateCodec.Pad2 | index.ts:13-14 | a number padded to two characters is exactly two characters long when it is below 100, and starts with '0' when it is below 10 |
| DateCodec.PadStart | index.ts:13-14 | the padded text is at least the width long, ends with the original text, and is fill before it |
| DateCodec.Pad2Reads | index.ts:13-14 | a month or day below 100, padded to two characters, is two digits that read back as the number |
| DateCodec.LeadingZerosValue | index.ts:6 | leading zeros do not change the number a digit string reads as |
| DateCodec.Split | index.ts:6 | splitting on a separator gives at least one piece, and no piece contains the separator |
| DateCodec.SplitJoin | index.ts:6 | splitting text joined from separator-free pieces gives those pieces back |
| DateCodec.DateFromInputString | index.ts:5-9 | a header with a valid day and month becomes a valid date of 2025 |
| DateCodec.DateFromDayMonth | index.ts:5-9 | any two numerals around a '/' read as day and month of 2025, whatever their zero padding |
| DateCodec.DateFromPaddedHeader | index.ts:5-9 | the zero-padded "DD/MM" text of a valid date of 2025 decodes back to that date |
| DateCodec.AmericanFormatReadsBack | index.ts:11-17 | the query text splits on '-' into three numerals: the year, a two-digit month and a two-digit day, each reading back as the date's field |
| DateCodec.DateStringInAmericanFormat | index.ts:11-17 | the query text of a valid date starts with the year's numeral and is six characters longer, with a '-' six and three characters from the end; AmericanFormatReadsBack reads the three fields back |
| DateCodec.QueryDateIn2025 | index.ts:11-17 | a valid date of 2025 is queried as "2025-", the two-digit month, "-" and the two-digit day |
| DateCodec.YearText | index.ts:12 | the year is written "2025" |
| DateCodec.HeaderToQueryDate | index.ts:5-17 | the header "DD/MM" becomes the query text "2025-MM-DD" |
| DateCodec.PaddedDigit | index.ts:13-14 | a single digit is padded with one leading zero |
| DateCodec.HeaderExample | index.ts:5-17 | "07/06" is 7 June 2025 and becomes the query text "2025-06-07" |
| RowDecoder.SleepingTypeFromRowIndex | index.ts:59-67 | row index modulo 3 gives the type: 0 is bivouac, 1 is rented tent, 2 is rented room, each as an if-and-only-if |
| RowDecoder.AvailabilityFromStyle | index.ts:71-82 | "color:green" gives more than five, "color:orange" fewer than five and "color:darkred" none, each as an if-and-only-if; every other style gives no tier |
| RowDecoder.ShelterSleepingFromTableCell | index.ts:69-87 | a cell gives a record exactly when its style is one of the three colours; the record has the row's type and the tier whose colour the cell carries |
| RowDecoder.DecodeCells | index.ts:93 | the mapped row has one decoded value per cell, in cell order, each the decoding of its own cell |
| RowDecoder.StyleOf | index.ts:71-75 | each tier has a colour, and looking that colour up gives back the tier |
| RowDecoder.Present | index.ts:93 | filtering out absent values never lengthens the list |
| RowDecoder.ShelterSleepingsFromTableRow | index.ts:89-94 | a row gives at most one record per cell |
| RowDecoder.RecognisedColumns | index.ts:93 | the columns whose cells carry a known colour: all of them, increasing, and only those |
| RowDecoder.RowRecordsAreRecognisedCells | index.ts:89-94 | record k of a row is the k-th recognised cell, with the row's type and that cell's tier; there are as many records as recognised cells |
| RowDecoder.RowRecordsHaveRowType | index.ts:89-94 | every record of a row has the sleeping type of the row's index |
| RowDecoder.RecognisedColumnsShift | index.ts:93 | record k comes from column k or later, and from a strictly later column as soon as an earlier cell was dropped |
| RowDecoder.AllRecognisedColumns | index.ts:93 | when every cell has a known colour, record k comes from column k |
| TableParser.DatesFromTableHeaders | index.ts:52-57 | the header texts after the first two columns, in order |
| TableParser.SheltersWithoutAvailability | index.ts:96-104 | the twelve configured shelters in order, each with one empty entry per header date, in header order |
| TableParser.AssignAvailabilityToShelter | index.ts:106-121 | the loop's outcome equals the fold of single placements: success with the updated shelter, or the first failure's error |
| TableParser.AssignRecordsFailureSticks | index.ts:113-114 | once a record cannot be placed, the loop's result is that failure |
| TableParser.AssignRecordsKeepsDates | index.ts:116-119 | placing records never changes an entry's date |
| TableParser.AssignRecordsOutcome | index.ts:106-121 | the loop fails exactly when some record has no header or no entry with its header's date, and then with the first such record's error |
| TableParser.AssignRecordsAppends | index.ts:106-121 | when every record can be placed: dates are unchanged; each entry gets exactly the records routed to it, appended in order; the record count grows by the row's record count |
| TableParser.SkeletonRouting | index.ts:96-121 | on the skeleton with distinct header dates, entry j receives record j and nothing else |
| TableParser.FreshEntriesReceive | index.ts:106-121 | on empty entries dated like distinct headers in header order, a row with no more records than headers is placed without error, and entry e ends with record e alone, or stays empty past the last record |
| TableParser.SkeletonRowAlignment | index.ts:106-121 | on the skeleton with distinct header dates, a row of a configured shelter with no more records than headers is applied without error, and the entry of header e of shelter i / 3 holds exactly the record of the e-th cell with a known colour, whatever that cell's column, with the row's sleeping type and the cell's tier; entries past the row's last record stay empty |
| TableParser.DroppedCellExample | index.ts:89-121 | on the skeleton, a bivouac row of the first shelter with an uncoloured first cell and a green second cell fills the first header's entry with the green record and leaves the second header's entry empty |
| TableParser.ShelterNameAt | index.ts:133-137 | there is a current shelter name exactly while the index is below twelve |
| TableParser.ParseBookingPage | index.ts:123-147 | a page without the table fails with table-not-found; otherwise the result is the fold of row applications over the body rows, starting from the skeleton built from the headers |
| TableParser.ProcessRows | index.ts:131-145 | the row loop, with its running shelter index and name, ends with the first row failure or with the shelters after every row was applied, as the fold over all rows states |
| TableParser.AdvanceShelter | index.ts:132-138 | after the bump on every third row but the first, the running index at row i is i / 3 and the current name is the configured name at that index |
| TableParser.ShelterIndexHeldIsRowDiv | index.ts:132-138 | the number of bumps made up to and including row i is i / 3 |
| TableParser.ProcessRow | index.ts:139-144 | one row, with the current name being the configured name of shelter i / 3, has the outcome of applying row i to the shelters |
| TableParser.ParseRowsFailureSticks | index.ts:143 | an exception in one row ends the page with that error |
| TableParser.ApplyRowFrame | index.ts:139-144 | row i changes only shelter i/3, and only by appending records; rows with i/3 of 12 or more change nothing |
| TableParser.ParseRowsExtends | index.ts:134-145 | the page loop keeps the names and entry dates of every shelter and only appends records |
| TableParser.ParsedPageShape | index.ts:123-147 | a parsed page has the twelve configured names in order, one entry per header date in header order, and only records added to the skeleton |
| TableParser.RowsPastLastShelterIgnored | index.ts:135-144 | rows after the thirty-sixth do not affect the result |
| TableParser.ApplyRowFailsIff | index.ts:139-144 | with one entry per header date, a row fails exactly when it belongs to a configured shelter and has more recognised cells than there are header dates |
| TableParser.ParseRowsFailsIff | index.ts:123-147 | a page fails exactly when a row of a configured shelter has more recognised cells than there are header dates |
| TableMerger.MergeBookingTables | index.ts:149-162 | the nested loops equal the fold that appends each shelter's entries to the first merged shelter of its name, or adds the shelter when its name is new |
| TableMerger.MergeBookingTable | index.ts:152-160 | the inner loop over one page extends the fold over the shelters visited so far by that page's shelters |
| TableMerger.MergeShelterNames | index.ts:153-158 | one merge step adds the shelter's name at the end exactly when the name is new, and leaves the names unchanged otherwise |
| TableMerger.FirstAppearances | index.ts:153-158 | the names in order of first appearance are distinct and are the same set of names |
| TableMerger.FirstAppearancesInOrder | index.ts:153-158 | the unique names are ordered by the position of their first occurrence in the input |
| TableMerger.MergedNames | index.ts:149-162 | the merged names are the input names, each once, in order of first appearance |
| TableMerger.MergedAvailability | index.ts:149-162 | each merged shelter's entries are the entries of every input shelter of its name, concatenated in visiting order |
| TableMerger.MergedOfDistinct | index.ts:149-162 | merging a list whose names are distinct changes nothing |
| TableMerger.MergeSingleTable | index.ts:149-162 | merging a single page with distinct names returns that page |
| TableMerger.MergedPagesNames | index.ts:149-162 | when every page has the same distinct names, the merge has exactly those names in that order |
| TableMerger.MergeTwoPages | index.ts:149-162 | two pages with the same distinct names merge into those shelters, each with the first page's entries followed by the second's |
| Matcher.CheckMissingShelterDates | index.ts:164-182 | fails exactly when a watched shelter is missing, naming the first one; otherwise it reports the available watched shelters in order, and the flag is set exactly when some watched pair has a first entry for its night with a tier other than "none" |
| Matcher.FirstMissing | index.ts:166-169 | the position of the first watched pair whose shelter is absent: every earlier watched shelter is present |
| Matcher.MissingDateIsUnavailable | index.ts:170-171 | a watched night with no entry counts as unavailable, not as an error |
| Matcher.FlagMatchesReport | index.ts:173-181 | the summary flag is set exactly when at least one shelter was reported available |
| BookingRun.WatchedSheltersFound | index.ts:184-189 | with at least one page and every page parsed, the merge has the twelve configured names, so every watched shelter is found |
| BookingRun.PrintBookingAvailability | index.ts:184-189 | fails with a parse error exactly when some page fails, with the first failing page's error; with every page parsed, it succeeds exactly when there is at least one page, and a run with no pages fails on the first watched shelter; on success it reports the matcher's verdict on the merged pages |

## Left out

- Fetching (index.ts:19-50): the HTTP requests and their concurrent fan-out over the periods are not modelled. The run takes the pages already fetched.
- HTML parsing: a page enters the model as its extracted table, with header texts and each cell's optional `style` attribute. A page without the table is `None`.
- Console output: the progress, "available" and summary lines are not modelled, and neither is the fr-FR date formatting. The matcher returns the available shelters and the flag instead.
- JavaScript `Date`: dates are (year, month, day) triples. Date normalisation of out-of-range days and months, NaN dates, and time zones are not modelled.
- Time zones: the query text uses local-time getters on dates built at UTC midnight. West of UTC these would give the previous day; the model assumes the local day is the UTC day.
- DateCodec.DateFromInputString: header texts must have runs of decimal digits as their first two '/'-separated parts, naming a real day of 2025. `Number` in the code also accepts surrounding whitespace, a sign, a decimal point or a hex prefix, so headers such as " 31/05", "+7/6" or "7.0/06" decode to the intended date there, but the precondition excludes them. Texts that are not numbers give a NaN or normalised date, which is not modelled.
- The top-level `try` (index.ts:191-195) wraps a promise that is not awaited, so it catches nothing from the run. Errors surface as an unhandled rejection. This is not modelled; the model's errors are `Failure` values.
- Update in place and aliasing: the program pushes into shared arrays; the model's methods return new values. For example, the merge appends to the shelter objects of the first page, and the model does not capture that those objects change.
- RowDecoder.AvailabilityFromStyle: a style equal to an inherited object property name, such as "constructor", would find a function in the style table and give a bogus record. The model treats only the three colours as known.
- Error kinds: the code has no malformed-date error and no unknown-shelter error, and the model adds none. Decoding more records than there are dates is a `TypeError` on the missing header text, modelled as `HeaderMissing`. If the shelter has no entries at all, the code raises its "not found" error naming "undefined" instead, modelled as `DateNotFound`.
- The merge accepts any shelter name; no check against the configured set is modelled, because the code has none.
