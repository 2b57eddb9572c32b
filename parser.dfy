/** Page parser: the extracted availability table of one booking page becomes
    the twelve shelters of the route, each with one entry per header date into
    which the decoded records of its three rows are appended. */
module TableParser {
  import opened BookingTypes
  import opened DateCodec
  import opened RowDecoder
  import opened Config

  /** The header row starts with two label columns before the dates. */
  const LEADING_NON_DATE_COLUMNS: nat := 2

  /** The `#stockTable` element once extracted from a page: the text of each
      header cell, and for each body row the `style` attribute of each cell. */
  datatype BookingTable = BookingTable(headerCells: seq<string>, rows: seq<seq<Option<string>>>)

  datatype ParseError =
    | TableNotFound                 // the page holds no `#stockTable`
    | HeaderMissing(column: nat)    // reading the header of a record past the last date column fails
    | DateNotFound(header: string)  // no entry of the shelter carries the header's date

  predicate AllDateStrings(dates: seq<string>) {
    forall k :: 0 <= k < |dates| ==> IsDateString(dates[k])
  }

  /** `getDatesFromTableHeaders`: the header texts after the two label columns. */
  function DatesFromTableHeaders(table: BookingTable): (dates: seq<string>)
    ensures |dates| == if |table.headerCells| >= LEADING_NON_DATE_COLUMNS then |table.headerCells| - LEADING_NON_DATE_COLUMNS else 0
    ensures forall k :: 0 <= k < |dates| ==> dates[k] == table.headerCells[k + LEADING_NON_DATE_COLUMNS]
  {
    if |table.headerCells| >= LEADING_NON_DATE_COLUMNS then table.headerCells[LEADING_NON_DATE_COLUMNS..] else []
  }

  /** What the parser demands of a page: its date headers read as "DD/MM". */
  predicate HeadersAreDates(table: Option<BookingTable>) {
    table.Some? ==> AllDateStrings(DatesFromTableHeaders(table.value))
  }

  /** The calendar dates the headers stand for, in header order. */
  function HeaderDates(dates: seq<string>): (calendar: seq<CalendarDate>)
    requires AllDateStrings(dates)
    ensures |calendar| == |dates|
    ensures forall k :: 0 <= k < |dates| ==> calendar[k] == DateFromInputString(dates[k])
  {
    seq(|dates|, k requires 0 <= k < |dates| => DateFromInputString(dates[k]))
  }

  /** `getSheltersWithoutAvailability`: the twelve shelters, in configuration
      order, each with one empty entry per header date, in header order. */
  function SheltersWithoutAvailability(dates: seq<string>): (shelters: seq<Shelter>)
    requires AllDateStrings(dates)
    ensures Names(shelters) == SHELTER_NAMES
    ensures forall g :: 0 <= g < |shelters| ==>
      Dates(shelters[g].availability) == HeaderDates(dates) && RecordCount(shelters[g].availability) == 0
  {
    var empty := seq(|dates|, k requires 0 <= k < |dates| => ShelterAvailability(DateFromInputString(dates[k]), []));
    EmptyRecordCount(empty);
    seq(|SHELTER_NAMES|, g requires 0 <= g < |SHELTER_NAMES| => Shelter(SHELTER_NAMES[g], empty))
  }

  lemma {:induction false} EmptyRecordCount(availability: seq<ShelterAvailability>)
    requires forall k :: 0 <= k < |availability| ==> availability[k].sleepings == []
    ensures RecordCount(availability) == 0
  {
    if availability != [] {
      EmptyRecordCount(availability[..|availability| - 1]);
    }
  }

  // ---------------------------------------------------------------------------
  // Appending one row's records: `assignAvailabilityToShelter`

  /** Whether the k-th record of a row can be placed: there is a k-th header
      date, and an entry carries it. */
  predicate Routable(availability: seq<ShelterAvailability>, dates: seq<string>, k: nat)
    requires AllDateStrings(dates)
  {
    k < |dates| && DateFromInputString(dates[k]) in Dates(availability)
  }

  /** The text a missing header shows in the error message. */
  const UNDEFINED: string := "undefined"

  /** The error raised for the k-th record when it cannot be placed. Past the
      last header, the date is only read inside the lookup's callback, which
      runs only when the shelter has some entry: a shelter with none reports
      the date as not found instead. */
  function RoutingError(availability: seq<ShelterAvailability>, dates: seq<string>, k: nat): ParseError {
    if k < |dates| then DateNotFound(dates[k])
    else if availability == [] then DateNotFound(UNDEFINED)
    else HeaderMissing(k)
  }

  /** One iteration of the loop: append the record to the first entry dated
      like header k. */
  function AssignRecord(availability: seq<ShelterAvailability>, dates: seq<string>, k: nat, record: ShelterSleeping)
    : Result<seq<ShelterAvailability>, ParseError>
    requires AllDateStrings(dates)
  {
    if availability == [] then Failure(DateNotFound(if k < |dates| then dates[k] else UNDEFINED))
    else if k >= |dates| then Failure(HeaderMissing(k))
    else
      var j := FindByDate(availability, DateFromInputString(dates[k]));
      if j == |availability| then Failure(DateNotFound(dates[k]))
      else Success(availability[j := availability[j].(sleepings := availability[j].sleepings + [record])])
  }

  /** The whole loop: the records placed in order, the first failure ending it. */
  function AssignRecords(availability: seq<ShelterAvailability>, dates: seq<string>, records: seq<ShelterSleeping>)
    : Result<seq<ShelterAvailability>, ParseError>
    requires AllDateStrings(dates)
  {
    if records == [] then Success(availability)
    else match AssignRecords(availability, dates, records[..|records| - 1])
      case Failure(e) => Failure(e)
      case Success(a) => AssignRecord(a, dates, |records| - 1, records[|records| - 1])
  }

  /** `assignAvailabilityToShelter`, returning the updated shelter instead of
      pushing into it. */
  method AssignAvailabilityToShelter(shelter: Shelter, dates: seq<string>, records: seq<ShelterSleeping>)
    returns (r: Result<Shelter, ParseError>)
    requires AllDateStrings(dates)
    ensures r.Success? <==> AssignRecords(shelter.availability, dates, records).Success?
    ensures r.Success? ==> r.value == shelter.(availability := AssignRecords(shelter.availability, dates, records).value)
    ensures r.Failure? ==> r.error == AssignRecords(shelter.availability, dates, records).error
  {
    var availability := shelter.availability;
    var i := 0;
    while i < |records|
      invariant 0 <= i <= |records|
      invariant AssignRecords(shelter.availability, dates, records[..i]) == Success(availability)
    {
      assert records[..i + 1][..i] == records[..i];
      if availability == [] {
        AssignRecordsFailureSticks(shelter.availability, dates, records, i + 1);
        return Failure(DateNotFound(if i < |dates| then dates[i] else UNDEFINED));
      }
      if i >= |dates| {
        AssignRecordsFailureSticks(shelter.availability, dates, records, i + 1);
        return Failure(HeaderMissing(i));
      }
      var currentDate := DateFromInputString(dates[i]);
      var j := FindByDate(availability, currentDate);
      if j == |availability| {
        AssignRecordsFailureSticks(shelter.availability, dates, records, i + 1);
        return Failure(DateNotFound(dates[i]));
      }
      availability := availability[j := availability[j].(sleepings := availability[j].sleepings + [records[i]])];
      i := i + 1;
    }
    assert records[..i] == records;
    return Success(shelter.(availability := availability));
  }

  /** Once a prefix of the records fails, the whole loop fails the same way. */
  lemma {:induction false} AssignRecordsFailureSticks(availability: seq<ShelterAvailability>, dates: seq<string>,
                                                      records: seq<ShelterSleeping>, i: nat)
    requires AllDateStrings(dates)
    requires i <= |records|
    requires AssignRecords(availability, dates, records[..i]).Failure?
    ensures AssignRecords(availability, dates, records) == AssignRecords(availability, dates, records[..i])
    decreases |records| - i
  {
    if i < |records| {
      assert records[..i + 1][..i] == records[..i];
      AssignRecordsFailureSticks(availability, dates, records, i + 1);
    } else {
      assert records[..i] == records;
    }
  }

  /** The first entry with a given date depends only on the entries' dates. */
  lemma FindByDateOfSameDates(a: seq<ShelterAvailability>, b: seq<ShelterAvailability>, date: CalendarDate)
    requires Dates(a) == Dates(b)
    ensures FindByDate(a, date) == FindByDate(b, date)
  {
    assert |a| == |b|;
  }

  /** Appending records never changes an entry's date. */
  lemma {:induction false} AssignRecordsKeepsDates(availability: seq<ShelterAvailability>, dates: seq<string>,
                                                   records: seq<ShelterSleeping>)
    requires AllDateStrings(dates)
    ensures AssignRecords(availability, dates, records).Success? ==>
      Dates(AssignRecords(availability, dates, records).value) == Dates(availability)
  {
    if records != [] {
      var n := |records|;
      AssignRecordsKeepsDates(availability, dates, records[..n - 1]);
      var prefix := AssignRecords(availability, dates, records[..n - 1]);
      if prefix.Success? && n - 1 < |dates| {
        var a := prefix.value;
        var j := FindByDate(a, DateFromInputString(dates[n - 1]));
        if j < |a| {
          var b := a[j := a[j].(sleepings := a[j].sleepings + [records[n - 1]])];
          assert Dates(b) == Dates(a);
        }
      }
    }
  }

  /** The index of the first of the first n records that cannot be placed, or n. */
  function FirstUnroutable(availability: seq<ShelterAvailability>, dates: seq<string>, n: nat): (k: nat)
    requires AllDateStrings(dates)
    ensures k <= n
    ensures forall l :: 0 <= l < k ==> Routable(availability, dates, l)
    ensures k < n ==> !Routable(availability, dates, k)
  {
    if n == 0 then 0
    else
      var earlier := FirstUnroutable(availability, dates, n - 1);
      if earlier < n - 1 then earlier
      else if Routable(availability, dates, n - 1) then n
      else n - 1
  }

  /** The loop fails exactly when some record cannot be placed, and then with
      the error of the first such record. */
  lemma {:induction false} AssignRecordsOutcome(availability: seq<ShelterAvailability>, dates: seq<string>,
                                                records: seq<ShelterSleeping>)
    requires AllDateStrings(dates)
    ensures var k := FirstUnroutable(availability, dates, |records|);
      (AssignRecords(availability, dates, records).Success? <==> k == |records|)
      && (AssignRecords(availability, dates, records).Failure? ==>
            AssignRecords(availability, dates, records).error == RoutingError(availability, dates, k))
  {
    if records != [] {
      var n := |records|;
      AssignRecordsOutcome(availability, dates, records[..n - 1]);
      AssignRecordsKeepsDates(availability, dates, records[..n - 1]);
      var prefix := AssignRecords(availability, dates, records[..n - 1]);
      if prefix.Success? && n - 1 < |dates| {
        FindByDateOfSameDates(prefix.value, availability, DateFromInputString(dates[n - 1]));
      }
    }
  }

  /** Where the k-th record of a row goes: the first entry dated like header k. */
  function Target(availability: seq<ShelterAvailability>, dates: seq<string>, k: nat): nat
    requires AllDateStrings(dates) && k < |dates|
  {
    FindByDate(availability, DateFromInputString(dates[k]))
  }

  /** The records, in order, that the loop sends to entry j. */
  function RoutedTo(availability: seq<ShelterAvailability>, dates: seq<string>, records: seq<ShelterSleeping>, j: nat)
    : seq<ShelterSleeping>
    requires AllDateStrings(dates) && |records| <= |dates|
  {
    if records == [] then []
    else
      RoutedTo(availability, dates, records[..|records| - 1], j)
      + (if Target(availability, dates, |records| - 1) == j then [records[|records| - 1]] else [])
  }

  /** When every record can be placed, each entry's list is its old list
      followed by exactly the records routed to it, dates are untouched, and
      the record count grows by the number of records. */
  lemma {:induction false} AssignRecordsAppends(availability: seq<ShelterAvailability>, dates: seq<string>,
                                                records: seq<ShelterSleeping>)
    requires AllDateStrings(dates)
    requires forall k :: 0 <= k < |records| ==> Routable(availability, dates, k)
    ensures AssignRecords(availability, dates, records).Success?
    ensures var after := AssignRecords(availability, dates, records).value;
      Dates(after) == Dates(availability)
      && (forall j :: 0 <= j < |after| ==>
            after[j].sleepings == availability[j].sleepings + RoutedTo(availability, dates, records, j))
      && RecordCount(after) == RecordCount(availability) + |records|
  {
    AssignRecordsOutcome(availability, dates, records);
    AssignRecordsKeepsDates(availability, dates, records);
    if records != [] {
      var n := |records|;
      var prefix := records[..n - 1];
      assert forall k :: 0 <= k < |prefix| ==> Routable(availability, dates, k);
      AssignRecordsAppends(availability, dates, prefix);
      AssignRecordsKeepsDates(availability, dates, prefix);
      var a := AssignRecords(availability, dates, prefix).value;
      assert Routable(availability, dates, n - 1);
      var date := DateFromInputString(dates[n - 1]);
      FindByDateOfSameDates(a, availability, date);
      var t := FindByDate(a, date);
      assert t == Target(availability, dates, n - 1);
      var b := a[t := a[t].(sleepings := a[t].sleepings + [records[n - 1]])];
      assert AssignRecords(availability, dates, records) == Success(b);
      RecordCountAppend(a, t, records[n - 1]);
      forall j | 0 <= j < |b|
        ensures b[j].sleepings == availability[j].sleepings + RoutedTo(availability, dates, records, j)
      {
        AppendStep(availability, dates, records, a, t, j);
      }
    }
  }

  /** One more record, sent to entry t, extends exactly that entry's routed records. */
  lemma AppendStep(availability: seq<ShelterAvailability>, dates: seq<string>, records: seq<ShelterSleeping>,
                   a: seq<ShelterAvailability>, t: nat, j: nat)
    requires AllDateStrings(dates) && 0 < |records| <= |dates|
    requires t < |a| == |availability| && j < |a|
    requires t == Target(availability, dates, |records| - 1)
    requires a[j].sleepings == availability[j].sleepings + RoutedTo(availability, dates, records[..|records| - 1], j)
    ensures a[t := a[t].(sleepings := a[t].sleepings + [records[|records| - 1]])][j].sleepings
            == availability[j].sleepings + RoutedTo(availability, dates, records, j)
  {
    var routed := RoutedTo(availability, dates, records[..|records| - 1], j);
    var last := records[|records| - 1];
    if j == t {
      assert RoutedTo(availability, dates, records, j) == routed + [last];
      assert (availability[j].sleepings + routed) + [last] == availability[j].sleepings + (routed + [last]);
    } else {
      assert RoutedTo(availability, dates, records, j) == routed + [] == routed;
    }
  }

  /** On the skeleton built from distinct header dates, the k-th record of a
      row lands in the k-th entry: the pairing is purely positional. */
  lemma {:induction false} SkeletonRouting(availability: seq<ShelterAvailability>, dates: seq<string>,
                                           records: seq<ShelterSleeping>, j: nat)
    requires AllDateStrings(dates) && |records| <= |dates|
    requires Dates(availability) == HeaderDates(dates) && Distinct(HeaderDates(dates))
    requires j < |availability|
    ensures RoutedTo(availability, dates, records, j) == if j < |records| then [records[j]] else []
  {
    if records != [] {
      var n := |records|;
      SkeletonRouting(availability, dates, records[..n - 1], j);
      TargetOnSkeleton(availability, dates, n - 1);
      if j < n - 1 {
        assert records[..n - 1][j] == records[j];
      }
    }
  }

  /** On the skeleton with distinct header dates, record k goes to entry k. */
  lemma TargetOnSkeleton(availability: seq<ShelterAvailability>, dates: seq<string>, k: nat)
    requires AllDateStrings(dates) && k < |dates|
    requires Dates(availability) == HeaderDates(dates) && Distinct(HeaderDates(dates))
    ensures Target(availability, dates, k) == k
  {
    var calendar := HeaderDates(dates);
    assert availability[k].date == calendar[k];
  }

  /** Assigning records to entries that are still empty and dated like the
      distinct headers, in header order: entry e ends with record e alone,
      or stays empty when the row has fewer records. */
  lemma FreshEntriesReceive(availability: seq<ShelterAvailability>, dates: seq<string>,
                            records: seq<ShelterSleeping>, e: nat)
    requires AllDateStrings(dates) && Distinct(HeaderDates(dates)) && |records| <= |dates|
    requires Dates(availability) == HeaderDates(dates)
    requires forall k :: 0 <= k < |availability| ==> availability[k].sleepings == []
    requires e < |dates|
    ensures var r := AssignRecords(availability, dates, records);
      r.Success? && |r.value| == |dates|
      && r.value[e].sleepings == if e < |records| then [records[e]] else []
  {
    forall k | 0 <= k < |records| ensures Routable(availability, dates, k) {
      assert Dates(availability)[k] == DateFromInputString(dates[k]);
    }
    AssignRecordsAppends(availability, dates, records);
    SkeletonRouting(availability, dates, records, e);
  }

  /** The alignment the page parser produces. On the skeleton, the e-th cell
      of row i that carries a known colour, whatever column it sits in, fills
      the entry of header e of shelter i / 3; entries past the row's last
      record stay empty. A cell dropped by the filter therefore moves every
      later cell of its row one header to the left. */
  lemma SkeletonRowAlignment(dates: seq<string>, row: seq<Option<string>>, i: nat, e: nat)
    requires AllDateStrings(dates) && Distinct(HeaderDates(dates))
    requires i / ROWS_PER_SHELTER < |SHELTER_NAMES|
    requires |ShelterSleepingsFromTableRow(row, i)| <= |dates| && e < |dates|
    ensures var r := ApplyRow(SheltersWithoutAvailability(dates), dates, row, i);
      var g, columns := i / ROWS_PER_SHELTER, RecognisedColumns(row);
      r.Success? && |r.value| == |SHELTER_NAMES| && |r.value[g].availability| == |dates|
      && r.value[g].availability[e].sleepings
         == if e < |columns|
            then [ShelterSleeping(SleepingTypeFromRowIndex(i), AvailabilityFromStyle(row[columns[e]].value).value)]
            else []
  {
    var skeleton := SheltersWithoutAvailability(dates);
    var g := i / ROWS_PER_SHELTER;
    ConfigurationWellFormed();
    assert skeleton[g].name == SHELTER_NAMES[g];
    assert FindByName(skeleton, SHELTER_NAMES[g]) == g;
    var records := ShelterSleepingsFromTableRow(row, i);
    FreshEntriesReceive(skeleton[g].availability, dates, records, e);
    RowRecordsAreRecognisedCells(row, i);
  }

  /** The shift on a two-cell bivouac row of the first shelter: with the first
      cell uncoloured and the second green, the green cell's record fills the
      first header's entry and the second header's entry stays empty. */
  lemma DroppedCellExample(dates: seq<string>)
    requires AllDateStrings(dates) && Distinct(HeaderDates(dates)) && |dates| >= 2
    ensures var r := ApplyRow(SheltersWithoutAvailability(dates), dates, [None, Some(STYLE_MORE_THAN_5)], 0);
      r.Success? && |r.value| == |SHELTER_NAMES| && |r.value[0].availability| == |dates|
      && r.value[0].availability[0].sleepings == [ShelterSleeping(Bivouac, MoreThan5)]
      && r.value[0].availability[1].sleepings == []
  {
    var row: seq<Option<string>> := [None, Some(STYLE_MORE_THAN_5)];
    assert RecognisedColumns(row[..1]) == [];
    assert RecognisedColumns(row) == [1];
    assert |ShelterSleepingsFromTableRow(row, 0)| <= 2 <= |dates|;
    SkeletonRowAlignment(dates, row, 0, 0);
    SkeletonRowAlignment(dates, row, 0, 1);
  }

  // ---------------------------------------------------------------------------
  // The whole page: `parseBookingPage`

  /** The configured name at a shelter index, none past the twelfth. */
  function ShelterNameAt(shelterIndex: nat): (name: Option<string>)
    ensures name.Some? <==> shelterIndex < |SHELTER_NAMES|
  {
    if shelterIndex < |SHELTER_NAMES| then Some(SHELTER_NAMES[shelterIndex]) else None
  }

  /** One iteration of the page loop: row i goes to shelter i / 3, found by
      name; when there is no such shelter the row is skipped. */
  function ApplyRow(shelters: seq<Shelter>, dates: seq<string>, row: seq<Option<string>>, i: nat)
    : Result<seq<Shelter>, ParseError>
    requires AllDateStrings(dates)
  {
    var records := ShelterSleepingsFromTableRow(row, i);
    var name := ShelterNameAt(i / ROWS_PER_SHELTER);
    var j := if name.Some? then FindByName(shelters, name.value) else |shelters|;
    if j == |shelters| then Success(shelters)
    else match AssignRecords(shelters[j].availability, dates, records)
      case Failure(e) => Failure(e)
      case Success(a) => Success(shelters[j := shelters[j].(availability := a)])
  }

  /** The page loop over the first rows, the first failure ending it. */
  function ParseRows(shelters: seq<Shelter>, dates: seq<string>, rows: seq<seq<Option<string>>>)
    : Result<seq<Shelter>, ParseError>
    requires AllDateStrings(dates)
  {
    if rows == [] then Success(shelters)
    else match ParseRows(shelters, dates, rows[..|rows| - 1])
      case Failure(e) => Failure(e)
      case Success(s) => ApplyRow(s, dates, rows[|rows| - 1], |rows| - 1)
  }

  /** What `parseBookingPage` computes from the extracted table. */
  function ParsedPage(table: Option<BookingTable>): Result<seq<Shelter>, ParseError>
    requires HeadersAreDates(table)
  {
    match table
    case None => Failure(TableNotFound)
    case Some(t) =>
      var dates := DatesFromTableHeaders(t);
      ParseRows(SheltersWithoutAvailability(dates), dates, t.rows)
  }

  /** `parseBookingPage`, with the HTML already reduced to its table. */
  method ParseBookingPage(table: Option<BookingTable>) returns (r: Result<seq<Shelter>, ParseError>)
    requires HeadersAreDates(table)
    ensures r == ParsedPage(table)
  {
    if table.None? {
      return Failure(TableNotFound);
    }
    var bookingTable := table.value;
    var dates := DatesFromTableHeaders(bookingTable);
    var shelters := SheltersWithoutAvailability(dates);
    r := ProcessRows(shelters, dates, bookingTable.rows);
  }

  /** The row loop of `parseBookingPage`: row i goes to the current shelter,
      whose index is bumped on every third row after the first. */
  method ProcessRows(skeleton: seq<Shelter>, dates: seq<string>, rows: seq<seq<Option<string>>>)
    returns (r: Result<seq<Shelter>, ParseError>)
    requires AllDateStrings(dates)
    ensures r == ParseRows(skeleton, dates, rows)
  {
    var shelters := skeleton;
    var shelterIndex := 0;
    var currentShelterName := ShelterNameAt(shelterIndex);
    var i := 0;
    while i < |rows|
      invariant 0 <= i <= |rows|
      invariant ParseRows(skeleton, dates, rows[..i]) == Success(shelters)
      invariant shelterIndex == ShelterIndexHeld(i)
      invariant currentShelterName == ShelterNameAt(shelterIndex)
    {
      shelterIndex, currentShelterName := AdvanceShelter(i, shelterIndex, currentShelterName);
      var next := ProcessRow(shelters, dates, rows[i], i, currentShelterName);
      ParseRowsLoopStep(skeleton, dates, rows, i, shelters, next);
      if next.Failure? {
        return next;
      }
      shelters := next.value;
      i := i + 1;
    }
    assert rows[..i] == rows;
    return Success(shelters);
  }

  /** One iteration of the page loop: the records of row i are assigned to
      the shelter of the current name, if there is one. */
  method ProcessRow(shelters: seq<Shelter>, dates: seq<string>, row: seq<Option<string>>, i: nat,
                   currentShelterName: Option<string>)
    returns (r: Result<seq<Shelter>, ParseError>)
    requires AllDateStrings(dates)
    requires currentShelterName == ShelterNameAt(i / ROWS_PER_SHELTER)
    ensures r == ApplyRow(shelters, dates, row, i)
  {
    var records := ShelterSleepingsFromTableRow(row, i);
    var j := if currentShelterName.Some? then FindByName(shelters, currentShelterName.value) else |shelters|;
    if j == |shelters| {
      return Success(shelters);
    }
    var outcome := AssignAvailabilityToShelter(shelters[j], dates, records);
    if outcome.Failure? {
      return Failure(outcome.error);
    }
    return Success(shelters[j := outcome.value]);
  }

  /** The shelter index the loop holds when it reaches row i: bumped when
      reaching every third row after the first. */
  function ShelterIndexHeld(i: nat): nat {
    if i <= 1 then 0
    else ShelterIndexHeld(i - 1) + if (i - 1) % ROWS_PER_SHELTER == 0 then 1 else 0
  }

  /** After its bump, the index used for row i is i / 3. */
  lemma {:induction false} ShelterIndexHeldIsRowDiv(i: nat)
    ensures ShelterIndexHeld(i + 1) == i / ROWS_PER_SHELTER
  {
    if i > 0 {
      ShelterIndexHeldIsRowDiv(i - 1);
    }
  }

  /** The bump at the head of an iteration of the page loop. */
  method AdvanceShelter(i: nat, shelterIndex: nat, currentShelterName: Option<string>)
    returns (nextIndex: nat, nextName: Option<string>)
    requires shelterIndex == ShelterIndexHeld(i)
    requires currentShelterName == ShelterNameAt(shelterIndex)
    ensures nextIndex == ShelterIndexHeld(i + 1) && nextIndex == i / ROWS_PER_SHELTER
    ensures nextName == ShelterNameAt(nextIndex)
  {
    ShelterIndexHeldIsRowDiv(i);
    nextIndex, nextName := shelterIndex, currentShelterName;
    if i != 0 && i % ROWS_PER_SHELTER == 0 {
      nextIndex := shelterIndex + 1;
      nextName := ShelterNameAt(nextIndex);
    }
  }

  /** What one iteration of the page loop means for the fold: a successful
      row extends it by one row, and a failed row is the page's result. */
  lemma ParseRowsLoopStep(skeleton: seq<Shelter>, dates: seq<string>, rows: seq<seq<Option<string>>>, i: nat,
                          shelters: seq<Shelter>, next: Result<seq<Shelter>, ParseError>)
    requires AllDateStrings(dates)
    requires i < |rows| && ParseRows(skeleton, dates, rows[..i]) == Success(shelters)
    requires next == ApplyRow(shelters, dates, rows[i], i)
    ensures next.Success? ==> ParseRows(skeleton, dates, rows[..i + 1]) == next
    ensures next.Failure? ==> ParseRows(skeleton, dates, rows) == next
  {
    ParseRowsStep(skeleton, dates, rows, i);
    if next.Failure? {
      ParseRowsFailureSticks(skeleton, dates, rows, i + 1);
    }
  }

  /** The page loop over one more row is one more iteration. */
  lemma ParseRowsStep(shelters: seq<Shelter>, dates: seq<string>, rows: seq<seq<Option<string>>>, i: nat)
    requires AllDateStrings(dates)
    requires i < |rows|
    ensures ParseRows(shelters, dates, rows[..i + 1])
            == match ParseRows(shelters, dates, rows[..i])
               case Failure(e) => Failure(e)
               case Success(s) => ApplyRow(s, dates, rows[i], i)
  {
    assert rows[..i + 1][..i] == rows[..i];
  }

  /** Once a prefix of the rows fails, the whole page fails the same way. */
  lemma {:induction false} ParseRowsFailureSticks(shelters: seq<Shelter>, dates: seq<string>,
                                                  rows: seq<seq<Option<string>>>, i: nat)
    requires AllDateStrings(dates)
    requires i <= |rows|
    requires ParseRows(shelters, dates, rows[..i]).Failure?
    ensures ParseRows(shelters, dates, rows) == ParseRows(shelters, dates, rows[..i])
    decreases |rows| - i
  {
    if i < |rows| {
      assert rows[..i + 1][..i] == rows[..i];
      ParseRowsFailureSticks(shelters, dates, rows, i + 1);
    } else {
      assert rows[..i] == rows;
    }
  }

  /** `after` is `before` with some records appended: same shelters in the same
      order, same dates in the same order, each old record list a prefix of the new. */
  predicate OnlySleepingsExtended(before: seq<Shelter>, after: seq<Shelter>) {
    |after| == |before|
    && forall g :: 0 <= g < |before| ==>
         after[g].name == before[g].name
         && Dates(after[g].availability) == Dates(before[g].availability)
         && forall k :: 0 <= k < |before[g].availability| ==>
              before[g].availability[k].sleepings <= after[g].availability[k].sleepings
  }

  /** Row i changes at most shelter i / 3, only by appending records to it, and
      leaves the shelters untouched when i / 3 is past the last shelter. */
  lemma ApplyRowFrame(shelters: seq<Shelter>, dates: seq<string>, row: seq<Option<string>>, i: nat)
    requires AllDateStrings(dates)
    requires Names(shelters) == SHELTER_NAMES
    ensures i / ROWS_PER_SHELTER >= |SHELTER_NAMES| ==> ApplyRow(shelters, dates, row, i) == Success(shelters)
    ensures ApplyRow(shelters, dates, row, i).Success? ==>
      var after := ApplyRow(shelters, dates, row, i).value;
      OnlySleepingsExtended(shelters, after)
      && forall g :: 0 <= g < |shelters| && g != i / ROWS_PER_SHELTER ==> after[g] == shelters[g]
  {
    ConfigurationWellFormed();
    var g := i / ROWS_PER_SHELTER;
    if g < |SHELTER_NAMES| {
      var j := FindByName(shelters, SHELTER_NAMES[g]);
      assert shelters[g].name == SHELTER_NAMES[g];
      assert j == g;
      var records := ShelterSleepingsFromTableRow(row, i);
      AssignRecordsOutcome(shelters[g].availability, dates, records);
      if AssignRecords(shelters[g].availability, dates, records).Success? {
        AssignRecordsAppends(shelters[g].availability, dates, records);
      }
    }
  }

  lemma OnlySleepingsExtendedTransitive(a: seq<Shelter>, b: seq<Shelter>, c: seq<Shelter>)
    requires OnlySleepingsExtended(a, b) && OnlySleepingsExtended(b, c)
    ensures OnlySleepingsExtended(a, c)
  {
    forall g, k | 0 <= g < |a| && 0 <= k < |a[g].availability|
      ensures a[g].availability[k].sleepings <= c[g].availability[k].sleepings
    {
      assert |b[g].availability| == |Dates(b[g].availability)| == |Dates(a[g].availability)|;
    }
  }

  /** The page loop only ever appends records: shelter names and order, and each
      shelter's dates and their order, stay those it started from. */
  lemma {:induction false} ParseRowsExtends(shelters: seq<Shelter>, dates: seq<string>, rows: seq<seq<Option<string>>>)
    requires AllDateStrings(dates)
    requires Names(shelters) == SHELTER_NAMES
    ensures ParseRows(shelters, dates, rows).Success? ==>
      OnlySleepingsExtended(shelters, ParseRows(shelters, dates, rows).value)
  {
    if rows != [] {
      var n := |rows|;
      ParseRowsExtends(shelters, dates, rows[..n - 1]);
      var prefix := ParseRows(shelters, dates, rows[..n - 1]);
      if prefix.Success? {
        assert Names(prefix.value) == SHELTER_NAMES by {
          assert forall g :: 0 <= g < |shelters| ==> prefix.value[g].name == shelters[g].name;
        }
        ApplyRowFrame(prefix.value, dates, rows[n - 1], n - 1);
        if ParseRows(shelters, dates, rows).Success? {
          OnlySleepingsExtendedTransitive(shelters, prefix.value, ParseRows(shelters, dates, rows).value);
        }
      }
    }
  }

  /** A parsed page has the twelve shelters in configuration order, each with
      one entry per header date in header order; records were only appended. */
  lemma ParsedPageShape(table: BookingTable)
    requires HeadersAreDates(Some(table))
    ensures var dates := DatesFromTableHeaders(table);
      ParsedPage(Some(table)).Success? ==>
        var shelters := ParsedPage(Some(table)).value;
        Names(shelters) == SHELTER_NAMES
        && OnlySleepingsExtended(SheltersWithoutAvailability(dates), shelters)
        && forall g :: 0 <= g < |shelters| ==> Dates(shelters[g].availability) == HeaderDates(dates)
  {
    var dates := DatesFromTableHeaders(table);
    var skeleton := SheltersWithoutAvailability(dates);
    ParseRowsExtends(skeleton, dates, table.rows);
    if ParsedPage(Some(table)).Success? {
      var shelters := ParsedPage(Some(table)).value;
      assert Names(shelters) == Names(skeleton) by {
        assert forall g :: 0 <= g < |skeleton| ==> shelters[g].name == skeleton[g].name;
      }
    }
  }

  /** Rows past the twelfth shelter's three rows are ignored. */
  lemma RowsPastLastShelterIgnored(shelters: seq<Shelter>, dates: seq<string>, rows: seq<seq<Option<string>>>)
    requires AllDateStrings(dates)
    requires Names(shelters) == SHELTER_NAMES
    requires |rows| >= ROWS_PER_SHELTER * |SHELTER_NAMES|
    ensures ParseRows(shelters, dates, rows) == ParseRows(shelters, dates, rows[..ROWS_PER_SHELTER * |SHELTER_NAMES|])
  {
    RowsIgnoredUpTo(shelters, dates, rows, |rows|);
    assert rows[..|rows|] == rows;
  }

  /** The first i rows parse like the first thirty-six, for any i from 36 on. */
  lemma {:induction false} RowsIgnoredUpTo(shelters: seq<Shelter>, dates: seq<string>, rows: seq<seq<Option<string>>>,
                                           i: nat)
    requires AllDateStrings(dates)
    requires Names(shelters) == SHELTER_NAMES
    requires ROWS_PER_SHELTER * |SHELTER_NAMES| <= i <= |rows|
    ensures ParseRows(shelters, dates, rows[..i]) == ParseRows(shelters, dates, rows[..ROWS_PER_SHELTER * |SHELTER_NAMES|])
  {
    if i > ROWS_PER_SHELTER * |SHELTER_NAMES| {
      RowsIgnoredUpTo(shelters, dates, rows, i - 1);
      RowPastLastIgnored(shelters, dates, rows, i - 1);
    }
  }

  /** A row past the thirty-sixth leaves the page as it was. */
  lemma RowPastLastIgnored(shelters: seq<Shelter>, dates: seq<string>, rows: seq<seq<Option<string>>>, n: nat)
    requires AllDateStrings(dates)
    requires Names(shelters) == SHELTER_NAMES
    requires ROWS_PER_SHELTER * |SHELTER_NAMES| <= n < |rows|
    ensures ParseRows(shelters, dates, rows[..n + 1]) == ParseRows(shelters, dates, rows[..n])
  {
    ParseRowsStep(shelters, dates, rows, n);
    var prefix := ParseRows(shelters, dates, rows[..n]);
    if prefix.Success? {
      ParsedNames(shelters, dates, rows[..n]);
      ApplyRowFrame(prefix.value, dates, rows[n], n);
    }
  }

  /** The page loop keeps the configured names. */
  lemma ParsedNames(shelters: seq<Shelter>, dates: seq<string>, rows: seq<seq<Option<string>>>)
    requires AllDateStrings(dates)
    requires Names(shelters) == SHELTER_NAMES
    requires ParseRows(shelters, dates, rows).Success?
    ensures Names(ParseRows(shelters, dates, rows).value) == SHELTER_NAMES
  {
    var after := ParseRows(shelters, dates, rows).value;
    ParseRowsExtends(shelters, dates, rows);
    assert forall g :: 0 <= g < |shelters| ==> after[g].name == shelters[g].name;
  }

  /** A row decodes too many records when it has more recognised cells than
      there are header dates. */
  predicate Overlong(dates: seq<string>, row: seq<Option<string>>, i: nat) {
    |ShelterSleepingsFromTableRow(row, i)| > |dates|
  }

  /** On shelters that still carry one entry per header date, a row fails
      exactly when it belongs to a configured shelter and is overlong. */
  lemma ApplyRowFailsIff(shelters: seq<Shelter>, dates: seq<string>, row: seq<Option<string>>, i: nat)
    requires AllDateStrings(dates)
    requires Names(shelters) == SHELTER_NAMES
    requires forall g :: 0 <= g < |shelters| ==> Dates(shelters[g].availability) == HeaderDates(dates)
    ensures ApplyRow(shelters, dates, row, i).Failure?
            <==> i / ROWS_PER_SHELTER < |SHELTER_NAMES| && Overlong(dates, row, i)
  {
    var g := i / ROWS_PER_SHELTER;
    if g < |SHELTER_NAMES| {
      ConfigurationWellFormed();
      assert shelters[g].name == SHELTER_NAMES[g];
      assert FindByName(shelters, SHELTER_NAMES[g]) == g;
      var availability := shelters[g].availability;
      var records := ShelterSleepingsFromTableRow(row, i);
      AssignRecordsOutcome(availability, dates, records);
      forall l | 0 <= l < |dates| ensures Routable(availability, dates, l) {
        assert Dates(availability)[l] == HeaderDates(dates)[l] == DateFromInputString(dates[l]);
      }
      if Overlong(dates, row, i) {
        assert !Routable(availability, dates, |dates|);
      }
    } else {
      ApplyRowFrame(shelters, dates, row, i);
    }
  }

  /** Some row of a configured shelter is overlong. */
  predicate SomeRowOverlong(dates: seq<string>, rows: seq<seq<Option<string>>>) {
    OverlongBefore(dates, rows, |rows|)
  }

  /** One of the first n rows is an overlong row of a configured shelter. */
  predicate OverlongBefore(dates: seq<string>, rows: seq<seq<Option<string>>>, n: nat)
    requires n <= |rows|
  {
    exists i :: 0 <= i < n && i / ROWS_PER_SHELTER < |SHELTER_NAMES| && Overlong(dates, rows[i], i)
  }

  /** Starting from the skeleton, the page loop fails exactly when a row of a
      configured shelter decodes more records than there are header dates:
      every header date has its entry, so a record can only miss its header. */
  lemma ParseRowsFailsIff(dates: seq<string>, rows: seq<seq<Option<string>>>)
    requires AllDateStrings(dates)
    ensures ParseRows(SheltersWithoutAvailability(dates), dates, rows).Failure? <==> SomeRowOverlong(dates, rows)
  {
    FailsIffUpTo(dates, rows, |rows|);
    assert rows[..|rows|] == rows;
  }

  /** The first i rows fail exactly when one of them is an overlong row of a
      configured shelter. */
  lemma {:induction false} FailsIffUpTo(dates: seq<string>, rows: seq<seq<Option<string>>>, i: nat)
    requires AllDateStrings(dates)
    requires i <= |rows|
    ensures ParseRows(SheltersWithoutAvailability(dates), dates, rows[..i]).Failure? <==> OverlongBefore(dates, rows, i)
  {
    if i > 0 {
      FailsIffUpTo(dates, rows, i - 1);
      FailsIffStep(dates, rows, i - 1);
    }
  }

  /** One more row: the page fails on it exactly when the row is overlong and
      belongs to a configured shelter, or when it had failed already. */
  lemma FailsIffStep(dates: seq<string>, rows: seq<seq<Option<string>>>, n: nat)
    requires AllDateStrings(dates)
    requires n < |rows|
    requires ParseRows(SheltersWithoutAvailability(dates), dates, rows[..n]).Failure? <==> OverlongBefore(dates, rows, n)
    ensures ParseRows(SheltersWithoutAvailability(dates), dates, rows[..n + 1]).Failure? <==> OverlongBefore(dates, rows, n + 1)
  {
    var skeleton := SheltersWithoutAvailability(dates);
    ParseRowsStep(skeleton, dates, rows, n);
    var prefix := ParseRows(skeleton, dates, rows[..n]);
    if prefix.Failure? {
      OverlongBeforeGrows(dates, rows, n);
    } else {
      LastRowFailsIff(dates, rows[..n], prefix.value, rows[n], n);
      OverlongBeforeStep(dates, rows, n);
    }
  }

  lemma OverlongBeforeGrows(dates: seq<string>, rows: seq<seq<Option<string>>>, n: nat)
    requires n < |rows| && OverlongBefore(dates, rows, n)
    ensures OverlongBefore(dates, rows, n + 1)
  {
  }

  lemma OverlongBeforeStep(dates: seq<string>, rows: seq<seq<Option<string>>>, n: nat)
    requires n < |rows| && !OverlongBefore(dates, rows, n)
    ensures OverlongBefore(dates, rows, n + 1) <==> n / ROWS_PER_SHELTER < |SHELTER_NAMES| && Overlong(dates, rows[n], n)
  {
    if n / ROWS_PER_SHELTER < |SHELTER_NAMES| && Overlong(dates, rows[n], n) {
      assert OverlongBefore(dates, rows, n + 1);
    }
  }

  /** After any rows that parse, a further row fails exactly when it is an
      overlong row of a configured shelter. */
  lemma LastRowFailsIff(dates: seq<string>, rows: seq<seq<Option<string>>>, s: seq<Shelter>,
                        row: seq<Option<string>>, i: nat)
    requires AllDateStrings(dates)
    requires ParseRows(SheltersWithoutAvailability(dates), dates, rows) == Success(s)
    ensures ApplyRow(s, dates, row, i).Failure? <==> i / ROWS_PER_SHELTER < |SHELTER_NAMES| && Overlong(dates, row, i)
  {
    var skeleton := SheltersWithoutAvailability(dates);
    ParseRowsExtends(skeleton, dates, rows);
    ParsedNames(skeleton, dates, rows);
    ApplyRowFailsIff(s, dates, row, i);
  }
}
