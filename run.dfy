/** The run itself: every fetched page is parsed, the parsed tables are
    merged, and the merged table is searched for the watched dates. The pages
    arrive already fetched and reduced to their tables. */
module BookingRun {
  import opened BookingTypes
  import opened Config
  import opened TableParser
  import opened TableMerger
  import opened Matcher

  /** The exception that ends a run: thrown while parsing a page, or by the
      matcher's lookup of a watched shelter. */
  datatype RunError = ParseFailed(parseError: ParseError) | MatchFailed(matchError: MatchError)

  predicate AllHeadersAreDates(pages: seq<Option<BookingTable>>) {
    forall p :: 0 <= p < |pages| ==> HeadersAreDates(pages[p])
  }

  predicate AllPagesParse(pages: seq<Option<BookingTable>>)
    requires AllHeadersAreDates(pages)
  {
    forall p :: 0 <= p < |pages| ==> ParsedPage(pages[p]).Success?
  }

  /** The tables the pages parse to, page by page, when no page fails. */
  function ParsedTables(pages: seq<Option<BookingTable>>): (tables: seq<seq<Shelter>>)
    requires AllHeadersAreDates(pages) && AllPagesParse(pages)
    ensures |tables| == |pages|
    ensures forall p :: 0 <= p < |pages| ==> Success(tables[p]) == ParsedPage(pages[p])
  {
    seq(|pages|, p requires 0 <= p < |pages| => ParsedPage(pages[p]).value)
  }

  /** Every parsed page has the configured shelter names, so
      all watched shelters are found in the merged table, whatever the
      pages held, as long as there is at least one page. */
  lemma {:induction false} WatchedSheltersFound(pages: seq<Option<BookingTable>>)
    requires AllHeadersAreDates(pages) && AllPagesParse(pages) && |pages| >= 1
    ensures Names(Merged(Flatten(ParsedTables(pages)))) == SHELTER_NAMES
    ensures forall k :: 0 <= k < |MISSING_SHELTER_DATES| ==>
      MISSING_SHELTER_DATES[k].0 in Names(Merged(Flatten(ParsedTables(pages))))
  {
    var tables := ParsedTables(pages);
    forall p | 0 <= p < |tables| ensures Names(tables[p]) == SHELTER_NAMES {
      ParsedPageShape(pages[p].value);
    }
    ConfigurationWellFormed();
    MergedPagesNames(tables, SHELTER_NAMES);
  }

  /** `printBookingAvailability`: parse each page in order, stopping at the
      first page that fails; merge; then run the matcher on the watched pairs. */
  method PrintBookingAvailability(pages: seq<Option<BookingTable>>) returns (r: Result<MatchReport, RunError>)
    requires AllHeadersAreDates(pages)
    ensures (r.Failure? && r.error.ParseFailed?) <==> !AllPagesParse(pages)
    ensures r.Failure? && r.error.ParseFailed? ==>
      exists p :: 0 <= p < |pages| && ParsedPage(pages[p]) == Failure(r.error.parseError)
        && forall q :: 0 <= q < p ==> ParsedPage(pages[q]).Success?
    ensures AllPagesParse(pages) ==> (r.Success? <==> |pages| >= 1)
    ensures pages == [] ==> r == Failure(MatchFailed(ShelterNotFound(MISSING_SHELTER_DATES[0].0)))
    ensures r.Success? ==> AllPagesParse(pages)
    ensures r.Success? ==>
      var merged := Merged(Flatten(ParsedTables(pages)));
      r.value.availableShelters == AvailableTargets(merged, MISSING_SHELTER_DATES)
      && (r.value.hasShelterWithAvailability
          <==> exists k :: 0 <= k < |MISSING_SHELTER_DATES| && TargetAvailable(merged, MISSING_SHELTER_DATES[k]))
  {
    var bookingTables: seq<seq<Shelter>> := [];
    var p := 0;
    while p < |pages|
      invariant 0 <= p <= |pages|
      invariant forall q :: 0 <= q < p ==> ParsedPage(pages[q]).Success?
      invariant |bookingTables| == p
      invariant forall q :: 0 <= q < p ==> Success(bookingTables[q]) == ParsedPage(pages[q])
    {
      var parsed := ParseBookingPage(pages[p]);
      if parsed.Failure? {
        return Failure(ParseFailed(parsed.error));
      }
      bookingTables := bookingTables + [parsed.value];
      p := p + 1;
    }
    assert bookingTables == ParsedTables(pages);
    var merged := MergeBookingTables(bookingTables);
    if |pages| >= 1 {
      WatchedSheltersFound(pages);
    } else {
      assert merged == [];
    }
    var report := CheckMissingShelterDates(merged, MISSING_SHELTER_DATES);
    if report.Failure? {
      return Failure(MatchFailed(report.error));
    }
    return Success(report.value);
  }
}
