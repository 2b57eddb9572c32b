/** Positional decoding of one body row of the availability table: the row's
    index fixes the sleeping type, each cell's `style` attribute fixes an
    availability tier, and cells whose style is not one of the three known
    colours are dropped before the records are paired with dates. */
module RowDecoder {
  import opened BookingTypes

  /** Rows come in runs of three per shelter: bivouac, rented tent, rented room. */
  const ROWS_PER_SHELTER: nat := 3

  const STYLE_MORE_THAN_5: string := "color:green"
  const STYLE_LESS_THAN_5: string := "color:orange"
  const STYLE_NO_AVAILABILITY: string := "color:darkred"

  /** `getShelterSleepingTypeFromRowIndex`. */
  function SleepingTypeFromRowIndex(index: nat): (t: SleepingType)
    ensures t == Bivouac <==> index % ROWS_PER_SHELTER == 0
    ensures t == RentTent <==> index % ROWS_PER_SHELTER == 1
    ensures t == RentRoom <==> index % ROWS_PER_SHELTER == 2
  {
    if index % ROWS_PER_SHELTER == 0 then Bivouac
    else if index % ROWS_PER_SHELTER == 1 then RentTent
    else RentRoom
  }

  /** The style-to-tier table looked up by `getShelterSleepingFromTableCell`. */
  function AvailabilityFromStyle(style: string): (a: Option<SleepingAvailability>)
    ensures a == Some(MoreThan5) <==> style == STYLE_MORE_THAN_5
    ensures a == Some(LessThan5) <==> style == STYLE_LESS_THAN_5
    ensures a == Some(NoAvailability) <==> style == STYLE_NO_AVAILABILITY
    ensures a.None? <==> style !in {STYLE_MORE_THAN_5, STYLE_LESS_THAN_5, STYLE_NO_AVAILABILITY}
  {
    if style == STYLE_MORE_THAN_5 then Some(MoreThan5)
    else if style == STYLE_LESS_THAN_5 then Some(LessThan5)
    else if style == STYLE_NO_AVAILABILITY then Some(NoAvailability)
    else None
  }

  /** A cell whose style names a tier; every other cell yields no record. */
  predicate IsRecognised(style: Option<string>) {
    style.Some? && AvailabilityFromStyle(style.value).Some?
  }

  /** `getShelterSleepingFromTableCell`, with the cell reduced to its optional
      `style` attribute. */
  function ShelterSleepingFromTableCell(style: Option<string>, sleepingType: SleepingType): (r: Option<ShelterSleeping>)
    ensures r.Some? <==> style.Some? && style.value in {STYLE_MORE_THAN_5, STYLE_LESS_THAN_5, STYLE_NO_AVAILABILITY}
    ensures r.Some? ==> r.value.sleepingType == sleepingType && style == Some(StyleOf(r.value.availability))
  {
    if style.None? then None
    else match AvailabilityFromStyle(style.value)
      case None => None
      case Some(availability) => Some(ShelterSleeping(sleepingType, availability))
  }

  /** The colour the booking site writes for each tier: the inverse of the table. */
  function StyleOf(availability: SleepingAvailability): (style: string)
    ensures AvailabilityFromStyle(style) == Some(availability)
  {
    match availability
    case MoreThan5 => STYLE_MORE_THAN_5
    case LessThan5 => STYLE_LESS_THAN_5
    case NoAvailability => STYLE_NO_AVAILABILITY
  }

  /** Every cell decoded, `None` where it yields no record. */
  function DecodeCells(cells: seq<Option<string>>, sleepingType: SleepingType): (decoded: seq<Option<ShelterSleeping>>)
    ensures |decoded| == |cells|
    ensures forall c :: 0 <= c < |cells| ==> decoded[c] == ShelterSleepingFromTableCell(cells[c], sleepingType)
  {
    seq(|cells|, c requires 0 <= c < |cells| => ShelterSleepingFromTableCell(cells[c], sleepingType))
  }

  /** The filter on truthiness: the values that are present, in order. */
  function Present<T>(options: seq<Option<T>>): (values: seq<T>)
    ensures |values| <= |options|
  {
    if options == [] then []
    else
      var earlier := Present(options[..|options| - 1]);
      match options[|options| - 1]
      case None => earlier
      case Some(v) => earlier + [v]
  }

  /** `getShelterSleepingsFromTableRow`: the records of one body row. */
  function ShelterSleepingsFromTableRow(cells: seq<Option<string>>, index: nat): (records: seq<ShelterSleeping>)
    ensures |records| <= |cells|
  {
    Present(DecodeCells(cells, SleepingTypeFromRowIndex(index)))
  }

  /** The columns, in increasing order, whose cells yield a record. This is an
      independent description of what survives the filter. */
  function RecognisedColumns(cells: seq<Option<string>>): (columns: seq<nat>)
    ensures |columns| <= |cells|
    ensures forall k :: 0 <= k < |columns| ==> columns[k] < |cells| && IsRecognised(cells[columns[k]])
    ensures forall k, l :: 0 <= k < l < |columns| ==> columns[k] < columns[l]
    ensures forall c :: 0 <= c < |cells| && IsRecognised(cells[c]) ==> c in columns
  {
    if cells == [] then []
    else
      var earlier := RecognisedColumns(cells[..|cells| - 1]);
      if IsRecognised(cells[|cells| - 1]) then earlier + [|cells| - 1] else earlier
  }

  /** A row decodes to exactly its recognised cells, in document order, each
      carrying the row's sleeping type and its own cell's tier. */
  lemma {:induction false} RowRecordsAreRecognisedCells(cells: seq<Option<string>>, index: nat)
    ensures var records, columns := ShelterSleepingsFromTableRow(cells, index), RecognisedColumns(cells);
      |records| == |columns|
      && forall k :: 0 <= k < |records| ==>
           records[k] == ShelterSleeping(SleepingTypeFromRowIndex(index), AvailabilityFromStyle(cells[columns[k]].value).value)
  {
    if cells != [] {
      var n := |cells|;
      var t := SleepingTypeFromRowIndex(index);
      assert DecodeCells(cells, t)[..n - 1] == DecodeCells(cells[..n - 1], t);
      RowRecordsAreRecognisedCells(cells[..n - 1], index);
    }
  }

  /** Every record of a row carries the sleeping type of the row's index. */
  lemma RowRecordsHaveRowType(cells: seq<Option<string>>, index: nat)
    ensures forall r :: r in ShelterSleepingsFromTableRow(cells, index) ==> r.sleepingType == SleepingTypeFromRowIndex(index)
  {
    RowRecordsAreRecognisedCells(cells, index);
  }

  lemma {:induction false} IncreasingGap(s: seq<nat>, j: nat, k: nat)
    requires forall a, b :: 0 <= a < b < |s| ==> s[a] < s[b]
    requires j <= k < |s|
    ensures s[k] - s[j] >= k - j
  {
    if j < k {
      IncreasingGap(s, j, k - 1);
    }
  }

  /** The k-th record comes from a column at or after k, and from a column
      strictly after k as soon as an earlier cell was dropped: since records are
      paired with header dates by position, a dropped cell moves every later
      record of the row onto an earlier date. */
  lemma RecognisedColumnsShift(cells: seq<Option<string>>, k: nat)
    requires k < |RecognisedColumns(cells)|
    ensures k <= RecognisedColumns(cells)[k]
    ensures (exists c :: 0 <= c < RecognisedColumns(cells)[k] && !IsRecognised(cells[c]))
            ==> k < RecognisedColumns(cells)[k]
  {
    var columns := RecognisedColumns(cells);
    IncreasingGap(columns, 0, k);
    if columns[k] == k {
      NoGapBelow(columns, k);
      forall c | 0 <= c < k ensures IsRecognised(cells[c]) {
        assert cells[c] == cells[columns[c]];
      }
    }
  }

  /** An increasing list of naturals whose k-th element is k starts 0, 1, ..., k. */
  lemma NoGapBelow(columns: seq<nat>, k: nat)
    requires forall a, b :: 0 <= a < b < |columns| ==> columns[a] < columns[b]
    requires k < |columns| && columns[k] == k
    ensures forall c :: 0 <= c < k ==> columns[c] == c
  {
    forall c | 0 <= c < k ensures columns[c] == c {
      IncreasingGap(columns, 0, c);
      IncreasingGap(columns, c, k);
    }
  }

  /** When no cell is dropped, record k comes from column k. */
  lemma {:induction false} AllRecognisedColumns(cells: seq<Option<string>>)
    requires forall c :: 0 <= c < |cells| ==> IsRecognised(cells[c])
    ensures RecognisedColumns(cells) == seq(|cells|, c => c)
  {
    if cells != [] {
      AllRecognisedColumns(cells[..|cells| - 1]);
    }
  }
}
