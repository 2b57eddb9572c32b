/** The value types the booking checker works on, and the two lookups
    (`find` by shelter name, `find` by date) that every stage uses. */
module BookingTypes {

  datatype Option<+T> = None | Some(value: T)

  datatype Result<+R, +E> = Success(value: R) | Failure(error: E)

  /** The three sleeping modes a shelter offers, in the order its table rows list them. */
  datatype SleepingType = Bivouac | RentTent | RentRoom

  /** The availability tier a table cell's colour stands for. */
  datatype SleepingAvailability = MoreThan5 | LessThan5 | NoAvailability

  datatype ShelterSleeping = ShelterSleeping(sleepingType: SleepingType, availability: SleepingAvailability)

  /** A JavaScript `Date` at UTC midnight, seen only through its calendar day;
      two dates are the same instant exactly when these three fields agree. */
  datatype CalendarDate = CalendarDate(year: int, month: int, day: int)

  datatype ShelterAvailability = ShelterAvailability(date: CalendarDate, sleepings: seq<ShelterSleeping>)

  datatype Shelter = Shelter(name: string, availability: seq<ShelterAvailability>)

  /** A query window sent to the booking site. */
  datatype Period = Period(startDate: CalendarDate, endDate: CalendarDate)

  predicate Distinct<T(==)>(s: seq<T>) {
    forall i, j :: 0 <= i < j < |s| ==> s[i] != s[j]
  }

  function Names(shelters: seq<Shelter>): (names: seq<string>)
    ensures |names| == |shelters|
    ensures forall i :: 0 <= i < |shelters| ==> names[i] == shelters[i].name
  {
    seq(|shelters|, i requires 0 <= i < |shelters| => shelters[i].name)
  }

  function Dates(availability: seq<ShelterAvailability>): (dates: seq<CalendarDate>)
    ensures |dates| == |availability|
    ensures forall k :: 0 <= k < |availability| ==> dates[k] == availability[k].date
  {
    seq(|availability|, k requires 0 <= k < |availability| => availability[k].date)
  }

  /** The first shelter with the given name, as an index: `|shelters|` when there is none. */
  function FindByName(shelters: seq<Shelter>, name: string): (j: nat)
    ensures j <= |shelters|
    ensures j < |shelters| ==> shelters[j].name == name
    ensures forall i :: 0 <= i < j ==> shelters[i].name != name
    ensures j == |shelters| <==> name !in Names(shelters)
  {
    if shelters == [] then 0
    else if shelters[0].name == name then 0
    else 1 + FindByName(shelters[1..], name)
  }

  /** The first entry whose date is the same instant as `date`, as an index: `|availability|` when there is none. */
  function FindByDate(availability: seq<ShelterAvailability>, date: CalendarDate): (j: nat)
    ensures j <= |availability|
    ensures j < |availability| ==> availability[j].date == date
    ensures forall i :: 0 <= i < j ==> availability[i].date != date
    ensures j == |availability| <==> date !in Dates(availability)
  {
    if availability == [] then 0
    else if availability[0].date == date then 0
    else 1 + FindByDate(availability[1..], date)
  }

  /** The number of sleeping records held by a shelter's availability list. */
  function RecordCount(availability: seq<ShelterAvailability>): nat {
    if availability == [] then 0
    else RecordCount(availability[..|availability| - 1]) + |availability[|availability| - 1].sleepings|
  }

  /** Appending one record to entry `j` adds exactly one to the record count. */
  lemma {:induction false} RecordCountAppend(availability: seq<ShelterAvailability>, j: nat, record: ShelterSleeping)
    requires j < |availability|
    ensures RecordCount(availability[j := availability[j].(sleepings := availability[j].sleepings + [record])])
            == RecordCount(availability) + 1
  {
    var updated := availability[j := availability[j].(sleepings := availability[j].sleepings + [record])];
    var n := |availability|;
    if j == n - 1 {
      assert updated[..n - 1] == availability[..n - 1];
    } else {
      assert updated[..n - 1] == availability[..n - 1][j := availability[j].(sleepings := availability[j].sleepings + [record])];
      RecordCountAppend(availability[..n - 1], j, record);
    }
  }
}
