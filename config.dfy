/** The run's fixed configuration: the twelve shelters of the route in table
    order, the query periods, and the (shelter, date) pairs being watched. */
module Config {
  import opened BookingTypes

  const SHELTER_NAMES: seq<string> := [
    "Site d'Ortu di u piobbu",
    "Refuge de Carozzu",
    "Refuge d'Ascu stagnu",
    "Refuge de Tighjettu",
    "Refuge de Ciottulu di i mori",
    "Refuge de Manganu",
    "Refuge de Petra piana",
    "Refuge de l'Onda",
    "Refuge de Prati",
    "Refuge de l'Usciolu",
    "Site d'Asinau",
    "Refuge de Paliri"
  ]

  const PERIODS: seq<Period> := [
    Period(CalendarDate(2025, 5, 31), CalendarDate(2025, 6, 6)),
    Period(CalendarDate(2025, 6, 7), CalendarDate(2025, 6, 13)),
    Period(CalendarDate(2025, 6, 14), CalendarDate(2025, 6, 20))
  ]

  /** The watched dates, in the key order the configuration object is iterated in. */
  const MISSING_SHELTER_DATES: seq<(string, CalendarDate)> := [
    ("Site d'Ortu di u piobbu", CalendarDate(2025, 5, 31)),
    ("Refuge de Carozzu", CalendarDate(2025, 6, 1)),
    ("Refuge de Manganu", CalendarDate(2025, 6, 5)),
    ("Refuge de l'Onda", CalendarDate(2025, 6, 7)),
    ("Refuge de Prati", CalendarDate(2025, 6, 10)),
    ("Refuge de l'Usciolu", CalendarDate(2025, 6, 11))
  ]

  /** Calendar order on dates. */
  predicate NotAfter(a: CalendarDate, b: CalendarDate) {
    a.year < b.year || (a.year == b.year && (a.month < b.month || (a.month == b.month && a.day <= b.day)))
  }

  predicate InPeriod(d: CalendarDate, period: Period) {
    NotAfter(period.startDate, d) && NotAfter(d, period.endDate)
  }

  /** The date is queried: it lies in one of the periods. */
  predicate Queried(d: CalendarDate) {
    exists p :: 0 <= p < |PERIODS| && InPeriod(d, PERIODS[p])
  }

  /** The shelter names form a closed set of twelve distinct names, every
      watched shelter is one of them, each watched once, and every watched
      date lies in one of the query periods. */
  lemma ConfigurationWellFormed()
    ensures |SHELTER_NAMES| == 12 && Distinct(SHELTER_NAMES)
    ensures forall k :: 0 <= k < |MISSING_SHELTER_DATES| ==> MISSING_SHELTER_DATES[k].0 in SHELTER_NAMES
    ensures forall i, j :: 0 <= i < j < |MISSING_SHELTER_DATES| ==> MISSING_SHELTER_DATES[i].0 != MISSING_SHELTER_DATES[j].0
    ensures forall k :: 0 <= k < |MISSING_SHELTER_DATES| ==> Queried(MISSING_SHELTER_DATES[k].1)
  {
    forall k | 0 <= k < |MISSING_SHELTER_DATES| ensures Queried(MISSING_SHELTER_DATES[k].1) {
      var p := if k < 3 then 0 else 1;
      assert InPeriod(MISSING_SHELTER_DATES[k].1, PERIODS[p]);
    }
  }
}
