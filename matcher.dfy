/** Availability matcher: for each watched (shelter, date) pair, look the
    shelter up by name and the date up in its entries, and report whether any
    sleeping mode that day has a tier other than "no availability". */
module Matcher {
  import opened BookingTypes

  /** Looking a watched shelter up by name found nothing, so the program's
      `shelter.availability` read throws. */
  datatype MatchError = ShelterNotFound(name: string)

  /** What the matcher logs: the watched shelters found available, in the
      order they were checked, and the final flag behind the summary line. */
  datatype MatchReport = MatchReport(availableShelters: seq<string>, hasShelterWithAvailability: bool)

  /** Some record of the entry has a tier other than "no availability". */
  predicate SomeSleepingAvailable(sleepings: seq<ShelterSleeping>) {
    exists i :: 0 <= i < |sleepings| && sleepings[i].availability != NoAvailability
  }

  /** The shelter's first entry for the date has a record with some
      availability; a date without an entry counts as unavailable. */
  predicate IsShelterAvailable(shelter: Shelter, date: CalendarDate) {
    var e := FindByDate(shelter.availability, date);
    e < |shelter.availability| && SomeSleepingAvailable(shelter.availability[e].sleepings)
  }

  /** The first shelter of the watched name is available on the watched date. */
  predicate TargetAvailable(shelters: seq<Shelter>, target: (string, CalendarDate)) {
    var j := FindByName(shelters, target.0);
    j < |shelters| && IsShelterAvailable(shelters[j], target.1)
  }

  /** The watched shelters reported available, in checking order. */
  function AvailableTargets(shelters: seq<Shelter>, targets: seq<(string, CalendarDate)>): seq<string> {
    if targets == [] then []
    else
      var last := targets[|targets| - 1];
      AvailableTargets(shelters, targets[..|targets| - 1]) + (if TargetAvailable(shelters, last) then [last.0] else [])
  }

  /** The position of the first watched pair whose shelter is missing, or
      `|targets|` when every watched shelter is present. */
  function FirstMissing(shelters: seq<Shelter>, targets: seq<(string, CalendarDate)>): (k: nat)
    ensures k <= |targets|
    ensures forall l :: 0 <= l < k ==> targets[l].0 in Names(shelters)
    ensures k < |targets| ==> targets[k].0 !in Names(shelters)
  {
    if targets == [] then 0
    else if targets[0].0 !in Names(shelters) then 0
    else 1 + FirstMissing(shelters, targets[1..])
  }

  /** The decision logic of `printAvailableDateBasedOnMissingShelterDates`,
      with the watched pairs passed in and the console lines left out. */
  method CheckMissingShelterDates(shelters: seq<Shelter>, targets: seq<(string, CalendarDate)>)
    returns (r: Result<MatchReport, MatchError>)
    ensures r.Failure? <==> FirstMissing(shelters, targets) < |targets|
    ensures r.Failure? ==> r.error == ShelterNotFound(targets[FirstMissing(shelters, targets)].0)
    ensures r.Success? ==> r.value.availableShelters == AvailableTargets(shelters, targets)
    ensures r.Success? ==>
      (r.value.hasShelterWithAvailability <==> exists k :: 0 <= k < |targets| && TargetAvailable(shelters, targets[k]))
  {
    var hasShelterWithAvailability := false;
    var availableShelters: seq<string> := [];
    var k := 0;
    while k < |targets|
      invariant 0 <= k <= |targets|
      invariant k <= FirstMissing(shelters, targets)
      invariant availableShelters == AvailableTargets(shelters, targets[..k])
      invariant hasShelterWithAvailability <==> availableShelters != []
    {
      var shelterName, missingDate := targets[k].0, targets[k].1;
      var j := FindByName(shelters, shelterName);
      if j == |shelters| {
        return Failure(ShelterNotFound(shelterName));
      }
      assert FirstMissing(shelters, targets) != k by {
        assert shelterName in Names(shelters);
      }
      var shelter := shelters[j];
      var e := FindByDate(shelter.availability, missingDate);
      var isShelterAvailable := e < |shelter.availability| && SomeSleepingAvailable(shelter.availability[e].sleepings);
      AvailableTargetsStep(shelters, targets, k);
      if isShelterAvailable {
        hasShelterWithAvailability := true;
        availableShelters := availableShelters + [shelterName];
      }
      k := k + 1;
    }
    assert targets[..k] == targets;
    FlagMatchesReport(shelters, targets);
    return Success(MatchReport(availableShelters, hasShelterWithAvailability));
  }

  /** One step of the matcher's loop, with the two lookups it performs. */
  lemma AvailableTargetsStep(shelters: seq<Shelter>, targets: seq<(string, CalendarDate)>, k: nat)
    requires k < |targets| && FindByName(shelters, targets[k].0) < |shelters|
    ensures var shelter := shelters[FindByName(shelters, targets[k].0)];
      var e := FindByDate(shelter.availability, targets[k].1);
      AvailableTargets(shelters, targets[..k + 1])
      == AvailableTargets(shelters, targets[..k])
         + (if e < |shelter.availability| && SomeSleepingAvailable(shelter.availability[e].sleepings)
            then [targets[k].0] else [])
  {
    assert targets[..k + 1][..k] == targets[..k];
  }

  /** A watched date outside every fetched period has no entry, and counts as
      unavailable rather than as an error. */
  lemma MissingDateIsUnavailable(shelters: seq<Shelter>, target: (string, CalendarDate))
    requires target.0 in Names(shelters)
    requires target.1 !in Dates(shelters[FindByName(shelters, target.0)].availability)
    ensures !TargetAvailable(shelters, target)
  {
  }

  /** The flag is raised exactly when at least one shelter was reported available. */
  lemma {:induction false} FlagMatchesReport(shelters: seq<Shelter>, targets: seq<(string, CalendarDate)>)
    ensures AvailableTargets(shelters, targets) != []
            <==> exists k :: 0 <= k < |targets| && TargetAvailable(shelters, targets[k])
  {
    if targets != [] {
      var n := |targets|;
      FlagMatchesReport(shelters, targets[..n - 1]);
      if AvailableTargets(shelters, targets[..n - 1]) != [] {
        var k :| 0 <= k < n - 1 && TargetAvailable(shelters, targets[..n - 1][k]);
        assert targets[k] == targets[..n - 1][k];
      }
      if exists k :: 0 <= k < n && TargetAvailable(shelters, targets[k]) {
        var k :| 0 <= k < n && TargetAvailable(shelters, targets[k]);
        if k < n - 1 {
          assert targets[..n - 1][k] == targets[k];
        }
      }
    }
  }
}
