/** Table merger: the shelters parsed from each booking page are folded into
    one list keyed by name, the first shelter of each name taking the
    availability entries of the later ones. */
module TableMerger {
  import opened BookingTypes

  /** Every page's shelters, page after page, in the order the nested loops visit them. */
  function Flatten(tables: seq<seq<Shelter>>): seq<Shelter> {
    if tables == [] then [] else Flatten(tables[..|tables| - 1]) + tables[|tables| - 1]
  }

  /** One visit of the inner loop: append to the first shelter of that name,
      or add the shelter when its name is new. */
  function MergeShelter(merged: seq<Shelter>, shelter: Shelter): seq<Shelter> {
    var j := FindByName(merged, shelter.name);
    if j < |merged| then merged[j := merged[j].(availability := merged[j].availability + shelter.availability)]
    else merged + [shelter]
  }

  /** The fold that `mergeBookingTables` performs over the visited shelters. */
  function Merged(flat: seq<Shelter>): seq<Shelter> {
    if flat == [] then [] else MergeShelter(Merged(flat[..|flat| - 1]), flat[|flat| - 1])
  }

  /** `mergeBookingTables`, returning a fresh list instead of pushing into the
      first table's shelters. */
  method MergeBookingTables(tables: seq<seq<Shelter>>) returns (merged: seq<Shelter>)
    ensures merged == Merged(Flatten(tables))
  {
    merged := [];
    var t := 0;
    while t < |tables|
      invariant 0 <= t <= |tables|
      invariant merged == Merged(Flatten(tables[..t]))
    {
      FlattenStep(tables, t);
      merged := MergeBookingTable(merged, tables[t], Flatten(tables[..t]));
      t := t + 1;
    }
    assert tables[..t] == tables;
  }

  /** The inner loop of `mergeBookingTables`: the shelters of one page, visited
      in order, folded into the shelters merged so far. */
  method MergeBookingTable(merged: seq<Shelter>, bookingTable: seq<Shelter>, ghost visited: seq<Shelter>)
    returns (result: seq<Shelter>)
    requires merged == Merged(visited)
    ensures result == Merged(visited + bookingTable)
  {
    result := merged;
    var k := 0;
    assert visited + bookingTable[..0] == visited;
    while k < |bookingTable|
      invariant 0 <= k <= |bookingTable|
      invariant result == Merged(visited + bookingTable[..k])
    {
      var shelter := bookingTable[k];
      MergedStep(visited, bookingTable, k);
      var j := FindByName(result, shelter.name);
      if j < |result| {
        result := result[j := result[j].(availability := result[j].availability + shelter.availability)];
      } else {
        result := result + [shelter];
      }
      k := k + 1;
    }
    assert bookingTable[..k] == bookingTable;
  }

  lemma FlattenStep(tables: seq<seq<Shelter>>, t: nat)
    requires t < |tables|
    ensures Flatten(tables[..t + 1]) == Flatten(tables[..t]) + tables[t]
  {
    assert tables[..t + 1][..t] == tables[..t];
  }

  lemma MergedStep(visited: seq<Shelter>, bookingTable: seq<Shelter>, k: nat)
    requires k < |bookingTable|
    ensures Merged(visited + bookingTable[..k + 1]) == MergeShelter(Merged(visited + bookingTable[..k]), bookingTable[k])
  {
    var flat := visited + bookingTable[..k + 1];
    assert flat[..|flat| - 1] == visited + bookingTable[..k];
  }

  /** The names in the order they first appear, each once. */
  function FirstAppearances(names: seq<string>): (unique: seq<string>)
    ensures Distinct(unique)
    ensures forall x :: x in unique <==> x in names
  {
    if names == [] then []
    else
      var earlier := FirstAppearances(names[..|names| - 1]);
      assert forall x :: x in names <==> x in names[..|names| - 1] || x == names[|names| - 1];
      if names[|names| - 1] in earlier then earlier else earlier + [names[|names| - 1]]
  }

  /** The position of the first occurrence of `x` in `names`, or `|names|`. */
  function FirstIndexOf(names: seq<string>, x: string): (i: nat)
    ensures i <= |names|
    ensures i < |names| <==> x in names
    ensures i < |names| ==> names[i] == x
    ensures forall k :: 0 <= k < i ==> names[k] != x
  {
    if names == [] then 0 else if names[0] == x then 0 else 1 + FirstIndexOf(names[1..], x)
  }

  /** A name that occurs among the first n names is first found there. */
  lemma FirstIndexOfPrefix(names: seq<string>, n: nat, x: string)
    requires n <= |names| && x in names[..n]
    ensures FirstIndexOf(names, x) == FirstIndexOf(names[..n], x) < n
  {
    var i := FirstIndexOf(names[..n], x);
    assert names[i] == x;
  }

  /** A last name not seen before is first found at the end. */
  lemma FirstIndexOfNew(names: seq<string>)
    requires names != [] && names[|names| - 1] !in names[..|names| - 1]
    ensures FirstIndexOf(names, names[|names| - 1]) == |names| - 1
  {
  }

  /** The unique names come in the order of their first occurrence in the input. */
  lemma {:induction false} FirstAppearancesInOrder(names: seq<string>)
    ensures forall a, b :: 0 <= a < b < |FirstAppearances(names)| ==>
      FirstIndexOf(names, FirstAppearances(names)[a]) < FirstIndexOf(names, FirstAppearances(names)[b])
  {
    if names != [] {
      var prefix := names[..|names| - 1];
      FirstAppearancesInOrder(prefix);
      forall a, b | 0 <= a < b < |FirstAppearances(names)|
        ensures FirstIndexOf(names, FirstAppearances(names)[a]) < FirstIndexOf(names, FirstAppearances(names)[b])
      {
        FirstAppearancesOrderStep(names, prefix, a, b);
      }
    }
  }

  /** One more name keeps the order: earlier unique names were first seen in
      the prefix, and a new last name is first seen at the end. */
  lemma FirstAppearancesOrderStep(names: seq<string>, prefix: seq<string>, a: nat, b: nat)
    requires names != [] && prefix == names[..|names| - 1]
    requires forall a, b :: 0 <= a < b < |FirstAppearances(prefix)| ==>
      FirstIndexOf(prefix, FirstAppearances(prefix)[a]) < FirstIndexOf(prefix, FirstAppearances(prefix)[b])
    requires a < b < |FirstAppearances(names)|
    ensures FirstIndexOf(names, FirstAppearances(names)[a]) < FirstIndexOf(names, FirstAppearances(names)[b])
  {
    var n := |names|;
    var earlier := FirstAppearances(prefix);
    var unique := FirstAppearances(names);
    assert unique[a] == earlier[a];
    FirstIndexOfPrefix(names, n - 1, earlier[a]);
    if b < |earlier| {
      assert unique[b] == earlier[b];
      FirstIndexOfPrefix(names, n - 1, earlier[b]);
      assert FirstIndexOf(prefix, earlier[a]) < FirstIndexOf(prefix, earlier[b]);
    } else {
      assert unique[b] == names[n - 1];
      FirstIndexOfNew(names);
    }
  }

  /** The availability lists of every shelter with that name, concatenated in visiting order. */
  function AvailabilityOf(flat: seq<Shelter>, name: string): seq<ShelterAvailability> {
    if flat == [] then []
    else
      AvailabilityOf(flat[..|flat| - 1], name)
      + (if flat[|flat| - 1].name == name then flat[|flat| - 1].availability else [])
  }

  lemma NamesAppend(a: seq<Shelter>, b: seq<Shelter>)
    ensures Names(a + b) == Names(a) + Names(b)
  {
  }

  /** One merge step adds the shelter's name exactly when it is new. */
  lemma MergeShelterNames(merged: seq<Shelter>, shelter: Shelter)
    ensures Names(MergeShelter(merged, shelter))
            == if shelter.name in Names(merged) then Names(merged) else Names(merged) + [shelter.name]
  {
    var j := FindByName(merged, shelter.name);
    if j < |merged| {
      var after := MergeShelter(merged, shelter);
      assert forall i :: 0 <= i < |after| ==> after[i].name == merged[i].name;
    } else {
      NamesAppend(merged, [shelter]);
    }
  }

  /** The merged names are the input names in order of first appearance: each
      name once, first seen first. */
  lemma {:induction false} MergedNames(flat: seq<Shelter>)
    ensures Names(Merged(flat)) == FirstAppearances(Names(flat))
  {
    if flat != [] {
      var n := |flat|;
      var prefix := flat[..n - 1];
      MergedNames(prefix);
      assert Names(flat)[..n - 1] == Names(prefix);
      MergeShelterNames(Merged(prefix), flat[n - 1]);
    }
  }

  lemma {:induction false} AvailabilityOfAbsent(flat: seq<Shelter>, name: string)
    requires name !in Names(flat)
    ensures AvailabilityOf(flat, name) == []
  {
    if flat != [] {
      assert Names(flat[..|flat| - 1]) == Names(flat)[..|flat| - 1];
      AvailabilityOfAbsent(flat[..|flat| - 1], name);
    }
  }

  /** Each merged shelter carries the availability lists of every input
      shelter of its name, concatenated in input order. */
  lemma {:induction false} MergedAvailability(flat: seq<Shelter>)
    ensures forall j :: 0 <= j < |Merged(flat)| ==>
      Merged(flat)[j].availability == AvailabilityOf(flat, Merged(flat)[j].name)
  {
    if flat != [] {
      var n := |flat|;
      var prefix := flat[..n - 1];
      var shelter := flat[n - 1];
      MergedAvailability(prefix);
      MergedNames(prefix);
      var m := Merged(prefix);
      var after := Merged(flat);
      var t := FindByName(m, shelter.name);
      forall j | 0 <= j < |after| ensures after[j].availability == AvailabilityOf(flat, after[j].name) {
        if t < |m| {
          if j == t {
            assert after[j].availability == m[t].availability + shelter.availability;
          } else {
            assert after[j] == m[j];
            assert Names(m)[j] != Names(m)[t];
          }
        } else if j < |m| {
          assert after[j] == m[j];
          assert m[j].name in Names(m);
        } else {
          assert shelter.name !in Names(prefix) by {
            assert shelter.name !in Names(m);
          }
          AvailabilityOfAbsent(prefix, shelter.name);
          assert AvailabilityOf(flat, shelter.name) == [] + shelter.availability;
        }
      }
    }
  }

  /** Merging one page whose shelter names are distinct gives it back unchanged. */
  lemma {:induction false} MergeSingleTable(table: seq<Shelter>)
    requires Distinct(Names(table))
    ensures Merged(Flatten([table])) == table
  {
    assert Flatten([table]) == table by {
      assert [table][..0] == [];
    }
    MergedOfDistinct(table);
  }

  lemma {:induction false} MergedOfDistinct(table: seq<Shelter>)
    requires Distinct(Names(table))
    ensures Merged(table) == table
  {
    if table != [] {
      var n := |table|;
      var prefix := table[..n - 1];
      var last := table[n - 1];
      assert Distinct(Names(prefix)) by {
        assert Names(prefix) == Names(table)[..n - 1];
      }
      MergedOfDistinct(prefix);
      assert last.name !in Names(prefix) by {
        forall i | 0 <= i < n - 1 ensures Names(prefix)[i] != last.name {
          assert Names(table)[i] != Names(table)[n - 1];
        }
      }
      assert prefix + [last] == table;
    }
  }

  /** Names already seen add nothing to the first appearances. */
  lemma {:induction false} FirstAppearancesOfSeen(names: seq<string>, more: seq<string>)
    requires forall x :: x in more ==> x in names
    ensures FirstAppearances(names + more) == FirstAppearances(names)
  {
    if more != [] {
      var m := |more|;
      assert (names + more)[..|names + more| - 1] == names + more[..m - 1];
      FirstAppearancesOfSeen(names, more[..m - 1]);
    } else {
      assert names + more == names;
    }
  }

  lemma {:induction false} FirstAppearancesOfDistinct(names: seq<string>)
    requires Distinct(names)
    ensures FirstAppearances(names) == names
  {
    if names != [] {
      var n := |names|;
      FirstAppearancesOfDistinct(names[..n - 1]);
      assert names[n - 1] !in names[..n - 1];
      assert names[..n - 1] + [names[n - 1]] == names;
    }
  }

  /** When every page lists the same distinct names, the merged list has
      exactly those names, in the same order. */
  lemma {:induction false} MergedPagesNames(tables: seq<seq<Shelter>>, names: seq<string>)
    requires |tables| >= 1 && Distinct(names)
    requires forall p :: 0 <= p < |tables| ==> Names(tables[p]) == names
    ensures Names(Merged(Flatten(tables))) == names
  {
    FlattenedNames(tables, names);
    MergedNames(Flatten(tables));
  }

  lemma {:induction false} FlattenedNames(tables: seq<seq<Shelter>>, names: seq<string>)
    requires |tables| >= 1 && Distinct(names)
    requires forall p :: 0 <= p < |tables| ==> Names(tables[p]) == names
    ensures FirstAppearances(Names(Flatten(tables))) == names
  {
    var n := |tables|;
    var prefix := tables[..n - 1];
    NamesAppend(Flatten(prefix), tables[n - 1]);
    if n == 1 {
      assert Flatten(prefix) == [];
      assert Names(Flatten(tables)) == names;
      FirstAppearancesOfDistinct(names);
    } else {
      FlattenedNames(prefix, names);
      FirstAppearancesOfSeen(Names(Flatten(prefix)), names);
    }
  }

  lemma {:induction false} AvailabilityOfAppend(a: seq<Shelter>, b: seq<Shelter>, name: string)
    ensures AvailabilityOf(a + b, name) == AvailabilityOf(a, name) + AvailabilityOf(b, name)
  {
    if b != [] {
      var m := |b|;
      assert (a + b)[..|a + b| - 1] == a + b[..m - 1];
      AvailabilityOfAppend(a, b[..m - 1], name);
    } else {
      assert a + b == a;
    }
  }

  lemma {:induction false} AvailabilityOfDistinct(table: seq<Shelter>, j: nat)
    requires Distinct(Names(table)) && j < |table|
    ensures AvailabilityOf(table, table[j].name) == table[j].availability
  {
    var n := |table|;
    var prefix := table[..n - 1];
    assert Names(prefix) == Names(table)[..n - 1];
    if j == n - 1 {
      assert table[j].name !in Names(prefix);
      AvailabilityOfAbsent(prefix, table[j].name);
    } else {
      assert Names(table)[j] != Names(table)[n - 1];
      AvailabilityOfDistinct(prefix, j);
    }
  }

  /** Two pages listing the same distinct shelters, for disjoint periods say,
      merge into those shelters with the first page's entries followed by the
      second's. */
  lemma MergeTwoPages(first: seq<Shelter>, second: seq<Shelter>)
    requires Names(first) == Names(second) && Distinct(Names(first))
    ensures var merged := Merged(Flatten([first, second]));
      Names(merged) == Names(first)
      && forall j :: 0 <= j < |merged| ==>
           merged[j].availability == first[j].availability + second[j].availability
  {
    var tables := [first, second];
    assert Flatten(tables) == first + second by {
      assert tables[..1] == [first];
      assert Flatten(tables[..1]) == first by {
        assert tables[..1][..0] == [];
      }
    }
    MergedPagesNames(tables, Names(first));
    MergedAvailability(first + second);
    var merged := Merged(first + second);
    forall j | 0 <= j < |merged|
      ensures merged[j].availability == first[j].availability + second[j].availability
    {
      assert merged[j].name == first[j].name == second[j].name by {
        assert Names(merged)[j] == Names(first)[j] == Names(second)[j];
      }
      AvailabilityOfAppend(first, second, merged[j].name);
      AvailabilityOfDistinct(first, j);
      AvailabilityOfDistinct(second, j);
    }
  }
}
