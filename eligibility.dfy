/** Which rows are absent and which may take over their periods. A row list is represented by
    the increasing sequence of its indices into the table, so that a change made through one list
    is seen through every other list that holds the same row. */
module Eligibility {
  import opened Text
  import opened Timetable

  /** How many leading rows are senior staff who never substitute. */
  const SENIOR_COUNT := 3

  /** excluded_seniors: the trimmed names of the first three rows (fewer when the table is
      shorter). */
  function SeniorNames(rows: seq<StaffRecord>): (names: seq<string>)
    ensures forall x :: x in names <==>
              exists k :: 0 <= k < |rows| && k < SENIOR_COUNT && TrimmedNames(rows)[k] == x
  {
    var t := TrimmedNames(rows);
    if |t| < SENIOR_COUNT then t else t[..SENIOR_COUNT]
  }

  /** The indices j < n with t[j] in absent, in increasing order. */
  function Selected(t: seq<string>, absent: seq<string>, n: nat): (r: seq<nat>)
    requires n <= |t|
    ensures Increasing(r)
    ensures forall j: nat :: j in r <==> j < n && t[j] in absent
  {
    if n == 0 then []
    else
      var prev := Selected(t, absent, n - 1);
      var r := prev + (if t[n - 1] in absent then [n - 1] else []);
      assert forall i :: 0 <= i < |prev| ==> prev[i] < n - 1 by {
        forall i | 0 <= i < |prev| ensures prev[i] < n - 1 {
          var x: nat := prev[i];
          assert x in prev;
        }
      }
      assert forall j: nat :: j in r <==> j in prev || (j == n - 1 && t[j] in absent);
      r
  }

  /** The indices j < n with t[j] in neither absent nor seniors, in increasing order. */
  function Unselected(t: seq<string>, absent: seq<string>, seniors: seq<string>, n: nat): (r: seq<nat>)
    requires n <= |t|
    ensures Increasing(r)
    ensures forall j: nat :: j in r <==> j < n && t[j] !in absent && t[j] !in seniors
  {
    if n == 0 then []
    else
      var prev := Unselected(t, absent, seniors, n - 1);
      var keep := t[n - 1] !in absent && t[n - 1] !in seniors;
      var r := prev + (if keep then [n - 1] else []);
      assert forall i :: 0 <= i < |prev| ==> prev[i] < n - 1 by {
        forall i | 0 <= i < |prev| ensures prev[i] < n - 1 {
          var x: nat := prev[i];
          assert x in prev;
        }
      }
      assert forall j: nat :: j in r <==> j in prev || (j == n - 1 && keep);
      r
  }

  /** absent_teachers: the rows whose trimmed name was selected as absent, in row order. */
  function AbsentRows(rows: seq<StaffRecord>, absent: seq<string>): (r: seq<nat>)
    ensures Increasing(r)
    ensures forall j: nat :: j in r <==> j < |rows| && TrimmedNames(rows)[j] in absent
  {
    Selected(TrimmedNames(rows), absent, |rows|)
  }

  /** available_teachers: the rows whose trimmed name is neither absent nor the trimmed name of
      one of the first three rows, in row order. */
  function EligibleRows(rows: seq<StaffRecord>, absent: seq<string>): (r: seq<nat>)
    ensures Increasing(r)
    ensures forall j: nat :: j in r <==>
              j < |rows| && TrimmedNames(rows)[j] !in absent && TrimmedNames(rows)[j] !in SeniorNames(rows)
  {
    Unselected(TrimmedNames(rows), absent, SeniorNames(rows), |rows|)
  }

  /** A row is absent exactly when its trimmed name was selected. */
  lemma AbsentRowsAre(rows: seq<StaffRecord>, absent: seq<string>, j: nat)
    ensures j in AbsentRows(rows, absent) <==> j < |rows| && Trim(rows[j].name) in absent
  {
  }

  /** A row is eligible exactly when its trimmed name is not absent and differs from the trimmed
      name of each of the first three rows; so a later row that shares a senior's name is not
      eligible either. */
  lemma EligibleRowsAre(rows: seq<StaffRecord>, absent: seq<string>, j: nat)
    ensures j in EligibleRows(rows, absent) <==>
              && j < |rows| && Trim(rows[j].name) !in absent
              && forall k :: 0 <= k < |rows| && k < SENIOR_COUNT ==> Trim(rows[k].name) != Trim(rows[j].name)
  {
    var t := TrimmedNames(rows);
    if j < |rows| {
      if t[j] in SeniorNames(rows) {
        var k :| 0 <= k < |rows| && k < SENIOR_COUNT && t[k] == t[j];
        assert Trim(rows[k].name) == Trim(rows[j].name);
      } else {
        forall k | 0 <= k < |rows| && k < SENIOR_COUNT
          ensures Trim(rows[k].name) != Trim(rows[j].name)
        {
          assert t[k] in SeniorNames(rows);
        }
      }
    }
  }

  /** No row is both absent and eligible, and none of the first three rows is eligible. */
  lemma EligibleNotAbsentNorSenior(rows: seq<StaffRecord>, absent: seq<string>, j: nat)
    requires j in EligibleRows(rows, absent)
    ensures j !in AbsentRows(rows, absent)
    ensures j >= SENIOR_COUNT
  {
    EligibleRowsAre(rows, absent, j);
  }
}
