/** One day's timetable as the planner receives it: the table's column headers and one record
    per staff row, every cell already a string (missing values are the empty string). */
module Timetable {
  import opened Text

  /** One row of the table: the raw Teacher_Name value and the row's other cells by column.
      An empty cell means the teacher is free in that column's period. */
  datatype StaffRecord = StaffRecord(name: string, cells: map<string, string>)

  /** The header prefix that marks a period column. */
  const PERIOD_PREFIX := "Period"

  /** row.get(column, ""). */
  function Cell(r: StaffRecord, column: string): string {
    if column in r.cells then r.cells[column] else ""
  }

  predicate Distinct<T(==)>(s: seq<T>) {
    forall i, j :: 0 <= i < j < |s| ==> s[i] != s[j]
  }

  /** An index sequence listed in strictly increasing order. */
  predicate Increasing(s: seq<nat>) {
    forall i, j :: 0 <= i < j < |s| ==> s[i] < s[j]
  }

  /** The period columns, in table order: the headers that start with "Period". */
  function PeriodColumns(columns: seq<string>): (ps: seq<string>)
    ensures |ps| <= |columns|
    ensures forall c :: c in ps <==> c in columns && HasPrefix(c, PERIOD_PREFIX)
    ensures Distinct(columns) ==> Distinct(ps)
  {
    if columns == [] then []
    else
      var init := columns[..|columns| - 1];
      var c := columns[|columns| - 1];
      assert columns == init + [c];
      PeriodColumns(init) + (if HasPrefix(c, PERIOD_PREFIX) then [c] else [])
  }

  /** The positions of the period columns, in table order. */
  function PeriodIndices(columns: seq<string>): (idx: seq<nat>)
    ensures forall k :: 0 <= k < |idx| ==> idx[k] < |columns|
    ensures Increasing(idx)
    ensures forall i: int :: i in idx <==> 0 <= i < |columns| && HasPrefix(columns[i], PERIOD_PREFIX)
  {
    if columns == [] then []
    else
      var n := |columns| - 1;
      var prev := PeriodIndices(columns[..n]);
      assert forall i :: 0 <= i < n ==> columns[..n][i] == columns[i];
      prev + (if HasPrefix(columns[n], PERIOD_PREFIX) then [n] else [])
  }

  /** The period list is the headers at those positions: the period columns keep their table
      order, and a header that occurs twice is listed twice. */
  lemma {:induction false} PeriodColumnsInOrder(columns: seq<string>)
    ensures |PeriodColumns(columns)| == |PeriodIndices(columns)|
    ensures forall k :: 0 <= k < |PeriodIndices(columns)| ==>
              PeriodColumns(columns)[k] == columns[PeriodIndices(columns)[k]]
  {
    if columns != [] {
      var n := |columns| - 1;
      var init := columns[..n];
      var ps, idx := PeriodColumns(columns), PeriodIndices(columns);
      var ps0, idx0 := PeriodColumns(init), PeriodIndices(init);
      PeriodColumnsInOrder(init);
      var keep := HasPrefix(columns[n], PERIOD_PREFIX);
      assert ps == ps0 + (if keep then [columns[n]] else []);
      assert idx == idx0 + (if keep then [n] else []);
      forall k | 0 <= k < |idx|
        ensures ps[k] == columns[idx[k]]
      {
        if k < |idx0| {
          assert ps[k] == ps0[k] == init[idx0[k]];
        }
      }
    }
  }

  /** Every row's name with surrounding whitespace removed, in row order. */
  function TrimmedNames(rows: seq<StaffRecord>): (t: seq<string>)
    ensures |t| == |rows|
    ensures forall j :: 0 <= j < |rows| ==> t[j] == Trim(rows[j].name)
  {
    seq(|rows|, j requires 0 <= j < |rows| => Trim(rows[j].name))
  }

  /** The non-empty entries of t, in order. */
  function NonEmpty(t: seq<string>): (r: seq<string>)
    ensures |r| <= |t|
    ensures forall x :: x in r <==> x in t && x != ""
  {
    if t == [] then []
    else
      var prev := NonEmpty(t[..|t| - 1]);
      var x := t[|t| - 1];
      assert t == t[..|t| - 1] + [x];
      prev + (if x != "" then [x] else [])
  }

  /** all_teacher_names: the names offered for selection as absent, that is every row's
      trimmed name that is not empty, in row order. */
  function TeacherNames(rows: seq<StaffRecord>): seq<string> {
    NonEmpty(TrimmedNames(rows))
  }

  /** A name is offered exactly when it is the non-empty trimmed name of some row. */
  lemma TeacherNamesAre(rows: seq<StaffRecord>, x: string)
    ensures x in TeacherNames(rows) <==> x != "" && exists j :: 0 <= j < |rows| && Trim(rows[j].name) == x
  {
    var t := TrimmedNames(rows);
    if x in t {
      var j :| 0 <= j < |t| && t[j] == x;
      assert Trim(rows[j].name) == x;
    }
  }
}
