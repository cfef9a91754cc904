/** What the finished plan and the updated rows satisfy, for every table and every choice of
    absent names. */
module Guarantees {
  import opened Text
  import opened Timetable
  import opened Eligibility
  import opened Selection
  import opened Planner
  import opened Steps

  /** The reassignment plan the planner builds. */
  function PlanOf(columns: seq<string>, teachers: seq<StaffRecord>, absent: seq<string>): seq<PlanItem> {
    Record(Items(Planned(columns, teachers, absent).log))
  }

  /** Every entry of the plan is an item of some placement. */
  lemma {:induction false} EntryFromPick(log: seq<Pick>, x: PlanItem)
    requires x in Record(Items(log))
    ensures exists i :: 0 <= i < |log| && ItemOf(log[i]) == x
  {
    var items := Items(log);
    assert x in items;
    var i :| 0 <= i < |items| && items[i] == x;
    assert ItemOf(log[i]) == x;
  }

  /** A placement of the run, read in the table's own terms. */
  lemma PickMeans(columns: seq<string>, teachers: seq<StaffRecord>, absent: seq<string>, i: nat)
    requires i < |Planned(columns, teachers, absent).log|
    ensures var w := Planned(columns, teachers, absent);
            var p := w.log[i];
            && p.absentRow < |teachers| && Trim(teachers[p.absentRow].name) in absent
            && p.absent == teachers[p.absentRow].name
            && p.period in columns && HasPrefix(p.period, PERIOD_PREFIX)
            && p.subject == Trim(Cell(teachers[p.absentRow], p.period)) && p.subject != ""
            && p.subRow < |teachers| && p.substitute == teachers[p.subRow].name
            && Trim(teachers[p.subRow].name) !in absent
            && (forall k :: 0 <= k < |teachers| && k < SENIOR_COUNT ==>
                  Trim(teachers[k].name) != Trim(teachers[p.subRow].name))
            && Cell(teachers[p.subRow], p.period) == ""
            && Cell(w.rows[p.subRow], p.period) == p.subject
  {
    PlannedInv(columns, teachers, absent);
    var p := Planned(columns, teachers, absent).log[i];
    AbsentRowsAre(teachers, absent, p.absentRow);
    EligibleRowsAre(teachers, absent, p.subRow);
  }

  /** Each plan entry moves the trimmed, non-empty subject that an absent row has in a period
      column to a row that is neither absent nor shares a trimmed name with one of the first
      three rows, whose cell for that period was empty and now holds the subject. */
  lemma PlanEntrySound(columns: seq<string>, teachers: seq<StaffRecord>, absent: seq<string>, x: PlanItem)
    requires x in PlanOf(columns, teachers, absent)
    ensures x.subject != ""
    ensures x.period in columns && HasPrefix(x.period, PERIOD_PREFIX)
    ensures exists a :: 0 <= a < |teachers| && Trim(teachers[a].name) in absent &&
                        x.absent == teachers[a].name && x.subject == Trim(Cell(teachers[a], x.period))
    ensures exists j :: 0 <= j < |teachers| && x.substitute == teachers[j].name &&
                        Trim(teachers[j].name) !in absent &&
                        (forall k :: 0 <= k < |teachers| && k < SENIOR_COUNT ==>
                           Trim(teachers[k].name) != Trim(teachers[j].name)) &&
                        Cell(teachers[j], x.period) == "" &&
                        Cell(Planned(columns, teachers, absent).rows[j], x.period) == x.subject
  {
    var log := Planned(columns, teachers, absent).log;
    EntryFromPick(log, x);
    var i :| 0 <= i < |log| && ItemOf(log[i]) == x;
    PickMeans(columns, teachers, absent, i);
    var a := log[i].absentRow;
    var j := log[i].subRow;
    assert 0 <= a < |teachers| && Trim(teachers[a].name) in absent &&
           x.absent == teachers[a].name && x.subject == Trim(Cell(teachers[a], x.period));
    assert 0 <= j < |teachers| && x.substitute == teachers[j].name &&
           Trim(teachers[j].name) !in absent &&
           (forall k :: 0 <= k < |teachers| && k < SENIOR_COUNT ==>
              Trim(teachers[k].name) != Trim(teachers[j].name)) &&
           Cell(teachers[j], x.period) == "" &&
           Cell(Planned(columns, teachers, absent).rows[j], x.period) == x.subject;
  }

  /** Mutual exclusion: no substitute covers the same period in two entries of the plan. */
  lemma NoDoubleBooking(columns: seq<string>, teachers: seq<StaffRecord>, absent: seq<string>)
    ensures var plan := PlanOf(columns, teachers, absent);
            forall i, k :: 0 <= i < k < |plan| ==>
              !(plan[i].substitute == plan[k].substitute && plan[i].period == plan[k].period)
  {
    var log := Planned(columns, teachers, absent).log;
    var plan := PlanOf(columns, teachers, absent);
    PlannedInv(columns, teachers, absent);
    forall i, k | 0 <= i < k < |plan|
      ensures !(plan[i].substitute == plan[k].substitute && plan[i].period == plan[k].period)
    {
      assert plan[i] in plan && plan[k] in plan;
      EntryFromPick(log, plan[i]);
      EntryFromPick(log, plan[k]);
      var i' :| 0 <= i' < |log| && ItemOf(log[i']) == plan[i];
      var k' :| 0 <= k' < |log| && ItemOf(log[k']) == plan[k];
      if i' < k' {
        assert !(log[i'].substitute == log[k'].substitute && log[i'].period == log[k'].period);
      } else if k' < i' {
        assert !(log[k'].substitute == log[i'].substitute && log[k'].period == log[i'].period);
      }
    }
  }

  /** A cell of the returned rows differs from the original only if it was an empty period
      cell of a row that is neither absent nor shares a trimmed name with one of the first
      three rows; no row changes its name. */
  lemma CellsFrame(columns: seq<string>, teachers: seq<StaffRecord>, absent: seq<string>, j: nat, c: string)
    requires j < |teachers|
    ensures Planned(columns, teachers, absent).rows[j].name == teachers[j].name
    ensures Cell(Planned(columns, teachers, absent).rows[j], c) != Cell(teachers[j], c) ==>
              && Cell(teachers[j], c) == "" && c in columns && HasPrefix(c, PERIOD_PREFIX)
              && Trim(teachers[j].name) !in absent
              && forall k :: 0 <= k < |teachers| && k < SENIOR_COUNT ==>
                   Trim(teachers[k].name) != Trim(teachers[j].name)
  {
    PlannedInv(columns, teachers, absent);
    CellsFrameInv(teachers, AbsentRows(teachers, absent), EligibleRows(teachers, absent), PeriodColumns(columns),
                  Planned(columns, teachers, absent), j, c);
    EligibleRowsAre(teachers, absent, j);
  }

  lemma CellsFrameInv(teachers: seq<StaffRecord>, absRows: seq<nat>, pool: seq<nat>, ps: seq<string>,
                      w: Working, j: nat, c: string)
    requires RowsFollow(teachers, w.rows, w.log) && PicksOk(teachers, absRows, pool, ps, w) && j < |teachers|
    ensures w.rows[j].name == teachers[j].name
    ensures Cell(w.rows[j], c) != Cell(teachers[j], c) ==> Cell(teachers[j], c) == "" && c in ps && j in pool
  {
    var m := Written(w.log, j);
    assert w.rows[j] == teachers[j].(cells := teachers[j].cells + m);
    if Cell(w.rows[j], c) != Cell(teachers[j], c) {
      assert c in m;
      WrittenHas(w.log, j, c);
      var i :| 0 <= i < |w.log| && w.log[i].subRow == j && w.log[i].period == c;
      assert PickOk(teachers, absRows, pool, ps, w.log[i]);
    }
  }

  /** An absent row comes back exactly as it was. */
  lemma AbsentRowUnchanged(columns: seq<string>, teachers: seq<StaffRecord>, absent: seq<string>, j: nat)
    requires j < |teachers| && Trim(teachers[j].name) in absent
    ensures Planned(columns, teachers, absent).rows[j] == teachers[j]
  {
    PlannedInv(columns, teachers, absent);
    AbsentRowsAre(teachers, absent, j);
    RowListsApart(teachers, absent);
    AbsentUnwritten(teachers, AbsentRows(teachers, absent), EligibleRows(teachers, absent),
                    PeriodColumns(columns), Planned(columns, teachers, absent), j);
  }

  /** At most one substitute is chosen per absent row and period column (the period columns of
      a table are distinct). */
  lemma OnePickPerSlot(columns: seq<string>, teachers: seq<StaffRecord>, absent: seq<string>)
    requires Distinct(columns)
    ensures var log := Planned(columns, teachers, absent).log;
            forall i, k :: 0 <= i < k < |log| ==>
              !(log[i].absentRow == log[k].absentRow && log[i].period == log[k].period)
  {
    var pool := EligibleRows(teachers, absent);
    var absRows := AbsentRows(teachers, absent);
    var start := Start(teachers, pool);
    assert Planned(columns, teachers, absent) == RunAbsentees(start, pool, absRows, PeriodColumns(columns));
    assert |start.log| == 0;
    RunAbsenteesSlots(start, pool, absRows, PeriodColumns(columns));
  }

  /** Absent rows whose raw names all differ. */
  predicate DistinctAbsentNames(teachers: seq<StaffRecord>, absent: seq<string>) {
    forall a, b :: 0 <= a < b < |teachers| && Trim(teachers[a].name) in absent && Trim(teachers[b].name) in absent ==>
      teachers[a].name != teachers[b].name
  }

  /** Two sound placements for different (absent row, period) slots have different plan keys when
      the absent rows' raw names differ. */
  lemma SlotKeys(teachers: seq<StaffRecord>, absent: seq<string>, absRows: seq<nat>, pool: seq<nat>,
                 ps: seq<string>, p: Pick, q: Pick)
    requires DistinctAbsentNames(teachers, absent)
    requires forall a :: a in absRows ==> a < |teachers| && Trim(teachers[a].name) in absent
    requires PickOk(teachers, absRows, pool, ps, p) && PickOk(teachers, absRows, pool, ps, q)
    requires !(p.absentRow == q.absentRow && p.period == q.period)
    ensures !SameKey(ItemOf(p), ItemOf(q))
  {
    if p.absentRow < q.absentRow {
      assert teachers[p.absentRow].name != teachers[q.absentRow].name;
    } else if q.absentRow < p.absentRow {
      assert teachers[q.absentRow].name != teachers[p.absentRow].name;
    }
  }

  /** Sound placements, one per slot, give a sequence of items with distinct keys. */
  lemma SlotsGiveUniqueKeys(teachers: seq<StaffRecord>, absent: seq<string>, absRows: seq<nat>, pool: seq<nat>,
                            ps: seq<string>, w: Working)
    requires DistinctAbsentNames(teachers, absent)
    requires forall a :: a in absRows ==> a < |teachers| && Trim(teachers[a].name) in absent
    requires PicksOk(teachers, absRows, pool, ps, w)
    requires forall i, k :: 0 <= i < k < |w.log| ==>
               !(w.log[i].absentRow == w.log[k].absentRow && w.log[i].period == w.log[k].period)
    ensures UniqueKeys(Items(w.log))
  {
    var items := Items(w.log);
    forall i, k | 0 <= i < k < |items| ensures !SameKey(items[i], items[k]) {
      SlotKeys(teachers, absent, absRows, pool, ps, w.log[i], w.log[k]);
    }
  }

  /** When the absent rows have distinct raw names, no plan entry is overwritten: the plan
      holds one entry per placement, in the order the placements were made. */
  lemma PlanIsLog(columns: seq<string>, teachers: seq<StaffRecord>, absent: seq<string>)
    requires Distinct(columns) && DistinctAbsentNames(teachers, absent)
    ensures PlanOf(columns, teachers, absent) == Items(Planned(columns, teachers, absent).log)
  {
    var absRows := AbsentRows(teachers, absent);
    var w := Planned(columns, teachers, absent);
    PlannedInv(columns, teachers, absent);
    OnePickPerSlot(columns, teachers, absent);
    forall a | a in absRows ensures a < |teachers| && Trim(teachers[a].name) in absent {
      AbsentRowsAre(teachers, absent, a);
    }
    SlotsGiveUniqueKeys(teachers, absent, absRows, EligibleRows(teachers, absent), PeriodColumns(columns), w);
    RecordKeepsAll(Items(w.log));
  }

  /** How many entries of the plan name n as substitute. */
  function EntriesFor(plan: seq<PlanItem>, n: string): nat {
    if plan == [] then 0
    else EntriesFor(plan[..|plan| - 1], n) + (if plan[|plan| - 1].substitute == n then 1 else 0)
  }

  /** The periods of the plan entries that name n as substitute. */
  function PeriodsFor(plan: seq<PlanItem>, n: string): set<string> {
    if plan == [] then {}
    else PeriodsFor(plan[..|plan| - 1], n) + (if plan[|plan| - 1].substitute == n then {plan[|plan| - 1].period} else {})
  }

  lemma {:induction false} ItemsCount(log: seq<Pick>, n: string)
    ensures EntriesFor(Items(log), n) == CountFor(log, n)
    ensures PeriodsFor(Items(log), n) == TakenBy(log, n)
  {
    if log != [] {
      var init := log[..|log| - 1];
      ItemsCount(init, n);
      assert Items(log)[..|log| - 1] == Items(init);
    }
  }

  /** Along the run, workload and busy_teachers agree with the placements made so far. */
  lemma BookkeepingInv(teachers: seq<StaffRecord>, absRows: seq<nat>, pool: seq<nat>, ps: seq<string>, w: Working)
    requires Inv(teachers, absRows, pool, ps, w)
    ensures forall n :: n in w.workload ==> w.workload[n] == EntriesFor(Items(w.log), n)
    ensures forall n :: n in w.busy ==> w.busy[n] == PeriodsFor(Items(w.log), n)
  {
    forall n ensures EntriesFor(Items(w.log), n) == CountFor(w.log, n) && PeriodsFor(Items(w.log), n) == TakenBy(w.log, n) {
      ItemsCount(w.log, n);
    }
  }

  /** Every eligible raw name ends with a workload equal to the number of plan entries naming
      it, and every raw name ends busy in exactly the periods of those entries (absent rows with
      distinct raw names, so that no entry was overwritten). */
  lemma BookkeepingMatchesPlan(columns: seq<string>, teachers: seq<StaffRecord>, absent: seq<string>)
    requires Distinct(columns) && DistinctAbsentNames(teachers, absent)
    ensures var w := Planned(columns, teachers, absent);
            var plan := PlanOf(columns, teachers, absent);
            && w.workload.Keys == PoolNames(teachers, EligibleRows(teachers, absent))
            && (forall n :: n in w.workload ==> w.workload[n] == EntriesFor(plan, n))
            && w.busy.Keys == Names(teachers)
            && (forall n :: n in w.busy ==> w.busy[n] == PeriodsFor(plan, n))
  {
    PlannedInv(columns, teachers, absent);
    PlanIsLog(columns, teachers, absent);
    BookkeepingInv(teachers, AbsentRows(teachers, absent), EligibleRows(teachers, absent), PeriodColumns(columns),
                   Planned(columns, teachers, absent));
  }
}
