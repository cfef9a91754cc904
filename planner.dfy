/** The reassignment planner: for every absent row and every period column in which it teaches,
    hand the subject to the least-loaded eligible row that is free in that period. */
module Planner {
  import opened Text
  import opened Timetable
  import opened Eligibility
  import opened Selection

  /** One entry of reassignment_plan: the key (absent teacher's raw name, period) and the value
      (subject, substitute's raw name). */
  datatype PlanItem = PlanItem(absent: string, period: string, subject: string, substitute: string)

  /** One placement made by the run, with the two rows it concerns. */
  datatype Pick = Pick(absentRow: nat, absent: string, period: string, subject: string,
                       subRow: nat, substitute: string)

  function ItemOf(p: Pick): PlanItem {
    PlanItem(p.absent, p.period, p.subject, p.substitute)
  }

  function Items(log: seq<Pick>): seq<PlanItem> {
    seq(|log|, i requires 0 <= i < |log| => ItemOf(log[i]))
  }

  // ---------------------------------------------------------------------------------------
  // The plan as a Python dict: insertion-ordered, one value per key.

  predicate SameKey(x: PlanItem, y: PlanItem) {
    x.absent == y.absent && x.period == y.period
  }

  predicate UniqueKeys(plan: seq<PlanItem>) {
    forall i, j :: 0 <= i < j < |plan| ==> !SameKey(plan[i], plan[j])
  }

  /** Where the key of item sits in plan, or |plan| when it is not there. */
  function KeyIndex(plan: seq<PlanItem>, item: PlanItem): (k: nat)
    ensures k <= |plan|
    ensures k < |plan| ==> SameKey(plan[k], item)
    ensures forall i :: 0 <= i < k ==> !SameKey(plan[i], item)
  {
    if plan == [] then 0
    else if SameKey(plan[0], item) then 0
    else 1 + KeyIndex(plan[1..], item)
  }

  /** plan[key] = value: a key already present keeps its position and gets the new value, a new
      key goes at the end. */
  function Put(plan: seq<PlanItem>, item: PlanItem): (r: seq<PlanItem>)
    ensures |r| == |plan| || r == plan + [item]
    ensures item in r
    ensures forall x :: x in r ==> x == item || x in plan
    ensures forall i :: 0 <= i < |plan| && !SameKey(plan[i], item) ==> r[i] == plan[i]
    ensures UniqueKeys(plan) ==> UniqueKeys(r)
  {
    var k := KeyIndex(plan, item);
    var r := if k < |plan| then plan[k := item] else plan + [item];
    assert r[k] == item;
    assert forall i :: 0 <= i < |r| ==> r[i] == item || r[i] == plan[i];
    r
  }

  /** The dict obtained by inserting the items one after the other: one entry per key, and each
      entry one of the items. */
  function Record(items: seq<PlanItem>): (plan: seq<PlanItem>)
    ensures UniqueKeys(plan)
    ensures forall x :: x in plan ==> x in items
  {
    if items == [] then []
    else
      var init := items[..|items| - 1];
      assert forall x :: x in init ==> x in items;
      Put(Record(init), items[|items| - 1])
  }

  /** The key of every item is in the dict. */
  lemma {:induction false} RecordHasEveryKey(items: seq<PlanItem>, x: PlanItem)
    requires x in items
    ensures KeyIndex(Record(items), x) < |Record(items)|
  {
    var init := items[..|items| - 1];
    var last := items[|items| - 1];
    var prev := Record(init);
    var r := Record(items);
    assert r == Put(prev, last);
    var q :| 0 <= q < |r| && r[q] == last;
    if x == last || SameKey(x, last) {
      assert SameKey(r[q], x);
    } else {
      assert x in init;
      RecordHasEveryKey(init, x);
      var k := KeyIndex(prev, x);
      assert r[k] == prev[k];
    }
  }

  lemma KeysOfInit(items: seq<PlanItem>)
    requires UniqueKeys(items) && items != []
    ensures UniqueKeys(items[..|items| - 1])
    ensures forall i :: 0 <= i < |items| - 1 ==> !SameKey(items[i], items[|items| - 1])
  {
    var init := items[..|items| - 1];
    assert forall i :: 0 <= i < |init| ==> init[i] == items[i];
  }

  /** A key that is not in the dict yet goes at the end. */
  lemma PutNew(plan: seq<PlanItem>, item: PlanItem)
    requires forall i :: 0 <= i < |plan| ==> !SameKey(plan[i], item)
    ensures Put(plan, item) == plan + [item]
  {
  }

  /** With no two items under one key, the dict holds every item, in insertion order. */
  lemma {:induction false} RecordKeepsAll(items: seq<PlanItem>)
    requires UniqueKeys(items)
    ensures Record(items) == items
  {
    if items != [] {
      var init := items[..|items| - 1];
      var last := items[|items| - 1];
      assert items == init + [last];
      KeysOfInit(items);
      RecordKeepsAll(init);
      assert Record(items) == Put(init, last);
      PutNew(init, last);
    }
  }

  /** Where the last item with the key of x sits in items, or -1 when there is none. */
  function LastIndex(items: seq<PlanItem>, x: PlanItem): (i: int)
    ensures -1 <= i < |items|
    ensures 0 <= i ==> SameKey(items[i], x)
    ensures forall j :: i < j < |items| ==> !SameKey(items[j], x)
  {
    if items == [] then -1
    else if SameKey(items[|items| - 1], x) then |items| - 1
    else LastIndex(items[..|items| - 1], x)
  }

  /** KeyIndex is the first position holding the key. */
  lemma KeyIndexAt(plan: seq<PlanItem>, item: PlanItem, k: nat)
    requires k < |plan| && SameKey(plan[k], item)
    requires forall i :: 0 <= i < k ==> !SameKey(plan[i], item)
    ensures KeyIndex(plan, item) == k
  {
  }

  /** KeyIndex depends only on the key. */
  lemma KeyIndexOfKey(plan: seq<PlanItem>, x: PlanItem, y: PlanItem)
    requires SameKey(x, y)
    ensures KeyIndex(plan, x) == KeyIndex(plan, y)
  {
    if KeyIndex(plan, x) < |plan| {
      KeyIndexAt(plan, y, KeyIndex(plan, x));
    }
  }

  lemma KeyIndexOfMember(plan: seq<PlanItem>, x: PlanItem)
    requires x in plan
    ensures KeyIndex(plan, x) < |plan|
  {
    var j :| 0 <= j < |plan| && plan[j] == x;
    assert SameKey(plan[j], x);
  }

  /** KeyIndex after appending one item. */
  lemma KeyIndexSnoc(s: seq<PlanItem>, y: PlanItem, e: PlanItem)
    ensures KeyIndex(s + [y], e) ==
            if KeyIndex(s, e) < |s| then KeyIndex(s, e) else if SameKey(y, e) then |s| else |s| + 1
  {
    var t := s + [y];
    var k := KeyIndex(s, e);
    if k < |s| {
      assert t[k] == s[k];
      KeyIndexAt(t, e, k);
    } else if SameKey(y, e) {
      assert t[|s|] == y;
      KeyIndexAt(t, e, |s|);
    } else {
      assert forall i :: 0 <= i < |t| ==> !SameKey(t[i], e);
    }
  }

  /** Where Put writes: the new value at the key's position, or a new last entry. */
  lemma PutAt(plan: seq<PlanItem>, item: PlanItem)
    ensures var k := KeyIndex(plan, item); var r := Put(plan, item);
            && |r| == (if k < |plan| then |plan| else |plan| + 1)
            && r[k] == item
            && forall i :: 0 <= i < |plan| && i != k ==> r[i] == plan[i]
  {
  }

  /** A repeated key takes the value of its last insertion: the dict entry for the key of any
      inserted x is the last item inserted under that key. */
  lemma {:induction false} RecordLastWins(items: seq<PlanItem>, x: PlanItem)
    requires x in items
    ensures KeyIndex(Record(items), x) < |Record(items)| && 0 <= LastIndex(items, x)
    ensures Record(items)[KeyIndex(Record(items), x)] == items[LastIndex(items, x)]
  {
    var n := |items| - 1;
    var init, last := items[..n], items[n];
    assert items == init + [last];
    assert x == last || x in init;
    var prev := Record(init);
    var r := Record(items);
    assert r == Put(prev, last);
    var k0 := KeyIndex(prev, last);
    PutAt(prev, last);
    if SameKey(last, x) {
      assert LastIndex(items, x) == n;
      forall i | 0 <= i < k0
        ensures !SameKey(r[i], x)
      {
        assert r[i] == prev[i];
      }
      KeyIndexAt(r, x, k0);
    } else {
      assert LastIndex(items, x) == LastIndex(init, x);
      RecordLastWins(init, x);
      var kx := KeyIndex(prev, x);
      assert kx != k0;
      forall i | 0 <= i < kx
        ensures !SameKey(r[i], x)
      {
        if i != k0 {
          assert r[i] == prev[i];
        }
      }
      assert r[kx] == prev[kx];
      KeyIndexAt(r, x, kx);
    }
  }

  /** Keys keep the order of their first insertion: an earlier dict entry has a key that was
      first inserted earlier. */
  lemma {:induction false} RecordFirstOrder(items: seq<PlanItem>)
    ensures forall p, q :: 0 <= p < q < |Record(items)| ==>
              KeyIndex(items, Record(items)[p]) < KeyIndex(items, Record(items)[q])
  {
    if items != [] {
      var n := |items| - 1;
      var init, last := items[..n], items[n];
      assert items == init + [last];
      var prev := Record(init);
      RecordFirstOrder(init);
      assert Record(items) == Put(prev, last);
      if KeyIndex(prev, last) == |prev| && KeyIndex(init, last) < |init| {
        var e := init[KeyIndex(init, last)];
        RecordHasEveryKey(init, e);
        KeyIndexOfKey(prev, e, last);
      }
      PutFirstOrder(init, last, prev);
    }
  }

  /** One insertion keeps the dict in order of first insertion. */
  lemma PutFirstOrder(init: seq<PlanItem>, last: PlanItem, prev: seq<PlanItem>)
    requires forall x :: x in prev ==> x in init
    requires forall p, q :: 0 <= p < q < |prev| ==> KeyIndex(init, prev[p]) < KeyIndex(init, prev[q])
    requires KeyIndex(prev, last) == |prev| ==> KeyIndex(init, last) == |init|
    ensures var r := Put(prev, last);
            forall p, q :: 0 <= p < q < |r| ==> KeyIndex(init + [last], r[p]) < KeyIndex(init + [last], r[q])
  {
    var items := init + [last];
    var r := Put(prev, last);
    var k0 := KeyIndex(prev, last);
    PutAt(prev, last);
    forall i | 0 <= i < |prev|
      ensures KeyIndex(items, prev[i]) == KeyIndex(init, prev[i]) < |init|
    {
      assert prev[i] in init;
      KeyIndexOfMember(init, prev[i]);
      KeyIndexSnoc(init, last, prev[i]);
    }
    if k0 < |prev| {
      forall i | 0 <= i < |r|
        ensures KeyIndex(items, r[i]) == KeyIndex(init, prev[i])
      {
        if i == k0 {
          KeyIndexOfKey(items, r[i], prev[i]);
        } else {
          assert r[i] == prev[i];
        }
      }
    } else {
      KeyIndexSnoc(init, last, last);
      forall i | 0 <= i < |r|
        ensures KeyIndex(items, r[i]) == if i < |prev| then KeyIndex(init, prev[i]) else |init|
      {
        if i < |prev| {
          assert r[i] == prev[i];
        }
      }
    }
  }

  // ---------------------------------------------------------------------------------------
  // The run's state and its reference definition.

  /** The four things the run changes: the rows (teachers), busy_teachers, workload, and the
      placements made so far (from which reassignment_plan is built). */
  datatype Working = Working(rows: seq<StaffRecord>, busy: map<string, set<string>>,
                             workload: map<string, int>, log: seq<Pick>)

  /** The raw names of all rows. */
  function Names(rows: seq<StaffRecord>): set<string> {
    set j | 0 <= j < |rows| :: rows[j].name
  }

  /** The raw names of the rows of a pool. */
  function PoolNames(rows: seq<StaffRecord>, pool: seq<nat>): set<string> {
    set j | j in pool && j < |rows| :: rows[j].name
  }

  /** The state before the loop: no period taken by any name, and every eligible name at
      workload 0. */
  function Start(rows: seq<StaffRecord>, pool: seq<nat>): Working {
    Working(rows, map n | n in Names(rows) :: {}, map n | n in PoolNames(rows, pool) :: 0, [])
  }

  /** One pass of the period loop for absent row a: if a teaches in this period, the least
      loaded free row of the pool takes the subject, and nothing changes if none is free. */
  function Assign(w: Working, pool: seq<nat>, a: nat, period: string): (r: Working)
    requires a < |w.rows|
    ensures |r.rows| == |w.rows|
  {
    var subject := Trim(Cell(w.rows[a], period));
    if subject == "" then w
    else
      match LeastFree(w.rows, w.busy, w.workload, pool, period)
      case None => w
      case Some(j) => Place(w, a, period, subject, j)
  }

  /** Row j takes the subject of absent row a in this period: the subject goes into its cell, the
      period into its busy set, its workload goes up by one, and the placement is logged. */
  function Place(w: Working, a: nat, period: string, subject: string, j: nat): (r: Working)
    requires a < |w.rows| && j < |w.rows|
    ensures |r.rows| == |w.rows|
  {
    var name := w.rows[j].name;
    Working(w.rows[j := w.rows[j].(cells := w.rows[j].cells[period := subject])],
            MarkBusy(w.busy, name, period),
            Bump(w.workload, name),
            w.log + [Pick(a, w.rows[a].name, period, subject, j, name)])
  }

  /** The period loop for absent row a over the periods ps, in order. */
  function RunPeriods(w: Working, pool: seq<nat>, a: nat, ps: seq<string>): (r: Working)
    requires a < |w.rows|
    ensures |r.rows| == |w.rows|
  {
    if ps == [] then w
    else Assign(RunPeriods(w, pool, a, ps[..|ps| - 1]), pool, a, ps[|ps| - 1])
  }

  /** The absent-teacher loop over the absent rows, in order. */
  function RunAbsentees(w: Working, pool: seq<nat>, absentees: seq<nat>, ps: seq<string>): (r: Working)
    requires forall a :: a in absentees ==> a < |w.rows|
    ensures |r.rows| == |w.rows|
  {
    if absentees == [] then w
    else
      var init := absentees[..|absentees| - 1];
      var last := absentees[|absentees| - 1];
      assert forall a :: a in init ==> a in absentees;
      assert last in absentees;
      RunPeriods(RunAbsentees(w, pool, init, ps), pool, last, ps)
  }

  /** The state the planner ends in for this table and these absent names. */
  function Planned(columns: seq<string>, teachers: seq<StaffRecord>, absent: seq<string>): (w: Working)
    ensures |w.rows| == |teachers|
  {
    var pool := EligibleRows(teachers, absent);
    RunAbsentees(Start(teachers, pool), pool, AbsentRows(teachers, absent), PeriodColumns(columns))
  }

  // ---------------------------------------------------------------------------------------
  // What the placements so far amount to.

  /** The cells the placements wrote into row j (a later write to the same cell wins). */
  function Written(log: seq<Pick>, j: nat): map<string, string> {
    if log == [] then map[]
    else
      var p := log[|log| - 1];
      var prev := Written(log[..|log| - 1], j);
      if p.subRow == j then prev[p.period := p.subject] else prev
  }

  /** The periods the placements gave to the raw name n. */
  function TakenBy(log: seq<Pick>, n: string): set<string> {
    if log == [] then {}
    else
      var p := log[|log| - 1];
      TakenBy(log[..|log| - 1], n) + (if p.substitute == n then {p.period} else {})
  }

  /** How many placements went to the raw name n. */
  function CountFor(log: seq<Pick>, n: string): nat {
    if log == [] then 0
    else
      var p := log[|log| - 1];
      CountFor(log[..|log| - 1], n) + (if p.substitute == n then 1 else 0)
  }

  /** No (substitute, period) pair is placed twice. */
  predicate Exclusive(log: seq<Pick>) {
    forall i, k :: 0 <= i < k < |log| ==>
      !(log[i].substitute == log[k].substitute && log[i].period == log[k].period)
  }

  /** The row lists the run works with: every listed row exists, and no absent row is in the
      pool of substitutes. */
  predicate Apart(teachers: seq<StaffRecord>, absRows: seq<nat>, pool: seq<nat>) {
    && (forall j :: j in pool ==> j < |teachers|)
    && (forall a :: a in absRows ==> a < |teachers| && a !in pool)
  }

  /** The absent and eligible rows of a table are such lists. */
  lemma RowListsApart(teachers: seq<StaffRecord>, absent: seq<string>)
    ensures Apart(teachers, AbsentRows(teachers, absent), EligibleRows(teachers, absent))
  {
    forall a | a in AbsentRows(teachers, absent) ensures a !in EligibleRows(teachers, absent) {
      if a in EligibleRows(teachers, absent) {
        EligibleNotAbsentNorSenior(teachers, absent, a);
      }
    }
  }

  /** A placement is sound: it moves the trimmed, non-empty subject of an absent row in one of
      the period columns to a row of the pool whose cell for that period was empty in the
      original table. */
  ghost predicate PickOk(teachers: seq<StaffRecord>, absRows: seq<nat>, pool: seq<nat>, ps: seq<string>, p: Pick) {
    && p.absentRow in absRows && p.absentRow < |teachers|
    && p.absent == teachers[p.absentRow].name
    && p.period in ps
    && p.subject == Trim(Cell(teachers[p.absentRow], p.period)) && p.subject != ""
    && p.subRow in pool && p.subRow < |teachers|
    && p.substitute == teachers[p.subRow].name
    && Cell(teachers[p.subRow], p.period) == ""
  }

  /** Every row is its original with the cells the placements wrote laid over it. */
  ghost predicate RowsFollow(teachers: seq<StaffRecord>, rows: seq<StaffRecord>, log: seq<Pick>) {
    && |rows| == |teachers|
    && forall j :: 0 <= j < |teachers| ==> rows[j] == teachers[j].(cells := teachers[j].cells + Written(log, j))
  }

  /** busy_teachers has a key per raw name, holding the periods placed with that name. */
  ghost predicate BusyFollows(teachers: seq<StaffRecord>, busy: map<string, set<string>>, log: seq<Pick>) {
    && busy.Keys == Names(teachers)
    && forall n :: n in busy ==> busy[n] == TakenBy(log, n)
  }

  /** workload has a key per raw name of the pool, holding how many placements went to it. */
  ghost predicate LoadFollows(teachers: seq<StaffRecord>, pool: seq<nat>, workload: map<string, int>,
                              log: seq<Pick>) {
    && workload.Keys == PoolNames(teachers, pool)
    && forall n :: n in workload ==> workload[n] == CountFor(log, n)
  }

  /** Every placement is sound, and its subject is still in the substitute's cell. */
  ghost predicate PicksOk(teachers: seq<StaffRecord>, absRows: seq<nat>, pool: seq<nat>, ps: seq<string>,
                          w: Working) {
    forall i :: 0 <= i < |w.log| ==>
      PickOk(teachers, absRows, pool, ps, w.log[i]) && w.log[i].subRow < |w.rows| &&
      Cell(w.rows[w.log[i].subRow], w.log[i].period) == w.log[i].subject
  }

  /** What holds of the run's state at every step, relative to the original table. */
  ghost predicate Inv(teachers: seq<StaffRecord>, absRows: seq<nat>, pool: seq<nat>, ps: seq<string>, w: Working) {
    && RowsFollow(teachers, w.rows, w.log)
    && BusyFollows(teachers, w.busy, w.log)
    && LoadFollows(teachers, pool, w.workload, w.log)
    && PicksOk(teachers, absRows, pool, ps, w)
    && Exclusive(w.log)
  }

  lemma WrittenSnoc(log: seq<Pick>, p: Pick, j: nat)
    ensures Written(log + [p], j) == if p.subRow == j then Written(log, j)[p.period := p.subject] else Written(log, j)
  {
    assert (log + [p])[..|log|] == log;
  }

  lemma TakenBySnoc(log: seq<Pick>, p: Pick, n: string)
    ensures TakenBy(log + [p], n) == TakenBy(log, n) + (if p.substitute == n then {p.period} else {})
  {
    assert (log + [p])[..|log|] == log;
  }

  lemma CountForSnoc(log: seq<Pick>, p: Pick, n: string)
    ensures CountFor(log + [p], n) == CountFor(log, n) + (if p.substitute == n then 1 else 0)
  {
    assert (log + [p])[..|log|] == log;
  }

  lemma {:induction false} TakenByHas(log: seq<Pick>, i: nat)
    requires i < |log|
    ensures log[i].period in TakenBy(log, log[i].substitute)
  {
    if i < |log| - 1 {
      TakenByHas(log[..|log| - 1], i);
    }
  }

  lemma {:induction false} WrittenHas(log: seq<Pick>, j: nat, c: string)
    requires c in Written(log, j)
    ensures exists i :: 0 <= i < |log| && log[i].subRow == j && log[i].period == c
  {
    var init := log[..|log| - 1];
    var p := log[|log| - 1];
    if !(p.subRow == j && p.period == c) {
      WrittenHas(init, j, c);
      var i :| 0 <= i < |init| && init[i].subRow == j && init[i].period == c;
      assert log[i] == init[i];
    }
  }

  lemma {:induction false} WrittenNone(log: seq<Pick>, j: nat)
    requires forall i :: 0 <= i < |log| ==> log[i].subRow != j
    ensures Written(log, j) == map[]
  {
    if log != [] {
      var init := log[..|log| - 1];
      assert forall i :: 0 <= i < |init| ==> init[i] == log[i];
      WrittenNone(init, j);
    }
  }

  lemma StartRows(teachers: seq<StaffRecord>)
    ensures RowsFollow(teachers, teachers, [])
  {
    forall j | 0 <= j < |teachers|
      ensures teachers[j] == teachers[j].(cells := teachers[j].cells + Written([], j))
    {
      assert teachers[j].cells + map[] == teachers[j].cells;
    }
  }

  lemma StartInv(teachers: seq<StaffRecord>, absRows: seq<nat>, pool: seq<nat>, ps: seq<string>)
    ensures Inv(teachers, absRows, pool, ps, Start(teachers, pool))
  {
    StartRows(teachers);
  }

  /** What the run knows about the row it picks: it is in the pool, it has its original name,
      its cell for the period was empty from the start and no placement wrote it, and its name
      has not taken the period. */
  lemma ChosenFacts(teachers: seq<StaffRecord>, absRows: seq<nat>, pool: seq<nat>, ps: seq<string>, w: Working,
                    period: string, j: nat)
    requires Apart(teachers, absRows, pool)
    requires RowsFollow(teachers, w.rows, w.log) && BusyFollows(teachers, w.busy, w.log)
    requires PicksOk(teachers, absRows, pool, ps, w)
    requires LeastFree(w.rows, w.busy, w.workload, pool, period) == Some(j)
    ensures j in pool && j < |teachers|
    ensures w.rows[j].name == teachers[j].name
    ensures Cell(teachers[j], period) == ""
    ensures forall i :: 0 <= i < |w.log| ==> !(w.log[i].subRow == j && w.log[i].period == period)
    ensures forall i :: 0 <= i < |w.log| ==> !(w.log[i].substitute == teachers[j].name && w.log[i].period == period)
  {
    var name := teachers[j].name;
    assert name in Names(teachers);
    assert period !in TakenBy(w.log, name);
    forall i | 0 <= i < |w.log| ensures !(w.log[i].substitute == name && w.log[i].period == period) {
      TakenByHas(w.log, i);
    }
    if period in Written(w.log, j) {
      WrittenHas(w.log, j, period);
      assert false;
    }
  }

  /** The absent row is not in the pool, so it is still its original. */
  lemma AbsentUnwritten(teachers: seq<StaffRecord>, absRows: seq<nat>, pool: seq<nat>, ps: seq<string>,
                        w: Working, a: nat)
    requires Apart(teachers, absRows, pool) && Inv(teachers, absRows, pool, ps, w)
    requires a in absRows
    ensures a < |teachers| && w.rows[a] == teachers[a]
  {
    WrittenNone(w.log, a);
    assert teachers[a].cells + map[] == teachers[a].cells;
  }

  lemma AssignRows(teachers: seq<StaffRecord>, rows: seq<StaffRecord>, log: seq<Pick>, p: Pick)
    requires RowsFollow(teachers, rows, log) && p.subRow < |rows|
    ensures RowsFollow(teachers, rows[p.subRow := rows[p.subRow].(cells := rows[p.subRow].cells[p.period := p.subject])],
                       log + [p])
  {
    var j := p.subRow;
    var rows' := rows[j := rows[j].(cells := rows[j].cells[p.period := p.subject])];
    forall k | 0 <= k < |teachers|
      ensures rows'[k] == teachers[k].(cells := teachers[k].cells + Written(log + [p], k))
    {
      WrittenSnoc(log, p, k);
      if k == j {
        var m := Written(log, j);
        assert teachers[j].cells + m[p.period := p.subject] == (teachers[j].cells + m)[p.period := p.subject];
      }
    }
  }

  lemma AssignBusy(teachers: seq<StaffRecord>, busy: map<string, set<string>>, log: seq<Pick>, p: Pick)
    requires BusyFollows(teachers, busy, log) && p.substitute in Names(teachers)
    ensures BusyFollows(teachers, MarkBusy(busy, p.substitute, p.period), log + [p])
  {
    forall n ensures TakenBy(log + [p], n) == TakenBy(log, n) + (if p.substitute == n then {p.period} else {}) {
      TakenBySnoc(log, p, n);
    }
  }

  lemma AssignLoad(teachers: seq<StaffRecord>, pool: seq<nat>, workload: map<string, int>, log: seq<Pick>, p: Pick)
    requires LoadFollows(teachers, pool, workload, log)
    requires p.substitute in PoolNames(teachers, pool)
    ensures LoadFollows(teachers, pool, Bump(workload, p.substitute), log + [p])
  {
    forall n ensures CountFor(log + [p], n) == CountFor(log, n) + (if p.substitute == n then 1 else 0) {
      CountForSnoc(log, p, n);
    }
  }

  lemma AssignPicks(teachers: seq<StaffRecord>, absRows: seq<nat>, pool: seq<nat>, ps: seq<string>,
                    w: Working, r: Working, p: Pick)
    requires PicksOk(teachers, absRows, pool, ps, w) && Exclusive(w.log)
    requires PickOk(teachers, absRows, pool, ps, p) && p.subRow < |w.rows|
    requires r.log == w.log + [p]
    requires r.rows == w.rows[p.subRow := w.rows[p.subRow].(cells := w.rows[p.subRow].cells[p.period := p.subject])]
    requires forall i :: 0 <= i < |w.log| ==> !(w.log[i].subRow == p.subRow && w.log[i].period == p.period)
    requires forall i :: 0 <= i < |w.log| ==> !(w.log[i].substitute == p.substitute && w.log[i].period == p.period)
    ensures PicksOk(teachers, absRows, pool, ps, r) && Exclusive(r.log)
  {
    var n := |w.log|;
    forall i | 0 <= i < n
      ensures r.log[i] == w.log[i] && r.log[i].subRow < |r.rows|
      ensures Cell(r.rows[r.log[i].subRow], r.log[i].period) == r.log[i].subject
    {
      var q := w.log[i];
      assert Cell(w.rows[q.subRow], q.period) == q.subject;
      if q.subRow == p.subRow {
        assert q.period != p.period;
      }
    }
    assert r.log[n] == p;
    assert Cell(r.rows[p.subRow], p.period) == p.subject;
    forall i, k | 0 <= i < k < |r.log|
      ensures !(r.log[i].substitute == r.log[k].substitute && r.log[i].period == r.log[k].period)
    {
      if k == n {
        assert r.log[i] == w.log[i];
      }
    }
  }

  /** A placement keeps the invariant. */
  lemma PlaceInv(teachers: seq<StaffRecord>, absRows: seq<nat>, pool: seq<nat>, ps: seq<string>, w: Working,
                 a: nat, period: string, j: nat)
    requires Apart(teachers, absRows, pool) && Inv(teachers, absRows, pool, ps, w)
    requires a in absRows && period in ps
    requires Trim(Cell(w.rows[a], period)) != ""
    requires LeastFree(w.rows, w.busy, w.workload, pool, period) == Some(j)
    ensures j < |w.rows|
    ensures Inv(teachers, absRows, pool, ps, Place(w, a, period, Trim(Cell(w.rows[a], period)), j))
  {
    AbsentUnwritten(teachers, absRows, pool, ps, w, a);
    ChosenFacts(teachers, absRows, pool, ps, w, period, j);
    var subject := Trim(Cell(w.rows[a], period));
    var r := Place(w, a, period, subject, j);
    var name := w.rows[j].name;
    var p := Pick(a, w.rows[a].name, period, subject, j, name);
    assert r.log == w.log + [p];
    AssignRows(teachers, w.rows, w.log, p);
    assert name in Names(teachers);
    AssignBusy(teachers, w.busy, w.log, p);
    assert name in PoolNames(teachers, pool);
    AssignLoad(teachers, pool, w.workload, w.log, p);
    assert PickOk(teachers, absRows, pool, ps, p);
    AssignPicks(teachers, absRows, pool, ps, w, r, p);
  }

  /** One pass of the period loop keeps the invariant. */
  lemma AssignInv(teachers: seq<StaffRecord>, absRows: seq<nat>, pool: seq<nat>, ps: seq<string>, w: Working,
                  a: nat, period: string)
    requires Apart(teachers, absRows, pool) && Inv(teachers, absRows, pool, ps, w)
    requires a in absRows && period in ps
    ensures Inv(teachers, absRows, pool, ps, Assign(w, pool, a, period))
  {
    var choice := LeastFree(w.rows, w.busy, w.workload, pool, period);
    if Trim(Cell(w.rows[a], period)) != "" && choice.Some? {
      PlaceInv(teachers, absRows, pool, ps, w, a, period, choice.value);
    } else {
      assert Assign(w, pool, a, period) == w;
    }
  }

  lemma {:induction false} RunPeriodsInv(teachers: seq<StaffRecord>, absRows: seq<nat>, pool: seq<nat>,
                                         ps: seq<string>, w: Working, a: nat, qs: seq<string>)
    requires Apart(teachers, absRows, pool) && Inv(teachers, absRows, pool, ps, w)
    requires a in absRows
    requires forall q :: q in qs ==> q in ps
    ensures Inv(teachers, absRows, pool, ps, RunPeriods(w, pool, a, qs))
  {
    if qs != [] {
      var init := qs[..|qs| - 1];
      assert forall q :: q in init ==> q in qs;
      RunPeriodsInv(teachers, absRows, pool, ps, w, a, init);
      AssignInv(teachers, absRows, pool, ps, RunPeriods(w, pool, a, init), a, qs[|qs| - 1]);
    }
  }

  lemma {:induction false} RunAbsenteesInv(teachers: seq<StaffRecord>, absRows: seq<nat>, pool: seq<nat>,
                                           ps: seq<string>, w: Working, absentees: seq<nat>)
    requires Apart(teachers, absRows, pool) && Inv(teachers, absRows, pool, ps, w)
    requires forall a :: a in absentees ==> a in absRows
    ensures forall a :: a in absentees ==> a < |w.rows|
    ensures Inv(teachers, absRows, pool, ps, RunAbsentees(w, pool, absentees, ps))
  {
    if absentees != [] {
      var init := absentees[..|absentees| - 1];
      assert forall a :: a in init ==> a in absentees;
      RunAbsenteesInv(teachers, absRows, pool, ps, w, init);
      var prev := RunAbsentees(w, pool, init, ps);
      RunPeriodsInv(teachers, absRows, pool, ps, prev, absentees[|absentees| - 1], ps);
    }
  }

  /** The invariant holds of the final state. */
  lemma PlannedInv(columns: seq<string>, teachers: seq<StaffRecord>, absent: seq<string>)
    ensures Inv(teachers, AbsentRows(teachers, absent), EligibleRows(teachers, absent), PeriodColumns(columns),
                Planned(columns, teachers, absent))
  {
    var ps := PeriodColumns(columns);
    var absRows := AbsentRows(teachers, absent);
    var pool := EligibleRows(teachers, absent);
    RowListsApart(teachers, absent);
    StartInv(teachers, absRows, pool, ps);
    RunAbsenteesInv(teachers, absRows, pool, ps, Start(teachers, pool), absRows);
  }

  // ---------------------------------------------------------------------------------------
  // The planner as the program runs it.

  lemma ItemsSnoc(log: seq<Pick>, p: Pick)
    ensures Items(log + [p]) == Items(log) + [ItemOf(p)]
  {
  }

  lemma RecordSnoc(items: seq<PlanItem>, x: PlanItem)
    ensures Record(items + [x]) == Put(Record(items), x)
  {
    assert (items + [x])[..|items|] == items;
  }

  lemma RunPeriodsSnoc(w: Working, pool: seq<nat>, a: nat, ps: seq<string>, y: nat)
    requires a < |w.rows| && y < |ps|
    ensures RunPeriods(w, pool, a, ps[..y + 1]) == Assign(RunPeriods(w, pool, a, ps[..y]), pool, a, ps[y])
  {
    assert ps[..y + 1][..y] == ps[..y];
  }

  /** Every listed row is below n. */
  predicate InRange(s: seq<nat>, n: nat) {
    forall b :: b in s ==> b < n
  }

  lemma RunAbsenteesStep(w: Working, pool: seq<nat>, s: seq<nat>, x: nat, ps: seq<string>)
    requires InRange(s, |w.rows|) && x < |s|
    ensures InRange(s[..x], |w.rows|) && InRange(s[..x + 1], |w.rows|) && s[x] < |w.rows|
    ensures RunAbsentees(w, pool, s[..x + 1], ps) == RunPeriods(RunAbsentees(w, pool, s[..x], ps), pool, s[x], ps)
  {
    var t := s[..x + 1];
    assert forall b :: b in t ==> b in s;
    assert forall b :: b in s[..x] ==> b in s;
    assert s[x] in s;
    assert t[..|t| - 1] == s[..x];
    assert t[|t| - 1] == s[x];
  }

  /** Row j takes over the subject of absent row a in this period: its cell gets the subject,
      its name gets the period as busy and one more unit of workload, and the plan gets the entry
      (a's raw name, period) -> (subject, j's raw name). */
  method TakeOver(rows0: seq<StaffRecord>, busy0: map<string, set<string>>, workload0: map<string, int>,
                  plan0: seq<PlanItem>, ghost log0: seq<Pick>, a: nat, period: string, subject: string, j: nat)
    returns (rows: seq<StaffRecord>, busy: map<string, set<string>>, workload: map<string, int>,
             plan: seq<PlanItem>, ghost log: seq<Pick>)
    requires a < |rows0| && j < |rows0|
    requires plan0 == Record(Items(log0))
    ensures var r := Place(Working(rows0, busy0, workload0, log0), a, period, subject, j);
            rows == r.rows && busy == r.busy && workload == r.workload
    ensures log == Place(Working(rows0, busy0, workload0, log0), a, period, subject, j).log
    ensures plan == Record(Items(log))
  {
    var name := rows0[j].name;
    var item := PlanItem(rows0[a].name, period, subject, name);
    ghost var pick := Pick(a, rows0[a].name, period, subject, j, name);
    rows := rows0[j := rows0[j].(cells := rows0[j].cells[period := subject])];
    busy := MarkBusy(busy0, name, period);
    workload := Bump(workload0, name);
    plan := Put(plan0, item);
    ItemsSnoc(log0, pick);
    RecordSnoc(Items(log0), item);
    log := log0 + [pick];
  }

  /** One pass of the period loop: if absent row a has a non-empty subject in this period, the
      least-loaded free row of the pool takes it, and its cell, its busy set, its workload and
      the plan entry for (a's raw name, period) are updated. */
  method AssignPeriod(rows0: seq<StaffRecord>, busy0: map<string, set<string>>, workload0: map<string, int>,
                      plan0: seq<PlanItem>, ghost log0: seq<Pick>, pool: seq<nat>, a: nat, period: string)
    returns (rows: seq<StaffRecord>, busy: map<string, set<string>>, workload: map<string, int>,
             plan: seq<PlanItem>, ghost log: seq<Pick>)
    requires Increasing(pool) && forall j :: j in pool ==> j < |rows0|
    requires a < |rows0|
    requires plan0 == Record(Items(log0))
    ensures var r := Assign(Working(rows0, busy0, workload0, log0), pool, a, period);
            rows == r.rows && busy == r.busy && workload == r.workload
    ensures log == Assign(Working(rows0, busy0, workload0, log0), pool, a, period).log
    ensures plan == Record(Items(log))
  {
    rows, busy, workload, plan, log := rows0, busy0, workload0, plan0, log0;
    ghost var w := Working(rows0, busy0, workload0, log0);
    var subject := Trim(Cell(rows[a], period));
    if subject != "" {
      var choice := ChooseSubstitute(rows, busy, workload, pool, period);
      if choice.Some? {
        assert Assign(w, pool, a, period) == Place(w, a, period, subject, choice.value);
        rows, busy, workload, plan, log := TakeOver(rows, busy, workload, plan, log, a, period, subject, choice.value);
      } else {
        assert Assign(w, pool, a, period) == w;
      }
    } else {
      assert Assign(w, pool, a, period) == w;
    }
  }

  /** The period loop for absent row a, over the period columns in table order. */
  method PlanPeriods(rows0: seq<StaffRecord>, busy0: map<string, set<string>>, workload0: map<string, int>,
                     plan0: seq<PlanItem>, ghost log0: seq<Pick>, pool: seq<nat>, a: nat, ps: seq<string>)
    returns (rows: seq<StaffRecord>, busy: map<string, set<string>>, workload: map<string, int>,
             plan: seq<PlanItem>, ghost log: seq<Pick>)
    requires Increasing(pool) && forall j :: j in pool ==> j < |rows0|
    requires a < |rows0|
    requires plan0 == Record(Items(log0))
    ensures var r := RunPeriods(Working(rows0, busy0, workload0, log0), pool, a, ps);
            rows == r.rows && busy == r.busy && workload == r.workload
    ensures log == RunPeriods(Working(rows0, busy0, workload0, log0), pool, a, ps).log
    ensures plan == Record(Items(log))
  {
    rows, busy, workload, plan, log := rows0, busy0, workload0, plan0, log0;
    ghost var before := Working(rows0, busy0, workload0, log0);
    assert ps[..0] == [];
    var y := 0;
    while y < |ps|
      invariant 0 <= y <= |ps|
      invariant |rows| == |rows0|
      invariant Working(rows, busy, workload, log) == RunPeriods(before, pool, a, ps[..y])
      invariant plan == Record(Items(log))
    {
      RunPeriodsSnoc(before, pool, a, ps, y);
      rows, busy, workload, plan, log := AssignPeriod(rows, busy, workload, plan, log, pool, a, ps[y]);
      y := y + 1;
    }
    assert ps[..y] == ps;
  }

  /** The absent-teacher loop: the period loop for every absent row, in table order. */
  method PlanAbsentees(rows0: seq<StaffRecord>, busy0: map<string, set<string>>, workload0: map<string, int>,
                       absRows: seq<nat>, pool: seq<nat>, ps: seq<string>)
    returns (rows: seq<StaffRecord>, plan: seq<PlanItem>, ghost log: seq<Pick>)
    requires Increasing(pool) && forall j :: j in pool ==> j < |rows0|
    requires forall a :: a in absRows ==> a < |rows0|
    ensures rows == RunAbsentees(Working(rows0, busy0, workload0, []), pool, absRows, ps).rows
    ensures log == RunAbsentees(Working(rows0, busy0, workload0, []), pool, absRows, ps).log
    ensures plan == Record(Items(RunAbsentees(Working(rows0, busy0, workload0, []), pool, absRows, ps).log))
  {
    ghost var start := Working(rows0, busy0, workload0, []);
    rows := rows0;
    var busy, workload := busy0, workload0;
    plan := [];
    log := [];
    assert absRows[..0] == [];
    var x := 0;
    while x < |absRows|
      invariant 0 <= x <= |absRows|
      invariant InRange(absRows[..x], |rows0|)
      invariant |rows| == |rows0|
      invariant Working(rows, busy, workload, log) == RunAbsentees(start, pool, absRows[..x], ps)
      invariant plan == Record(Items(log))
    {
      RunAbsenteesStep(start, pool, absRows, x, ps);
      rows, busy, workload, plan, log := PlanPeriods(rows, busy, workload, plan, log, pool, absRows[x], ps);
      x := x + 1;
    }
    assert absRows[..x] == absRows;
  }

  /** The button handler: select the absent and the eligible rows, set up busy_teachers (every
      raw name, no period) and workload (every eligible raw name, at 0), then run the
      absent-teacher loop. The rows come back with the substitutes' cells filled in. */
  method Plan(columns: seq<string>, teachers: seq<StaffRecord>, absent: seq<string>)
    returns (plan: seq<PlanItem>, rows: seq<StaffRecord>)
    ensures rows == Planned(columns, teachers, absent).rows
    ensures plan == Record(Items(Planned(columns, teachers, absent).log))
  {
    var absRows := AbsentRows(teachers, absent);
    var pool := EligibleRows(teachers, absent);
    var busy: map<string, set<string>> := map n | n in Names(teachers) :: {};
    var workload: map<string, int> := map n | n in PoolNames(teachers, pool) :: 0;
    ghost var log;
    rows, plan, log := PlanAbsentees(teachers, busy, workload, absRows, pool, PeriodColumns(columns));
  }
}
