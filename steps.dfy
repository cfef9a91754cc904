/** What one pass of the period loop does, stated against the state just before it. */
module Steps {
  import opened Text
  import opened Timetable
  import opened Eligibility
  import opened Selection
  import opened Planner

  /** r differs from w by row j taking the subject in the period: only that row's cell for the
      period changed, its busy set gained the period and its workload went up by one, and
      every other name's busy set and workload stayed as they were. */
  ghost predicate Took(w: Working, r: Working, j: nat, period: string, subject: string)
    requires j < |w.rows|
  {
    && |r.rows| == |w.rows|
    && (forall k :: 0 <= k < |w.rows| ==> r.rows[k].name == w.rows[k].name)
    && Cell(r.rows[j], period) == subject
    && (forall k, c :: 0 <= k < |w.rows| && (k != j || c != period) ==> Cell(r.rows[k], c) == Cell(w.rows[k], c))
    && BusyOf(r.busy, w.rows[j].name) == BusyOf(w.busy, w.rows[j].name) + {period}
    && (forall n :: n != w.rows[j].name ==> BusyOf(r.busy, n) == BusyOf(w.busy, n))
    && Load(r.rows, r.workload, j) == Load(w.rows, w.workload, j) + 1
    && (forall k :: 0 <= k < |w.rows| && w.rows[k].name != w.rows[j].name ==>
          Load(r.rows, r.workload, k) == Load(w.rows, w.workload, k))
  }

  /** Pass (a, period) turned w into r by one placement: the new log entry is a's trimmed
      subject for the period, given to a free row of the pool that comes first in
      workload-then-row order, and r is w with that row having taken the subject. */
  ghost predicate Placed(w: Working, r: Working, pool: seq<nat>, a: nat, period: string)
    requires a < |w.rows|
  {
    && |r.log| == |w.log| + 1 && r.log[..|w.log|] == w.log
    && var p := r.log[|w.log|];
       && p.absentRow == a && p.absent == w.rows[a].name && p.period == period
       && p.subject == Trim(Cell(w.rows[a], period))
       && p.subRow in pool && IsFree(w.rows, w.busy, p.subRow, period)
       && p.substitute == w.rows[p.subRow].name
       && (forall y :: y in pool && IsFree(w.rows, w.busy, y, period) && y != p.subRow ==>
             Precedes(w.rows, w.workload, p.subRow, y))
       && Took(w, r, p.subRow, period, p.subject)
  }

  lemma PlaceTook(w: Working, a: nat, period: string, subject: string, j: nat)
    requires a < |w.rows| && j < |w.rows|
    ensures Took(w, Place(w, a, period, subject, j), j, period, subject)
  {
    var r := Place(w, a, period, subject, j);
    forall k, c | 0 <= k < |w.rows| && (k != j || c != period)
      ensures Cell(r.rows[k], c) == Cell(w.rows[k], c)
    {
    }
  }

  /** A pass changes nothing exactly when the absent row has no subject in the period or no
      row of the pool is free in it; otherwise it makes exactly one placement. */
  lemma AssignEffect(w: Working, pool: seq<nat>, a: nat, period: string)
    requires a < |w.rows|
    ensures var r := Assign(w, pool, a, period);
            && (r == w <==> Trim(Cell(w.rows[a], period)) == "" ||
                            forall y :: y in pool ==> !IsFree(w.rows, w.busy, y, period))
            && (r != w ==> Placed(w, r, pool, a, period))
  {
    var r := Assign(w, pool, a, period);
    var subject := Trim(Cell(w.rows[a], period));
    var choice := LeastFree(w.rows, w.busy, w.workload, pool, period);
    if subject != "" && choice.Some? {
      var j := choice.value;
      assert r == Place(w, a, period, subject, j);
      PlaceTook(w, a, period, subject, j);
      assert |r.log| != |w.log|;
      assert r.log[..|w.log|] == w.log;
    }
  }

  /** A pass appends at most one placement to the log, for its own absent row and period. */
  lemma AssignAppends(w: Working, pool: seq<nat>, a: nat, period: string)
    requires a < |w.rows|
    ensures PassLog(w.log, Assign(w, pool, a, period).log, a, period)
  {
  }

  /** Dropping the last element of distinct values leaves distinct values without it. */
  lemma DistinctInit<T>(qs: seq<T>)
    requires Distinct(qs) && qs != []
    ensures Distinct(qs[..|qs| - 1]) && qs[|qs| - 1] !in qs[..|qs| - 1]
  {
    var init := qs[..|qs| - 1];
    forall i | 0 <= i < |init| ensures init[i] != qs[|qs| - 1] {
      assert init[i] == qs[i];
    }
  }

  /** Appending to a sequence that starts with a keeps it starting with a, and keeps its
      earlier elements. */
  lemma PrefixSnoc(a: seq<Pick>, b: seq<Pick>, p: Pick)
    requires |a| <= |b| && b[..|a|] == a
    ensures (b + [p])[..|a|] == a
    ensures forall i :: 0 <= i < |b| ==> (b + [p])[i] == b[i]
  {
    assert (b + [p])[..|a|] == b[..|a|];
  }

  /** One pass seen on the log alone: prev extends base with placements for row a in the
      periods init, and next is prev or prev with one placement for row a in period q. */
  predicate PassLog(prev: seq<Pick>, next: seq<Pick>, a: nat, q: string) {
    || next == prev
    || (|next| == |prev| + 1 && next == prev + [next[|prev|]] && next[|prev|].absentRow == a && next[|prev|].period == q)
  }

  lemma LogStep(base: seq<Pick>, prev: seq<Pick>, next: seq<Pick>, a: nat, init: seq<string>, q: string)
    requires |base| <= |prev| && prev[..|base|] == base
    requires forall i :: |base| <= i < |prev| ==> prev[i].absentRow == a && prev[i].period in init
    requires PassLog(prev, next, a, q)
    ensures |base| <= |next| && next[..|base|] == base
    ensures forall i :: |base| <= i < |next| ==> next[i].absentRow == a && next[i].period in init + [q]
  {
    if next != prev {
      PrefixSnoc(base, prev, next[|prev|]);
    }
  }

  lemma DistinctStep(base: seq<Pick>, prev: seq<Pick>, next: seq<Pick>, a: nat, init: seq<string>, q: string)
    requires |base| <= |prev| && prev[..|base|] == base
    requires forall i :: |base| <= i < |prev| ==> prev[i].period in init
    requires forall i, k :: |base| <= i < k < |prev| ==> prev[i].period != prev[k].period
    requires q !in init
    requires PassLog(prev, next, a, q)
    ensures forall i, k :: |base| <= i < k < |next| ==> next[i].period != next[k].period
  {
    if next != prev {
      PrefixSnoc(base, prev, next[|prev|]);
    }
  }

  /** The last pass of the period loop, seen on the log. */
  lemma RunPeriodsPass(w: Working, pool: seq<nat>, a: nat, qs: seq<string>)
    requires a < |w.rows| && qs != []
    ensures PassLog(RunPeriods(w, pool, a, qs[..|qs| - 1]).log, RunPeriods(w, pool, a, qs).log, a, qs[|qs| - 1])
  {
    AssignAppends(RunPeriods(w, pool, a, qs[..|qs| - 1]), pool, a, qs[|qs| - 1]);
  }

  /** The period loop for absent row a only appends to the log, and every placement it appends
      is for row a in one of the periods it went through. */
  lemma {:induction false} RunPeriodsAppends(w: Working, pool: seq<nat>, a: nat, qs: seq<string>)
    requires a < |w.rows|
    ensures var r := RunPeriods(w, pool, a, qs);
            && |w.log| <= |r.log| && r.log[..|w.log|] == w.log
            && (forall i :: |w.log| <= i < |r.log| ==> r.log[i].absentRow == a && r.log[i].period in qs)
  {
    if qs != [] {
      var init := qs[..|qs| - 1];
      var q := qs[|qs| - 1];
      RunPeriodsAppends(w, pool, a, init);
      var prev := RunPeriods(w, pool, a, init);
      RunPeriodsPass(w, pool, a, qs);
      assert qs == init + [q];
      LogStep(w.log, prev.log, RunPeriods(w, pool, a, qs).log, a, init, q);
    }
  }

  /** With distinct periods, no two placements of the period loop share a period. */
  lemma {:induction false} RunPeriodsLog(w: Working, pool: seq<nat>, a: nat, qs: seq<string>)
    requires a < |w.rows|
    ensures var r := RunPeriods(w, pool, a, qs);
            && |w.log| <= |r.log| && r.log[..|w.log|] == w.log
            && (forall i :: |w.log| <= i < |r.log| ==> r.log[i].absentRow == a && r.log[i].period in qs)
            && (Distinct(qs) ==> forall i, k :: |w.log| <= i < k < |r.log| ==> r.log[i].period != r.log[k].period)
  {
    RunPeriodsAppends(w, pool, a, qs);
    if qs != [] && Distinct(qs) {
      var init := qs[..|qs| - 1];
      var q := qs[|qs| - 1];
      RunPeriodsLog(w, pool, a, init);
      var prev := RunPeriods(w, pool, a, init);
      RunPeriodsPass(w, pool, a, qs);
      DistinctInit(qs);
      DistinctStep(w.log, prev.log, RunPeriods(w, pool, a, qs).log, a, init, q);
    }
  }

  /** The absent-teacher loop only appends to the log, and every placement it appends is for
      one of the absent rows it went through. */
  lemma {:induction false} RunAbsenteesAppends(w: Working, pool: seq<nat>, s: seq<nat>, ps: seq<string>)
    requires forall a :: a in s ==> a < |w.rows|
    ensures var r := RunAbsentees(w, pool, s, ps);
            && |w.log| <= |r.log| && r.log[..|w.log|] == w.log
            && (forall i :: |w.log| <= i < |r.log| ==> r.log[i].absentRow in s)
  {
    if s != [] {
      var init := s[..|s| - 1];
      var a := s[|s| - 1];
      assert forall b :: b in init ==> b in s;
      assert a in s;
      RunAbsenteesAppends(w, pool, init, ps);
      var prev := RunAbsentees(w, pool, init, ps);
      var r := RunAbsentees(w, pool, s, ps);
      assert r == RunPeriods(prev, pool, a, ps);
      RunPeriodsLog(prev, pool, a, ps);
      assert r.log[..|w.log|] == w.log by {
        assert r.log[..|prev.log|] == prev.log;
        assert prev.log[..|w.log|] == w.log;
      }
      forall i | |w.log| <= i < |r.log| ensures r.log[i].absentRow in s {
        if i < |prev.log| {
          assert r.log[i] == prev.log[i];
        }
      }
    }
  }

  /** With the absent rows in increasing order and distinct periods, no two placements the
      absent-teacher loop appends are for the same absent row and period. */
  lemma {:induction false} RunAbsenteesSlots(w: Working, pool: seq<nat>, s: seq<nat>, ps: seq<string>)
    requires forall a :: a in s ==> a < |w.rows|
    requires Increasing(s) && Distinct(ps)
    ensures var r := RunAbsentees(w, pool, s, ps);
            forall i, k :: |w.log| <= i < k < |r.log| ==>
              !(r.log[i].absentRow == r.log[k].absentRow && r.log[i].period == r.log[k].period)
  {
    if s != [] {
      var init := s[..|s| - 1];
      var a := s[|s| - 1];
      assert forall b :: b in init ==> b in s;
      assert a in s;
      assert Increasing(init);
      assert a !in init by {
        forall i | 0 <= i < |init| ensures init[i] != a {
          assert init[i] == s[i];
        }
      }
      RunAbsenteesSlots(w, pool, init, ps);
      RunAbsenteesAppends(w, pool, init, ps);
      var prev := RunAbsentees(w, pool, init, ps);
      var r := RunAbsentees(w, pool, s, ps);
      assert r == RunPeriods(prev, pool, a, ps);
      RunPeriodsLog(prev, pool, a, ps);
      forall i, k | |w.log| <= i < k < |r.log|
        ensures !(r.log[i].absentRow == r.log[k].absentRow && r.log[i].period == r.log[k].period)
      {
        if k < |prev.log| {
          assert r.log[i] == prev.log[i] && r.log[k] == prev.log[k];
        } else if i < |prev.log| {
          assert r.log[i] == prev.log[i];
          assert r.log[i].absentRow in init;
        }
      }
    }
  }
}
