/** Choosing the substitute for one period: the eligible rows are stable-sorted by their current
    workload and the first one that is free in that period is taken. */
module Selection {
  import opened Timetable
  import opened Eligibility

  datatype Option<T> = None | Some(value: T)

  /** busy_teachers[name]: the periods the name took over in this run (none if not a key). */
  function BusyOf(busy: map<string, set<string>>, name: string): set<string> {
    if name in busy then busy[name] else {}
  }

  /** workload[name]: how many periods the name took over in this run (0 if not a key). */
  function LoadOf(workload: map<string, int>, name: string): int {
    if name in workload then workload[name] else 0
  }

  /** busy_teachers[name].add(period). */
  function MarkBusy(busy: map<string, set<string>>, name: string, period: string): (r: map<string, set<string>>)
    ensures r.Keys == busy.Keys + {name}
    ensures BusyOf(r, name) == BusyOf(busy, name) + {period}
    ensures forall n :: n != name ==> BusyOf(r, n) == BusyOf(busy, n)
  {
    busy[name := BusyOf(busy, name) + {period}]
  }

  /** workload[name] += 1. */
  function Bump(workload: map<string, int>, name: string): (r: map<string, int>)
    ensures r.Keys == workload.Keys + {name}
    ensures LoadOf(r, name) == LoadOf(workload, name) + 1
    ensures forall n :: n != name ==> LoadOf(r, n) == LoadOf(workload, n)
  {
    workload[name := LoadOf(workload, name) + 1]
  }

  /** The workload of row j's name. */
  function Load(rows: seq<StaffRecord>, workload: map<string, int>, j: nat): int {
    if j < |rows| then LoadOf(workload, rows[j].name) else 0
  }

  /** Row j can take the period: its raw cell for the period is empty (a cell holding only
      whitespace counts as taken), and the period is not one its name already took over. */
  predicate IsFree(rows: seq<StaffRecord>, busy: map<string, set<string>>, j: nat, period: string) {
    j < |rows| && Cell(rows[j], period) == "" && period !in BusyOf(busy, rows[j].name)
  }

  /** The order in which candidates are tried: lower workload first, and on equal workload the
      earlier row first. */
  predicate Precedes(rows: seq<StaffRecord>, workload: map<string, int>, x: nat, y: nat) {
    || Load(rows, workload, x) < Load(rows, workload, y)
    || (Load(rows, workload, x) == Load(rows, workload, y) && x < y)
  }

  /** The reference choice: the free row of the pool that comes first in workload-then-row order,
      or None when no row of the pool is free. */
  function LeastFree(rows: seq<StaffRecord>, busy: map<string, set<string>>, workload: map<string, int>,
                     pool: seq<nat>, period: string): (r: Option<nat>)
    ensures r.Some? ==> r.value in pool && IsFree(rows, busy, r.value, period)
    ensures r.Some? ==> forall y :: y in pool && IsFree(rows, busy, y, period) && y != r.value ==>
                          Precedes(rows, workload, r.value, y)
    ensures r.None? <==> forall y :: y in pool ==> !IsFree(rows, busy, y, period)
  {
    if pool == [] then None
    else
      var x := pool[0];
      var rest := LeastFree(rows, busy, workload, pool[1..], period);
      assert forall y :: y in pool ==> y == x || y in pool[1..];
      if !IsFree(rows, busy, x, period) then rest
      else if rest.None? || x == rest.value || Precedes(rows, workload, x, rest.value) then Some(x)
      else rest
  }

  /** Puts x in front of the first element whose workload is not below its own. */
  function Insert(rows: seq<StaffRecord>, workload: map<string, int>, x: nat, s: seq<nat>): (r: seq<nat>)
    ensures multiset(r) == multiset(s) + multiset{x}
  {
    if s == [] then [x]
    else if Load(rows, workload, x) <= Load(rows, workload, s[0]) then [x] + s
    else
      assert s == [s[0]] + s[1..];
      [s[0]] + Insert(rows, workload, x, s[1..])
  }

  /** sorted(pool, key=workload): a stable sort by workload, so that rows of equal workload keep
      their order in the pool. */
  function SortByLoad(rows: seq<StaffRecord>, workload: map<string, int>, pool: seq<nat>): (r: seq<nat>)
    ensures multiset(r) == multiset(pool)
  {
    if pool == [] then []
    else
      assert pool == [pool[0]] + pool[1..];
      Insert(rows, workload, pool[0], SortByLoad(rows, workload, pool[1..]))
  }

  predicate InOrder(rows: seq<StaffRecord>, workload: map<string, int>, s: seq<nat>) {
    forall i, j :: 0 <= i < j < |s| ==> Precedes(rows, workload, s[i], s[j])
  }

  /** Putting h in front of an ordered sequence whose every element it precedes keeps it ordered. */
  lemma ConsInOrder(rows: seq<StaffRecord>, workload: map<string, int>, h: nat, u: seq<nat>)
    requires InOrder(rows, workload, u)
    requires forall k :: 0 <= k < |u| ==> Precedes(rows, workload, h, u[k])
    ensures InOrder(rows, workload, [h] + u)
  {
    var r := [h] + u;
    forall i, j | 0 <= i < j < |r| ensures Precedes(rows, workload, r[i], r[j]) {
      assert r[j] == u[j - 1];
      if i > 0 {
        assert r[i] == u[i - 1];
      }
    }
  }

  /** The tail of an ordered sequence is ordered. */
  lemma TailInOrder(rows: seq<StaffRecord>, workload: map<string, int>, s: seq<nat>)
    requires InOrder(rows, workload, s) && s != []
    ensures InOrder(rows, workload, s[1..])
  {
    var t := s[1..];
    forall i, j | 0 <= i < j < |t| ensures Precedes(rows, workload, t[i], t[j]) {
      assert t[i] == s[i + 1] && t[j] == s[j + 1];
    }
  }

  lemma {:induction false} InsertInOrder(rows: seq<StaffRecord>, workload: map<string, int>, x: nat, s: seq<nat>)
    requires InOrder(rows, workload, s)
    requires forall y :: y in s ==> x < y
    ensures InOrder(rows, workload, Insert(rows, workload, x, s))
  {
    if s == [] {
    } else if Load(rows, workload, x) <= Load(rows, workload, s[0]) {
      forall k | 0 <= k < |s| ensures Precedes(rows, workload, x, s[k]) {
        assert s[k] in s;
        if k > 0 {
          assert Precedes(rows, workload, s[0], s[k]);
        }
      }
      ConsInOrder(rows, workload, x, s);
    } else {
      var t := s[1..];
      TailInOrder(rows, workload, s);
      assert forall y :: y in t ==> y in s;
      InsertInOrder(rows, workload, x, t);
      var u := Insert(rows, workload, x, t);
      forall k | 0 <= k < |u| ensures Precedes(rows, workload, s[0], u[k]) {
        assert u[k] in multiset(u);
        if u[k] != x {
          assert u[k] in multiset(t);
          var m :| 0 <= m < |t| && t[m] == u[k];
          assert s[m + 1] == u[k];
        }
      }
      ConsInOrder(rows, workload, s[0], u);
    }
  }

  /** For a pool in row order, the stable sort lists the rows in workload-then-row order. */
  lemma {:induction false} SortByLoadInOrder(rows: seq<StaffRecord>, workload: map<string, int>, pool: seq<nat>)
    requires Increasing(pool)
    ensures InOrder(rows, workload, SortByLoad(rows, workload, pool))
  {
    if pool != [] {
      var t := pool[1..];
      assert Increasing(t) by {
        forall i, j | 0 <= i < j < |t| ensures t[i] < t[j] {
          assert t[i] == pool[i + 1] && t[j] == pool[j + 1];
        }
      }
      SortByLoadInOrder(rows, workload, t);
      var s := SortByLoad(rows, workload, t);
      forall y | y in s ensures pool[0] < y {
        assert y in multiset(s);
        var m :| 0 <= m < |t| && t[m] == y;
        assert pool[m + 1] == y;
      }
      InsertInOrder(rows, workload, pool[0], s);
    }
  }

  /** Scanning the sorted pool and taking the first free row gives the reference choice. */
  lemma FirstFreeIsLeast(rows: seq<StaffRecord>, busy: map<string, set<string>>, workload: map<string, int>,
                         pool: seq<nat>, period: string, m: nat)
    requires Increasing(pool)
    requires m < |SortByLoad(rows, workload, pool)|
    requires IsFree(rows, busy, SortByLoad(rows, workload, pool)[m], period)
    requires forall q :: 0 <= q < m ==> !IsFree(rows, busy, SortByLoad(rows, workload, pool)[q], period)
    ensures LeastFree(rows, busy, workload, pool, period) == Some(SortByLoad(rows, workload, pool)[m])
  {
    var sorted := SortByLoad(rows, workload, pool);
    var c := sorted[m];
    assert c in multiset(sorted);
    assert c in pool;
    var r := LeastFree(rows, busy, workload, pool, period);
    assert r.Some?;
    var v := r.value;
    if v != c {
      assert v in multiset(pool);
      assert v in multiset(sorted);
      var q :| 0 <= q < |sorted| && sorted[q] == v;
      assert q > m;
      SortByLoadInOrder(rows, workload, pool);
      assert false;
    }
  }

  /** When no row of the sorted pool is free, the reference choice is None. */
  lemma NoneFreeIsNone(rows: seq<StaffRecord>, busy: map<string, set<string>>, workload: map<string, int>,
                       pool: seq<nat>, period: string)
    requires forall q :: 0 <= q < |SortByLoad(rows, workload, pool)| ==>
               !IsFree(rows, busy, SortByLoad(rows, workload, pool)[q], period)
    ensures LeastFree(rows, busy, workload, pool, period) == None
  {
    var sorted := SortByLoad(rows, workload, pool);
    forall y | y in pool ensures !IsFree(rows, busy, y, period) {
      assert y in multiset(sorted);
      var q :| 0 <= q < |sorted| && sorted[q] == y;
    }
  }

  /** for current_teacher in candidates: ... break. The index of the first candidate whose cell
      for the period is empty and whose name has not taken the period yet, or |s| if none is. */
  method FirstFree(rows: seq<StaffRecord>, busy: map<string, set<string>>, s: seq<nat>, period: string)
    returns (k: nat)
    requires forall x :: x in s ==> x < |rows|
    ensures k <= |s|
    ensures k < |s| ==> IsFree(rows, busy, s[k], period)
    ensures forall q :: 0 <= q < k ==> !IsFree(rows, busy, s[q], period)
  {
    k := 0;
    while k < |s|
      invariant 0 <= k <= |s|
      invariant forall q :: 0 <= q < k ==> !IsFree(rows, busy, s[q], period)
    {
      var candidate := s[k];
      assert candidate in s;
      var name := rows[candidate].name;
      if Cell(rows[candidate], period) == "" && period !in BusyOf(busy, name) {
        return;
      }
      k := k + 1;
    }
  }

  /** The inner loop of the planner up to the placement: sort the pool by current workload and
      return the first row whose cell is empty and whose name has not taken the period yet. */
  method ChooseSubstitute(rows: seq<StaffRecord>, busy: map<string, set<string>>, workload: map<string, int>,
                          pool: seq<nat>, period: string) returns (choice: Option<nat>)
    requires Increasing(pool)
    requires forall j :: j in pool ==> j < |rows|
    ensures choice == LeastFree(rows, busy, workload, pool, period)
  {
    var sorted := SortByLoad(rows, workload, pool);
    assert forall x :: x in sorted ==> x in pool by {
      forall x | x in sorted ensures x in pool {
        assert x in multiset(sorted);
      }
    }
    var m := FirstFree(rows, busy, sorted, period);
    if m < |sorted| {
      FirstFreeIsLeast(rows, busy, workload, pool, period, m);
      choice := Some(sorted[m]);
    } else {
      NoneFreeIsNone(rows, busy, workload, pool, period);
      choice := None;
    }
  }
}
