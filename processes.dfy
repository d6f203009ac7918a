/** Process records of the non-preemptive priority scheduler: the fields the
    user enters, the metrics the scheduler writes back, the validation rule
    for new records, and counts and sums over a run of records. */
module Processes {

  /** Number of slots in the global process table. */
  const Capacity: nat := 100

  /** The largest C `int`; the selection scan starts from it as its
      "no candidate yet" priority. */
  const IntMax: int := 0x7fff_ffff

  /** One row of the process table. `at`, `bt` and `priority` are the
      arrival time, burst time and priority (a lower number runs first);
      `ct`, `tat` and `wt` are the completion, turnaround and waiting time;
      the C flag `is_completed` (0 or 1) is a bool here. */
  datatype Process = Process(pid: int, at: int, bt: int, priority: int,
                             ct: int, tat: int, wt: int, isCompleted: bool)

  /** A slot of the zero-initialised global table that was never filled. */
  const Blank: Process := Process(0, 0, 0, 0, 0, 0, 0, false)

  /** The values `add_process` accepts. */
  predicate Admissible(pid: int, at: int, bt: int, priority: int)
  {
    pid > 0 && at >= 0 && bt > 0 && priority >= 0
  }

  /** The clock value at which a completed record started to run: the left
      edge of its bar in the Gantt chart. */
  function Start(p: Process): int
  {
    p.ct - p.bt
  }

  /** p and q carry the same user-entered fields. */
  predicate SameInputs(p: Process, q: Process)
  {
    p.pid == q.pid && p.at == q.at && p.bt == q.bt && p.priority == q.priority
  }

  /** What every filled slot satisfies: its inputs passed validation; its
      metrics are zero until it completes, and afterwards obey the metric
      equations, with a start no earlier than its arrival. */
  predicate WellFormed(p: Process)
  {
    && Admissible(p.pid, p.at, p.bt, p.priority)
    && if p.isCompleted then
         p.tat == p.ct - p.at && p.wt == p.tat - p.bt && p.at <= Start(p)
       else
         p.ct == 0 && p.tat == 0 && p.wt == 0
  }

  /** The record `add_process` writes into a fresh slot is well formed
      exactly when its values pass validation. */
  lemma FreshRecordWellFormed(pid: int, at: int, bt: int, priority: int)
    ensures Admissible(pid, at, bt, priority) <==> WellFormed(Process(pid, at, bt, priority, 0, 0, 0, false))
  {
  }

  function Tat(p: Process): int { p.tat }

  function Wt(p: Process): int { p.wt }

  /** How many of the records are completed. */
  function CountCompleted(s: seq<Process>): (n: nat)
    ensures n <= |s|
    ensures n == |s| <==> forall i :: 0 <= i < |s| ==> s[i].isCompleted
  {
    if s == [] then 0
    else
      var rest := CountCompleted(s[1..]);
      assert forall i :: 1 <= i < |s| ==> s[i] == s[1..][i - 1];
      (if s[0].isCompleted then 1 else 0) + rest
  }

  /** The sum of `f` over the completed records. */
  function SumCompleted(s: seq<Process>, f: Process -> int): int
  {
    if s == [] then 0
    else (if s[0].isCompleted then f(s[0]) else 0) + SumCompleted(s[1..], f)
  }

  /** Replacing one record changes the count of completed records by that
      record's own contribution only. */
  lemma {:induction false} CountCompletedUpdate(s: seq<Process>, i: int, q: Process)
    requires 0 <= i < |s|
    ensures CountCompleted(s[i := q])
         == CountCompleted(s) - (if s[i].isCompleted then 1 else 0) + (if q.isCompleted then 1 else 0)
  {
    if i > 0 {
      assert s[i := q][1..] == s[1..][i - 1 := q];
      CountCompletedUpdate(s[1..], i - 1, q);
    } else {
      assert s[i := q][1..] == s[1..];
    }
  }

  /** Replacing one record changes a sum over the completed records by that
      record's own contribution only. */
  lemma {:induction false} SumCompletedUpdate(s: seq<Process>, f: Process -> int, i: int, q: Process)
    requires 0 <= i < |s|
    ensures SumCompleted(s[i := q], f)
         == SumCompleted(s, f) - (if s[i].isCompleted then f(s[i]) else 0) + (if q.isCompleted then f(q) else 0)
  {
    if i > 0 {
      assert s[i := q][1..] == s[1..][i - 1 := q];
      SumCompletedUpdate(s[1..], f, i - 1, q);
    } else {
      assert s[i := q][1..] == s[1..];
    }
  }

  /** A table with a completed record has a positive count. */
  lemma {:induction false} CountCompletedPositive(s: seq<Process>, k: int)
    requires 0 <= k < |s| && s[k].isCompleted
    ensures CountCompleted(s) > 0
  {
    if k > 0 {
      assert s[1..][k - 1] == s[k];
      CountCompletedPositive(s[1..], k - 1);
    }
  }

  /** Before any record has completed, the count and every sum over
      completed records are 0. */
  lemma {:induction false} NoneCompleted(s: seq<Process>, f: Process -> int)
    requires forall i :: 0 <= i < |s| ==> !s[i].isCompleted
    ensures CountCompleted(s) == 0 && SumCompleted(s, f) == 0
  {
    if s != [] {
      assert forall i :: 0 <= i < |s| - 1 ==> s[1..][i] == s[i + 1];
      NoneCompleted(s[1..], f);
    }
  }

  /** The latest arrival time among the records (0 for none): no record
      arrives after it. */
  function Horizon(s: seq<Process>): (h: int)
    ensures forall i :: 0 <= i < |s| ==> s[i].at <= h
  {
    if s == [] then 0
    else
      var h := Horizon(s[1..]);
      assert forall i :: 1 <= i < |s| ==> s[i] == s[1..][i - 1];
      if s[0].at > h then s[0].at else h
  }
}
