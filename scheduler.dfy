/** The scheduling decision of `simulate` and one iteration of its loop, as
    functions on the table's contents, with the invariant the loop keeps and
    the schedule it produces. */
module Scheduler {
  import opened Processes

  /** Record p can be picked at clock st: it has arrived and has not run. */
  predicate Ready(p: Process, st: int)
  {
    p.at <= st && !p.isCompleted
  }

  /** Record p at index i goes before record q at index j: a lower priority
      number first, the lower index (earlier insertion) on equal priority. */
  predicate Precedes(p: Process, i: int, q: Process, j: int)
  {
    p.priority < q.priority || (p.priority == q.priority && i < j)
  }

  /** Index i is the record to run among the first n records at clock st:
      it is ready and goes before every other ready record. */
  ghost predicate IsChoice(s: seq<Process>, st: int, n: nat, i: int)
    requires n <= |s|
  {
    && 0 <= i < n
    && Ready(s[i], st)
    && forall j :: 0 <= j < n && j != i && Ready(s[j], st) ==> Precedes(s[i], i, s[j], j)
  }

  /** At most one index is the choice. */
  lemma ChoiceUnique(s: seq<Process>, st: int, n: nat, i: int, j: int)
    requires n <= |s|
    requires IsChoice(s, st, n, i) && IsChoice(s, st, n, j)
    ensures i == j
  {
  }

  /** The index the selection scan holds after visiting the first n records
      (-1 for none), with the "no candidate yet" case tested explicitly. */
  function Scan(s: seq<Process>, st: int, n: nat): (idx: int)
    requires n <= |s|
    ensures -1 <= idx < n
    ensures idx == -1 <==> forall j :: 0 <= j < n ==> !Ready(s[j], st)
    ensures idx != -1 ==> IsChoice(s, st, n, idx)
  {
    if n == 0 then -1
    else
      var idx := Scan(s, st, n - 1);
      if Ready(s[n - 1], st) && (idx == -1 || s[n - 1].priority < s[idx].priority) then n - 1 else idx
  }

  /** The scan as the C code writes it: the pair (idx, highest_priority)
      after n records, starting from (-1, INT_MAX) and replacing it only on a
      strictly smaller priority. */
  function ScanAsWritten(s: seq<Process>, st: int, n: nat): (r: (int, int))
    requires n <= |s|
    ensures -1 <= r.0 < n
    ensures r.0 == -1 ==> r.1 == IntMax
    ensures r.0 != -1 ==> Ready(s[r.0], st) && r.1 == s[r.0].priority && r.1 < IntMax
  {
    if n == 0 then (-1, IntMax)
    else
      var (idx, highest) := ScanAsWritten(s, st, n - 1);
      var p := s[n - 1];
      if p.at <= st && !p.isCompleted && p.priority < highest then (n - 1, p.priority) else (idx, highest)
  }

  /** While every priority is below INT_MAX the scan as written picks
      exactly the record `Scan` picks. */
  lemma {:induction false} ScanAsWrittenAgrees(s: seq<Process>, st: int, n: nat)
    requires n <= |s|
    requires forall j :: 0 <= j < n ==> s[j].priority < IntMax
    ensures Scan(s, st, n) == ScanAsWritten(s, st, n).0
    ensures ScanAsWritten(s, st, n).1 == if Scan(s, st, n) == -1 then IntMax else s[Scan(s, st, n)].priority
  {
    if n > 0 {
      ScanAsWrittenAgrees(s, st, n - 1);
    }
  }

  /** The scan as written never picks a record of priority INT_MAX, and
      finds nothing when every ready record has that priority, even though
      `Scan` then picks one of them. */
  lemma ScanAsWrittenStarves(s: seq<Process>, st: int, n: nat)
    requires n <= |s|
    ensures forall i :: 0 <= i < n && s[i].priority >= IntMax ==> ScanAsWritten(s, st, n).0 != i
    ensures (forall j :: 0 <= j < n && Ready(s[j], st) ==> s[j].priority >= IntMax) ==>
              ScanAsWritten(s, st, n).0 == -1
  {
  }

  /** A table holding one record of priority INT_MAX that arrives at 0: at
      every clock value it is ready and `Scan` picks it, but the scan as
      written finds nothing, so the loop only idles. */
  lemma ScanAsWrittenStarvesSingle(st: int)
    requires st >= 0
    ensures var s := [Process(1, 0, 1, IntMax, 0, 0, 0, false)];
            Ready(s[0], st) && Scan(s, st, 1) == 0 && ScanAsWritten(s, st, 1).0 == -1
  {
    ScanAsWrittenStarves([Process(1, 0, 1, IntMax, 0, 0, 0, false)], st, 1);
  }

  /** The state of one `simulate` call: the table, the clock `st`, the
      counter `completed`, the running totals, and the indices of the
      records in the order their completion was reported. */
  datatype Sim = Sim(procs: seq<Process>, st: int, completed: int,
                     totalTat: int, totalWt: int, log: seq<int>)

  /** Record p run to completion from clock st. */
  function Finish(p: Process, st: int): (q: Process)
    ensures SameInputs(q, p) && q.isCompleted && q.ct == st + p.bt
  {
    var ct := st + p.bt;
    var tat := ct - p.at;
    p.(ct := ct, tat := tat, wt := tat - p.bt, isCompleted := true)
  }

  /** s' is s after some records ran: the same records with the same
      inputs, and every record already completed in s left untouched. */
  predicate Advances(s: seq<Process>, s': seq<Process>)
  {
    && |s'| == |s|
    && (forall j :: 0 <= j < |s| ==> SameInputs(s'[j], s[j]))
    && (forall j :: 0 <= j < |s| && s[j].isCompleted ==> s'[j] == s[j])
  }

  /** One iteration of the loop: idle for one time unit when nothing is
      ready, otherwise run the chosen record to completion. */
  function Step(z: Sim): (r: Sim)
    ensures Advances(z.procs, r.procs)
    ensures (forall j :: 0 <= j < |z.procs| ==> z.procs[j].bt > 0) ==> r.st > z.st
  {
    var idx := Scan(z.procs, z.st, |z.procs|);
    if idx == -1 then z.(st := z.st + 1)
    else
      var q := Finish(z.procs[idx], z.st);
      Sim(z.procs[idx := q], q.ct, z.completed + 1, z.totalTat + q.tat, z.totalWt + q.wt, z.log + [idx])
  }

  /** With nothing ready, an iteration advances the clock by one and
      changes nothing else. */
  lemma StepIdles(z: Sim)
    requires forall j :: 0 <= j < |z.procs| ==> !Ready(z.procs[j], z.st)
    ensures Step(z) == z.(st := z.st + 1)
  {
  }

  /** With record i the choice, an iteration runs record i and no other:
      it completes at st + bt, its metrics obey the metric equations, the
      totals and the counter grow by its share, and it is reported. */
  lemma StepRuns(z: Sim, i: int)
    requires IsChoice(z.procs, z.st, |z.procs|, i)
    ensures var q := Finish(z.procs[i], z.st);
            Step(z) == Sim(z.procs[i := q], q.ct, z.completed + 1, z.totalTat + q.tat, z.totalWt + q.wt, z.log + [i])
  {
    ChoiceUnique(z.procs, z.st, |z.procs|, i, Scan(z.procs, z.st, |z.procs|));
  }

  // ---------------------------------------------------------------------
  // Properties of a table in the middle of, or after, a run

  /** The filled slots keep the inputs of `init` and are well formed. */
  ghost predicate SameJobs(s: seq<Process>, init: seq<Process>)
  {
    && |s| == |init|
    && forall i :: 0 <= i < |s| ==> SameInputs(s[i], init[i]) && WellFormed(s[i])
  }

  /** Every completed record completed at or before clock st. */
  ghost predicate FinishedBy(s: seq<Process>, st: int)
  {
    forall i :: 0 <= i < |s| && s[i].isCompleted ==> s[i].ct <= st
  }

  /** The run intervals [ct - bt, ct] of distinct completed records do not
      overlap. */
  ghost predicate Disjoint(s: seq<Process>)
  {
    forall i, j :: 0 <= i < |s| && 0 <= j < |s| && i != j && s[i].isCompleted && s[j].isCompleted ==>
      s[i].ct <= Start(s[j]) || s[j].ct <= Start(s[i])
  }

  /** Whenever a record i started, it went before every other record that
      had arrived by then and was still waiting (not completed at all, or
      completed after i). */
  ghost predicate RespectsPriority(s: seq<Process>)
  {
    forall i, j ::
      (0 <= i < |s| && 0 <= j < |s| && i != j && s[i].isCompleted
       && s[j].at <= Start(s[i]) && (!s[j].isCompleted || s[i].ct < s[j].ct)) ==>
      Precedes(s[i], i, s[j], j)
  }

  /** Some completed record was running during [t, t + 1). */
  ghost predicate Covered(s: seq<Process>, t: int)
  {
    exists j :: 0 <= j < |s| && s[j].isCompleted && Start(s[j]) <= t < s[j].ct
  }

  /** Before clock st, every time unit in which nothing ran was one in
      which every record that had arrived was already finished. */
  ghost predicate IdleOnlyWhenNothingWaits(s: seq<Process>, st: int)
  {
    forall t :: t < st && !Covered(s, t) ==>
      forall j :: 0 <= j < |s| && s[j].at <= t ==> s[j].isCompleted && s[j].ct <= t
  }

  /** From its arrival to its start, some other record was always running
      while a completed record waited. */
  ghost predicate WorkConserving(s: seq<Process>)
  {
    forall i, t :: 0 <= i < |s| && s[i].isCompleted && s[i].at <= t < Start(s[i]) ==> Covered(s, t)
  }

  /** The report order lists completed records only, with strictly
      increasing completion times, and lists every completed record. */
  ghost predicate LogOrdered(s: seq<Process>, log: seq<int>)
  {
    && (forall k :: 0 <= k < |log| ==> 0 <= log[k] < |s| && s[log[k]].isCompleted)
    && (forall k, l :: 0 <= k < l < |log| ==> s[log[k]].ct < s[log[l]].ct)
    && (forall i :: 0 <= i < |s| && s[i].isCompleted ==> i in log)
  }

  /** The loop invariant of `simulate`, for a run that started from `init`. */
  ghost predicate Inv(z: Sim, init: seq<Process>)
  {
    && SameJobs(z.procs, init)
    && FinishedBy(z.procs, z.st)
    && z.completed == CountCompleted(z.procs) == |z.log|
    && z.totalTat == SumCompleted(z.procs, Tat)
    && z.totalWt == SumCompleted(z.procs, Wt)
    && Disjoint(z.procs)
    && RespectsPriority(z.procs)
    && IdleOnlyWhenNothingWaits(z.procs, z.st)
    && LogOrdered(z.procs, z.log)
  }

  /** A finished run from `init`: every record completed, with the same
      inputs and the metric equations; the bars do not overlap; the priority
      rule held at each start; the processor never idled while a record
      waited; `log` reports every record once, by completion time. */
  ghost predicate Scheduled(init: seq<Process>, s: seq<Process>, log: seq<int>)
  {
    && SameJobs(s, init)
    && (forall i :: 0 <= i < |s| ==> s[i].isCompleted)
    && Disjoint(s)
    && RespectsPriority(s)
    && WorkConserving(s)
    && LogOrdered(s, log)
    && |log| == |s|
  }

  /** The invariant holds when the loop is entered on a table in which no
      record has completed. */
  lemma InvInit(init: seq<Process>)
    requires forall i :: 0 <= i < |init| ==> WellFormed(init[i]) && !init[i].isCompleted
    ensures Inv(Sim(init, 0, 0, 0, 0, []), init)
  {
    NoneCompleted(init, Tat);
    NoneCompleted(init, Wt);
  }

  /** An idle iteration keeps the invariant. */
  lemma IdlePreservesInv(z: Sim, init: seq<Process>)
    requires Inv(z, init)
    requires Scan(z.procs, z.st, |z.procs|) == -1
    ensures Inv(Step(z), init)
  {
    var s, st := z.procs, z.st;
    forall t | t < st + 1 && !Covered(s, t)
      ensures forall j :: 0 <= j < |s| && s[j].at <= t ==> s[j].isCompleted && s[j].ct <= t
    {
      if t == st {
        assert forall j :: 0 <= j < |s| ==> !Ready(s[j], st);
      }
    }
  }

  /** Running the chosen record keeps every record's inputs, keeps the
      table well formed, and is finished by its own completion time. */
  lemma RunKeepsJobs(s: seq<Process>, st: int, i: int, init: seq<Process>)
    requires 0 <= i < |s| && Ready(s[i], st)
    requires SameJobs(s, init) && FinishedBy(s, st)
    ensures SameJobs(s[i := Finish(s[i], st)], init)
    ensures FinishedBy(s[i := Finish(s[i], st)], st + s[i].bt)
  {
    assert WellFormed(s[i]) && SameInputs(s[i], init[i]);
  }

  /** Running the chosen record keeps the run intervals disjoint. */
  lemma RunKeepsDisjoint(s: seq<Process>, st: int, i: int)
    requires 0 <= i < |s| && Ready(s[i], st)
    requires FinishedBy(s, st) && Disjoint(s)
    ensures Disjoint(s[i := Finish(s[i], st)])
  {
  }

  /** Running the chosen record keeps the priority rule. */
  lemma RunKeepsPriority(s: seq<Process>, st: int, i: int)
    requires IsChoice(s, st, |s|, i)
    requires FinishedBy(s, st) && RespectsPriority(s)
    requires forall j :: 0 <= j < |s| ==> s[j].bt > 0
    ensures RespectsPriority(s[i := Finish(s[i], st)])
  {
    var s' := s[i := Finish(s[i], st)];
    forall a, b | 0 <= a < |s'| && 0 <= b < |s'| && a != b && s'[a].isCompleted
      && s'[b].at <= Start(s'[a]) && (!s'[b].isCompleted || s'[a].ct < s'[b].ct)
      ensures Precedes(s'[a], a, s'[b], b)
    {
      if a == i {
        assert Ready(s[b], st);
      } else if b == i {
        assert Precedes(s[a], a, s[b], b);
      } else {
        assert Precedes(s[a], a, s[b], b);
      }
    }
  }

  /** Running the chosen record keeps "idle only when nothing waits". */
  lemma RunKeepsNoIdle(s: seq<Process>, st: int, i: int)
    requires 0 <= i < |s| && Ready(s[i], st) && s[i].bt > 0
    requires FinishedBy(s, st) && IdleOnlyWhenNothingWaits(s, st)
    ensures IdleOnlyWhenNothingWaits(s[i := Finish(s[i], st)], st + s[i].bt)
  {
    var s' := s[i := Finish(s[i], st)];
    forall t | st <= t < st + s[i].bt
      ensures Covered(s', t)
    {
      assert 0 <= i < |s'| && s'[i].isCompleted && Start(s'[i]) <= t < s'[i].ct;
    }
    forall t | Covered(s, t)
      ensures Covered(s', t)
    {
      var j :| 0 <= j < |s| && s[j].isCompleted && Start(s[j]) <= t < s[j].ct;
      assert s'[j] == s[j];
    }
  }

  /** Running the chosen record appends it to the report order. */
  lemma RunKeepsLog(s: seq<Process>, st: int, i: int, log: seq<int>)
    requires 0 <= i < |s| && Ready(s[i], st) && s[i].bt > 0
    requires FinishedBy(s, st) && LogOrdered(s, log)
    ensures LogOrdered(s[i := Finish(s[i], st)], log + [i])
  {
    var s' := s[i := Finish(s[i], st)];
    var log' := log + [i];
    assert forall k :: 0 <= k < |log| ==> log'[k] == log[k] && log[k] != i && s'[log[k]] == s[log[k]];
  }

  /** A completing iteration keeps the invariant. */
  lemma RunPreservesInv(z: Sim, init: seq<Process>)
    requires Inv(z, init)
    requires Scan(z.procs, z.st, |z.procs|) != -1
    ensures Inv(Step(z), init)
  {
    var i := Scan(z.procs, z.st, |z.procs|);
    StepRuns(z, i);
    RunKeepsInv(z, init, i);
  }

  /** Running record i, the choice at the current clock, keeps the invariant. */
  lemma RunKeepsInv(z: Sim, init: seq<Process>, i: int)
    requires Inv(z, init)
    requires IsChoice(z.procs, z.st, |z.procs|, i)
    ensures var q := Finish(z.procs[i], z.st);
            Inv(Sim(z.procs[i := q], q.ct, z.completed + 1, z.totalTat + q.tat, z.totalWt + q.wt, z.log + [i]), init)
  {
    var s, st := z.procs, z.st;
    var q := Finish(s[i], st);
    assert s[i].bt > 0 by {
      assert WellFormed(s[i]);
    }
    RunKeepsJobs(s, st, i, init);
    CountCompletedUpdate(s, i, q);
    SumCompletedUpdate(s, Tat, i, q);
    SumCompletedUpdate(s, Wt, i, q);
    RunKeepsDisjoint(s, st, i);
    RunKeepsPriority(s, st, i);
    RunKeepsNoIdle(s, st, i);
    RunKeepsLog(s, st, i, z.log);
  }

  /** Every iteration keeps the invariant. */
  lemma StepPreservesInv(z: Sim, init: seq<Process>)
    requires Inv(z, init)
    ensures Inv(Step(z), init)
  {
    if Scan(z.procs, z.st, |z.procs|) == -1 {
      IdlePreservesInv(z, init);
    } else {
      RunPreservesInv(z, init);
    }
  }

  /** While records remain, an iteration either completes one more record
      or idles at a clock value below the latest arrival: the loop ends. */
  lemma StepProgress(z: Sim, init: seq<Process>)
    requires Inv(z, init) && z.completed < |z.procs|
    ensures Step(z).completed == z.completed + 1
         || (Step(z).completed == z.completed && Step(z).st == z.st + 1 && z.st < Horizon(init))
  {
    var s := z.procs;
    if Scan(s, z.st, |s|) == -1 {
      var j :| 0 <= j < |s| && !s[j].isCompleted;
      assert !Ready(s[j], z.st);
      assert init[j].at == s[j].at;
    }
  }

  /** When the counter reaches the number of records, the run is finished
      and its schedule is `Scheduled`. */
  lemma InvFinal(z: Sim, init: seq<Process>)
    requires Inv(z, init) && z.completed >= |z.procs|
    ensures Scheduled(init, z.procs, z.log)
  {
    var s := z.procs;
    forall i, t | 0 <= i < |s| && s[i].isCompleted && s[i].at <= t < Start(s[i])
      ensures Covered(s, t)
    {
      assert WellFormed(s[i]);
    }
  }

  /** n iterations of the loop. */
  function Steps(z: Sim, n: nat): Sim
    decreases n
  {
    if n == 0 then z else Step(Steps(z, n - 1))
  }

  /** While every record is completed or has not yet arrived, each
      iteration only advances the clock by one. */
  lemma {:induction false} IdleUntilArrival(z: Sim, n: nat)
    requires forall j :: 0 <= j < |z.procs| ==> z.procs[j].isCompleted || z.st + n <= z.procs[j].at
    ensures Steps(z, n) == z.(st := z.st + n)
  {
    if n > 0 {
      IdleUntilArrival(z, n - 1);
      StepIdles(z.(st := z.st + (n - 1)));
    }
  }

  /** On a table whose every record is already completed (a second
      `simulate`, where the counter restarts at 0), every iteration only
      idles, so the counter never reaches the number of records. */
  lemma RerunOnlyIdles(z: Sim, n: nat)
    requires forall i :: 0 <= i < |z.procs| ==> z.procs[i].isCompleted
    ensures Steps(z, n) == z.(st := z.st + n)
    ensures Steps(z, n).completed == z.completed
  {
    IdleUntilArrival(z, n);
  }

  /** The counter moves exactly as much as the number of completed
      records does: an iteration completes at most one record, and only one
      that was not completed before. */
  lemma StepCounts(z: Sim)
    ensures Step(z).completed - z.completed == CountCompleted(Step(z).procs) - CountCompleted(z.procs)
  {
    var i := Scan(z.procs, z.st, |z.procs|);
    if i == -1 {
      StepIdles(z);
    } else {
      StepRuns(z, i);
      CountCompletedUpdate(z.procs, i, Finish(z.procs[i], z.st));
    }
  }

  /** Over n iterations, the counter grows by the number of records that
      became completed. */
  lemma {:induction false} StepsCount(z: Sim, n: nat)
    ensures |Steps(z, n).procs| == |z.procs|
    ensures Steps(z, n).completed - z.completed == CountCompleted(Steps(z, n).procs) - CountCompleted(z.procs)
  {
    if n > 0 {
      StepsCount(z, n - 1);
      StepCounts(Steps(z, n - 1));
    }
  }

  /** A `simulate` started, with the counter at 0, on a table in which some
      record k is already completed (a run after an earlier one, perhaps
      with records added since) never leaves the loop: after any number of
      iterations the counter is still below the number of records. */
  lemma RerunNeverEnds(z: Sim, n: nat, k: int)
    requires z.completed == 0
    requires 0 <= k < |z.procs| && z.procs[k].isCompleted
    ensures Steps(z, n).completed < |z.procs|
  {
    StepsCount(z, n);
    CountCompletedPositive(z.procs, k);
  }

  /** Record p run from clock st when it is ready: the result is a
      well-formed completed record that started at st. */
  lemma FinishWellFormed(p: Process, st: int)
    requires Ready(p, st) && WellFormed(p)
    ensures WellFormed(Finish(p, st)) && Start(Finish(p, st)) == st
    ensures Finish(p, st).wt == st - p.at
  {
  }

  /** A single record: the loop idles until it arrives, then runs it at
      once, so its turnaround is its burst and it never waits. */
  lemma {:induction false} SingleRecordRun(p: Process)
    requires !p.isCompleted && p.at >= 0
    ensures Steps(Sim([p], 0, 0, 0, 0, []), p.at + 1)
         == Sim([Finish(p, p.at)], p.at + p.bt, 1, p.bt, 0, [0])
  {
    var z0 := Sim([p], 0, 0, 0, 0, []);
    IdleUntilArrival(z0, p.at);
    var za := z0.(st := p.at);
    assert IsChoice(za.procs, p.at, 1, 0);
    StepRuns(za, 0);
  }

  /** Two records arriving together at 0: the one with the smaller priority
      number runs first, from 0 to its burst, and the other runs right after
      it and waits exactly that long. */
  lemma {:induction false} TwoArriveTogether(a: Process, b: Process)
    requires !a.isCompleted && !b.isCompleted && a.at == 0 && b.at == 0
    requires b.priority < a.priority && b.bt > 0
    ensures Steps(Sim([a, b], 0, 0, 0, 0, []), 2)
         == Sim([Finish(a, b.bt), Finish(b, 0)], b.bt + a.bt, 2, b.bt + (b.bt + a.bt), b.bt, [1, 0])
  {
    var z0 := Sim([a, b], 0, 0, 0, 0, []);
    assert IsChoice(z0.procs, 0, 2, 1);
    StepRuns(z0, 1);
    var z1 := Sim([a, Finish(b, 0)], b.bt, 1, b.bt, 0, [1]);
    assert Steps(z0, 1) == z1;
    assert IsChoice(z1.procs, b.bt, 2, 0);
    StepRuns(z1, 0);
  }
}
