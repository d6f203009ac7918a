/** The global process table and the two button handlers that act on it:
    `add_process`, which validates and appends a record, and `simulate`,
    which runs the scheduling loop and writes the metrics into the table;
    and the bar geometry that the chart's draw handler reads from it. */
module Store {
  import opened Processes
  import opened Scheduler
  import opened Gantt

  /** What `simulate` reports: the "No processes to simulate!" message, or
      the two totals the averages are computed from. */
  datatype Outcome = NoProcesses | Finished(totalTat: int, totalWt: int)

  /** The table `processes[100]` with its fill counter `process_count`. */
  class ProcessStore {
    var processes: array<Process>
    var count: nat

    /** The slots below `count` hold well-formed records; the slots from
        `count` on were never written and still hold zeroes. */
    ghost predicate Valid()
      reads this, processes
    {
      && processes.Length == Capacity
      && count <= Capacity
      && (forall i :: 0 <= i < count ==> WellFormed(processes[i]))
      && (forall i :: count <= i < Capacity ==> processes[i] == Blank)
    }

    /** The filled part of the table, in insertion order. */
    ghost function Contents(): seq<Process>
      reads this, processes
      requires Valid()
    {
      processes[..count]
    }

    /** The zero-initialised global table, before any record is added. */
    constructor ()
      ensures Valid() && fresh(processes)
      ensures Contents() == []
    {
      processes := new Process[Capacity](_ => Blank);
      count := 0;
    }

    /** Adds a record unless one of its fields is out of range; the table
        has no bound check, so a valid record needs a free slot. */
    method AddProcess(pid: int, at: int, bt: int, priority: int) returns (ok: bool)
      requires Valid()
      requires Admissible(pid, at, bt, priority) ==> count < Capacity
      modifies this, processes
      ensures Valid() && processes == old(processes)
      ensures ok <==> Admissible(pid, at, bt, priority)
      ensures ok ==> count == old(count) + 1
      ensures !ok ==> count == old(count) && unchanged(processes)
      ensures Contents() == if ok then old(Contents()) + [Process(pid, at, bt, priority, 0, 0, 0, false)]
                            else old(Contents())
    {
      if pid <= 0 || at < 0 || bt <= 0 || priority < 0 {
        return false;
      }
      processes[count] := processes[count].(pid := pid, at := at, bt := bt, priority := priority);
      processes[count] := processes[count].(isCompleted := false);
      count := count + 1;
      ok := true;
    }

    /** Runs non-preemptive priority scheduling over the table, writing each
        record's completion, turnaround and waiting time in place. `log` is
        the sequence of table indices whose completion was announced. The
        loop never ends on a table with a completed record, so none may be. */
    method Simulate() returns (r: Outcome, log: seq<int>)
      requires Valid()
      requires forall i :: 0 <= i < count ==> !processes[i].isCompleted
      modifies processes
      ensures Valid()
      ensures count == 0 ==> r == NoProcesses && log == [] && unchanged(processes)
      ensures count > 0 ==> r.Finished? && Scheduled(old(Contents()), Contents(), log)
      ensures count > 0 ==> r.totalTat == SumCompleted(Contents(), Tat)
      ensures count > 0 ==> r.totalWt == SumCompleted(Contents(), Wt)
    {
      if count == 0 {
        return NoProcesses, [];
      }
      ghost var init := processes[..count];
      ghost var horizon := Horizon(init);
      var st := 0;
      var totalTat := 0;
      var totalWt := 0;
      var completed := 0;
      log := [];
      InvInit(init);
      while completed < count
        invariant Valid()
        invariant Inv(Sim(Contents(), st, completed, totalTat, totalWt, log), init)
        decreases count - completed, horizon - st
      {
        ghost var z := Sim(Contents(), st, completed, totalTat, totalWt, log);
        StepProgress(z, init);
        StepPreservesInv(z, init);
        st, completed, totalTat, totalWt, log := Iterate(st, completed, totalTat, totalWt, log);
      }
      InvFinal(Sim(Contents(), st, completed, totalTat, totalWt, log), init);
      r := Finished(totalTat, totalWt);
    }

    /** The selection scan of one loop iteration: the arrived, unfinished
        record with the smallest priority, the first one on a tie, or -1. */
    method SelectNext(st: int) returns (idx: int)
      requires Valid()
      ensures idx == Scan(Contents(), st, count)
      ensures idx == -1 <==> forall j :: 0 <= j < count ==> !Ready(processes[j], st)
      ensures idx != -1 ==> IsChoice(Contents(), st, count, idx)
    {
      ghost var s := Contents();
      idx := -1;
      var highest := IntMax;
      for i := 0 to count
        invariant idx == Scan(s, st, i)
        invariant idx != -1 ==> highest == s[idx].priority
      {
        assert processes[i] == s[i];
        if processes[i].at <= st && !processes[i].isCompleted && (idx == -1 || processes[i].priority < highest) {
          highest := processes[i].priority;
          idx := i;
        }
      }
    }

    /** One pass of the scheduling loop: the selection scan, then either one
        idle time unit or the chosen record run to completion, its metrics
        written into its slot and added to the totals, and its index
        reported. */
    method Iterate(st: int, completed: int, totalTat: int, totalWt: int, log: seq<int>)
      returns (st': int, completed': int, totalTat': int, totalWt': int, log': seq<int>)
      requires Valid()
      modifies processes
      ensures Valid()
      ensures Sim(Contents(), st', completed', totalTat', totalWt', log')
           == Step(Sim(old(Contents()), st, completed, totalTat, totalWt, log))
    {
      st', completed', totalTat', totalWt', log' := st, completed, totalTat, totalWt, log;
      var idx := SelectNext(st);
      if idx == -1 {
        st' := st' + 1;
        return;
      }
      ghost var q := Finish(processes[idx], st);
      RunToCompletion(idx, st);
      assert processes[idx] == Contents()[idx] == q;
      st' := processes[idx].ct;
      totalTat' := totalTat' + processes[idx].tat;
      totalWt' := totalWt' + processes[idx].wt;
      completed' := completed' + 1;
      log' := log' + [idx];
    }

    /** Runs record idx to completion from clock st: `st += bt`, then the
        completion, turnaround and waiting time are written into its slot
        and it is marked completed. */
    method RunToCompletion(idx: int, st: int)
      requires Valid()
      requires 0 <= idx < count && Ready(processes[idx], st)
      modifies processes
      ensures Valid()
      ensures Contents() == old(Contents())[idx := Finish(old(processes[idx]), st)]
    {
      var clock := st + processes[idx].bt;
      processes[idx] := processes[idx].(ct := clock);
      processes[idx] := processes[idx].(tat := processes[idx].ct - processes[idx].at);
      processes[idx] := processes[idx].(wt := processes[idx].tat - processes[idx].bt);
      processes[idx] := processes[idx].(isCompleted := true);
    }

    /** The bars the chart draws: one per completed record, in table order,
        each spanning [ct - bt, ct] scaled to pixels. */
    method GanttBars() returns (bars: seq<Bar>)
      requires Valid()
      ensures BarsFor(Contents(), bars)
    {
      ghost var s := Contents();
      bars := [];
      for i := 0 to count
        invariant forall k :: 0 <= k < |bars| ==>
                    0 <= bars[k].index < i && s[bars[k].index].isCompleted
                    && bars[k] == BarOf(s[bars[k].index], bars[k].index)
        invariant forall j :: 0 <= j < i && s[j].isCompleted ==> Listed(bars, j)
        invariant forall k, l :: 0 <= k < l < |bars| ==> bars[k].index < bars[l].index
      {
        assert processes[i] == s[i];
        if processes[i].isCompleted {
          ghost var before := bars;
          bars := bars + [BarOf(processes[i], i)];
          ListedGrows(before, BarOf(s[i], i));
        }
      }
    }
  }
}
