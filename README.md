# Non-preemptive priority scheduler

A Dafny model of the scheduling core of `5.c`, a GTK program that
simulates non-preemptive priority CPU scheduling. The user enters
processes through the form. Each process has a pid, an arrival time, a
burst time and a priority, where a lower number runs first. `add_process`
validates the values and appends them to a fixed table of 100 records.
`simulate` advances a clock `st` from 0. At each step it picks, among the
processes that have arrived and are not finished, the one with the
smallest priority number, and on a tie the one earliest in the table. It
runs that process to completion and writes its completion, turnaround and
waiting time into its row. When nothing is ready, the clock advances by
one. The Gantt chart draws one bar per completed process, spanning
`[ct - bt, ct]` at 40 pixels per time unit.

Layout:

- `processes.dfy` (module `Processes`): the record, the admission rule,
  the per-record well-formedness condition, and counts and sums over
  completed records.
- `scheduler.dfy` (module `Scheduler`): the selection scan as a function
  (`Scan`) and as the C code writes it (`ScanAsWritten`), one loop
  iteration as a function on the loop state (`Step`, `Steps`), the loop
  invariant, and the properties of a finished run (`Scheduled`).
- `gantt.dfy` (module `Gantt`): bar geometry and its properties.
- `store.dfy` (module `Store`): the global table as a class over an
  `array<Process>` with a fill counter. `AddProcess` and `Simulate` update
  the array in place. The body of the `simulate` loop is the method
  `Iterate`, which calls `SelectNext` (the scan loop) and
  `RunToCompletion` (the writes at lines 103-107). Each method is proved
  against the `Scheduler` functions.

`Simulate` is proved to terminate on a table with no completed record. Its
result satisfies `Scheduled`:

- every record is completed and keeps its inputs;
- `tat = ct - at` and `wt = tat - bt` hold;
- no process started before it arrived;
- run intervals never overlap;
- at every start, the chosen process preceded every other arrived, waiting
  process by priority and then by index;
- the processor was idle only when nothing that had arrived was waiting;
- the completion reports list every record once, in completion order.

The returned totals are the sums of `tat` and `wt` over the table.

## Model

| member | source | states |
|---|---|---|
| Store.ProcessStore.constructor | 5.c:19-20 | the table starts with 100 zeroed slots and no records |
| Store.ProcessStore.AddProcess | 5.c:31-41 | a record is appended with `is_completed` cleared exactly when pid > 0, at >= 0, bt > 0 and priority >= 0; otherwise the table is unchanged |
| Store.ProcessStore.Simulate | 5.c:70-125 | with no records it reports "no processes" and changes nothing; otherwise it terminates, the final table and the report order satisfy `Scheduled` for the initial table, and the totals are the sums of tat and wt over the records |
| Store.ProcessStore.Iterate | 5.c:84-111 | one iteration of the loop in place yields exactly `Step` of the previous state |
| Store.ProcessStore.SelectNext | 5.c:85-94 | the scan loop returns `Scan` of the table: -1 exactly when no record has arrived unfinished, otherwise the unique choice |
| Store.ProcessStore.RunToCompletion | 5.c:103-107 | the slot idx becomes its completed record (ct = st + bt, tat, wt, flag set) and no other slot changes |
| Store.ProcessStore.GanttBars | 5.c:144-147 | one bar `[(ct - bt)*40, ct*40]` per completed record, in table order, and none for the others |
| Processes.Admissible | 5.c:31 | the four range tests of `add_process`: pid > 0, at >= 0, bt > 0, priority >= 0 |
| Processes.FreshRecordWellFormed | 5.c:31-40 | the record written into a fresh slot is well formed exactly when its values pass those tests |
| Processes.CountCompleted | 5.c:79 | the number of completed records is at most the table size, and equals it exactly when every record is completed |
| Processes.CountCompletedUpdate | 5.c:107 | rewriting one record changes the completed count by that record's contribution only |
| Processes.SumCompletedUpdate | 5.c:109-110 | rewriting one record changes a total by that record's contribution only |
| Processes.CountCompletedPositive | 5.c:79 | a table with a completed record has a positive completed count |
| Processes.NoneCompleted | 5.c:76-79 | on entry to the loop the counter and both totals, all 0, match the table |
| Processes.Horizon | 5.c:90 | no record arrives after the latest arrival time, the bound on idle steps |
| Scheduler.Scan | 5.c:85-94 | -1 exactly when no record among the first n has arrived unfinished; otherwise an arrived, unfinished record with the smallest priority, the lowest index on a tie |
| Scheduler.ChoiceUnique | 5.c:90 | the strict comparison fixes a unique choice |
| Scheduler.ScanAsWrittenAgrees | 5.c:85-94 | when every priority is below INT_MAX, the C scan with its INT_MAX sentinel picks the same index as `Scan` and holds its priority |
| Scheduler.ScanAsWritten | 5.c:85-94 | the C scan as written: it returns -1 with INT_MAX held, or an arrived, unfinished record together with its priority, which is then below INT_MAX |
| Scheduler.ScanAsWrittenStarves | 5.c:86-90 | on any table, the C scan never picks a record of priority INT_MAX, and returns -1 when every ready record has that priority |
| Scheduler.ScanAsWrittenStarvesSingle | 5.c:86-90 | on the table whose only record arrives at 0 with priority INT_MAX, at every clock >= 0 the record is ready and `Scan` picks it, while the C scan returns -1 |
| Scheduler.Finish | 5.c:103-106 | running a record from clock st keeps its inputs, marks it completed and sets its completion to st + bt |
| Scheduler.FinishWellFormed | 5.c:103-106 | a ready, well-formed record run from st is well formed afterwards, started at st and waited st - at |
| Scheduler.Step | 5.c:84-111 | one iteration keeps every record's inputs, never rewrites a record that is already completed, and, with positive bursts, always advances the clock |
| Scheduler.StepIdles | 5.c:96-100 | with nothing ready, an iteration only advances the clock by one |
| Scheduler.StepRuns | 5.c:102-111 | with record i the choice, an iteration completes i at st + bt, adds its tat and wt to the totals, increments the counter and reports i |
| Scheduler.InvInit | 5.c:76-79 | the loop invariant holds at the start of a run on a table with no completed record |
| Scheduler.IdlePreservesInv | 5.c:96-100 | an idle step keeps the loop invariant |
| Scheduler.RunKeepsJobs | 5.c:103-107 | running the choice keeps the inputs and the metric equations, and all completions stay at or before the new clock |
| Scheduler.RunKeepsDisjoint | 5.c:103-104 | the new run interval does not overlap any earlier one |
| Scheduler.RunKeepsPriority | 5.c:89-92 | the record that starts precedes every other arrived, waiting record |
| Scheduler.RunKeepsNoIdle | 5.c:96-104 | the time units of the new run are busy, so idle units stay ones where nothing waited |
| Scheduler.RunKeepsLog | 5.c:120-124 | the new report comes after all earlier ones, in completion order |
| Scheduler.RunKeepsInv | 5.c:102-111 | running the choice keeps the whole loop invariant, including counter and totals |
| Scheduler.RunPreservesInv | 5.c:102-111 | a running step keeps the loop invariant |
| Scheduler.StepPreservesInv | 5.c:84-111 | every iteration keeps the loop invariant |
| Scheduler.StepProgress | 5.c:84-100 | a step either completes one more record or idles while the clock is below the latest arrival time, so the loop terminates |
| Scheduler.InvFinal | 5.c:84-125 | when the loop exits, the table and the reports satisfy `Scheduled` |
| Scheduler.IdleUntilArrival | 5.c:96-100 | while every record is completed or has not arrived, n iterations advance the clock by n and change nothing else |
| Scheduler.RerunOnlyIdles | 5.c:79-100 | on an already completed table, every iteration idles and the counter never advances |
| Scheduler.StepCounts | 5.c:107-111 | an iteration moves the counter by exactly as much as the number of completed records changes |
| Scheduler.StepsCount | 5.c:84-111 | over n iterations the table keeps its size and the counter grows by the number of records that became completed |
| Scheduler.RerunNeverEnds | 5.c:79-111 | started with the counter at 0 on a table where some record is already completed, the counter stays below the number of records after any number of iterations, so the loop never exits |
| Scheduler.SingleRecordRun | 5.c:84-111 | a single record arriving at `at` is run after `at` idle steps: it completes at at + bt, with tat = bt and wt = 0 (for arrival 0 and burst 5: ct 5, tat 5, wt 0) |
| Scheduler.TwoArriveTogether | 5.c:84-111 | of two records arriving at 0, the one with the smaller priority number runs first, from 0 to its burst; the other completes at the sum of the bursts and waits the first burst; the reports are [1, 0] (for bursts 4 and 3 with priorities 2 and 1: completions 7 and 3, totals 10 and 3) |
| Gantt.BarOf | 5.c:146-147 | a bar carries the record's index and pid, is bt * 40 pixels wide, and for a completed well-formed record starts no earlier than at * 40 and has positive width |
| Gantt.BarsDoNotOverlap | 5.c:146-147 | the bars of a schedule with disjoint run intervals do not overlap |
| Gantt.BarsAfterArrival | 5.c:146-147 | every bar starts no earlier than its record's arrival, scaled, and has positive width |

## Left out

- The GTK user interface: the form, `atoi` parsing of the text fields,
  labels, `update_table` (it only copies the table into the tree view) and
  `main`. `AddProcess` takes its four numbers as parameters.
- The redraw requests, the event pump and the one-second `sleep` after
  each completion. The pump at lines 115-117 dispatches every pending GTK
  event, including clicks on the two buttons wired at lines 200-201, which
  stay enabled during a run. So `add_process` can run in the middle of the
  loop and append a record that the same run then schedules, and
  `simulate` can be re-entered on a partly completed table, where it never
  returns. The model assumes that no handler runs while a simulation is in
  progress: `Simulate` is the only writer of the table during its loop.
- Cairo drawing. Only the bar coordinates at lines 146-147 are modelled;
  colours, text labels and the rectangle height are not.
- The two `double` averages at lines 128-129. `Simulate` returns the
  integer totals that are divided.
- The text of the per-process messages. They are modelled as the sequence
  `log` of reported table indices.
- 32-bit `int` overflow of the clock, metrics, totals and bar coordinates.
  Integers are unbounded here.
- Store.ProcessStore.AddProcess: requires a free slot whenever the values
  are valid. The C code writes past the 100-slot array in that case, which
  is undefined behaviour and is not modelled.
- Store.ProcessStore.Simulate: requires that no record is completed. The
  loop cannot end whenever any record is already completed. That covers a
  second `simulate` on a finished table, and also the usual case of adding
  records after a run and pressing Simulate again. `completed` restarts at 0
  (line 79) and counts only the records this run completes, so it can never
  reach `process_count`. The new records run, and then the loop idles
  forever. The model proves this as `Scheduler.RerunNeverEnds`, with
  `Scheduler.RerunOnlyIdles` for a fully completed table, as statements
  about the loop rather than runs of the method.
- Duplicate pids are accepted, as in the source. The model identifies
  records by table index.
- `is_completed` is a C `int` that holds only 0 or 1. It is a `bool` here.

## Findings

| source | as written | input that shows it | evidently intended | confidence | as-written member | corrected member |
|---|---|---|---|---|---|---|
| 5.c:86-90 | the scan starts from `highest_priority = INT_MAX` and only replaces on a strict `<`, so a ready process with priority INT_MAX is never selected; `add_process` accepts that priority, and `simulate` then idles forever | one process with pid 1, arrival 0, burst 1, priority 2147483647 | any arrived, unfinished process can be selected; "no candidate yet" is tested by `idx == -1` | not executed | Scheduler.ScanAsWrittenStarves | Scheduler.Scan |

`Scheduler.ScanAsWritten` models the C loop as written.
`Scheduler.ScanAsWrittenAgrees` shows that it coincides with
`Scheduler.Scan` whenever every priority is below INT_MAX.
`Store.ProcessStore.SelectNext` keeps the C loop's shape but tests
`idx == -1` explicitly, so it computes `Scan`.
