/** The geometry of the Gantt chart: each completed record is drawn as a
    bar from (ct - bt) * 40 to ct * 40 pixels. */
module Gantt {
  import opened Processes
  import opened Scheduler

  /** Pixels per time unit on the chart. */
  const ScaleFactor: int := 40

  /** One rectangle of the chart: the table index and pid of a completed
      record and the horizontal extent of its bar. */
  datatype Bar = Bar(index: int, pid: int, xStart: int, xEnd: int)

  /** The bar the chart draws for record p at index i. */
  function BarOf(p: Process, i: int): (b: Bar)
    ensures b.index == i && b.pid == p.pid
    ensures b.xEnd - b.xStart == p.bt * ScaleFactor
    ensures WellFormed(p) && p.isCompleted ==> p.at * ScaleFactor <= b.xStart < b.xEnd
  {
    Bar(i, p.pid, Start(p) * ScaleFactor, p.ct * ScaleFactor)
  }

  /** `bars` is what the draw handler paints for table s: one bar per
      completed record, in table order, none for a record still waiting. */
  ghost predicate BarsFor(s: seq<Process>, bars: seq<Bar>)
  {
    && (forall k :: 0 <= k < |bars| ==>
          0 <= bars[k].index < |s| && s[bars[k].index].isCompleted
          && bars[k] == BarOf(s[bars[k].index], bars[k].index))
    && (forall i :: 0 <= i < |s| && s[i].isCompleted ==> Listed(bars, i))
    && (forall k, l :: 0 <= k < l < |bars| ==> bars[k].index < bars[l].index)
  }

  /** Some bar belongs to the record at index i. */
  ghost predicate Listed(bars: seq<Bar>, i: int)
  {
    exists k :: 0 <= k < |bars| && bars[k].index == i
  }

  /** Appending a bar keeps every record listed and lists the new one. */
  lemma ListedGrows(bars: seq<Bar>, b: Bar)
    ensures forall i :: Listed(bars, i) ==> Listed(bars + [b], i)
    ensures Listed(bars + [b], b.index)
  {
    forall i | Listed(bars, i)
      ensures Listed(bars + [b], i)
    {
      var k :| 0 <= k < |bars| && bars[k].index == i;
      assert (bars + [b])[k] == bars[k];
    }
    assert (bars + [b])[|bars|] == b;
  }

  /** No two bars overlap horizontally. */
  ghost predicate BarsApart(bars: seq<Bar>)
  {
    forall k, l :: 0 <= k < |bars| && 0 <= l < |bars| && k != l ==>
      bars[k].xEnd <= bars[l].xStart || bars[l].xEnd <= bars[k].xStart
  }

  /** Bars of records whose run intervals are disjoint do not overlap. */
  lemma BarsDoNotOverlap(s: seq<Process>, bars: seq<Bar>)
    requires BarsFor(s, bars) && Disjoint(s)
    ensures BarsApart(bars)
  {
    forall k, l | 0 <= k < |bars| && 0 <= l < |bars| && k != l
      ensures bars[k].xEnd <= bars[l].xStart || bars[l].xEnd <= bars[k].xStart
    {
      var a, b := bars[k].index, bars[l].index;
      assert a != b by {
        if k < l { assert a < b; } else { assert b < a; }
      }
      assert s[a].ct <= Start(s[b]) || s[b].ct <= Start(s[a]);
    }
  }

  /** Every bar of a well-formed table has positive width and starts no
      earlier than its record's arrival. */
  lemma BarsAfterArrival(s: seq<Process>, bars: seq<Bar>)
    requires BarsFor(s, bars)
    requires forall i :: 0 <= i < |s| ==> WellFormed(s[i])
    ensures forall k :: 0 <= k < |bars| ==>
              s[bars[k].index].at * ScaleFactor <= bars[k].xStart < bars[k].xEnd
  {
    forall k | 0 <= k < |bars|
      ensures s[bars[k].index].at * ScaleFactor <= bars[k].xStart < bars[k].xEnd
    {
      assert WellFormed(s[bars[k].index]);
    }
  }
}
