/**
  The state machine of the Stopwatch widget: an elapsed tick count `time`
  (one tick per millisecond timer timeout), a `running` flag, and
  `splitTime`, the total at the last split. The widget's timer, started with
  a 1 ms interval when the watch starts and stopped when it stops, is kept
  as a flag `timerActive`; each timeout it delivers is one call of
  UpdateTime. The two labels the methods write are kept as strings.
 */
module StopwatchEngine {
  import opened DurationFormat

  /** The sum of a sequence of split deltas. */
  function Sum(s: seq<nat>): nat {
    if s == [] then 0 else s[0] + Sum(s[1..])
  }

  /** Appending one delta adds it to the sum. */
  lemma {:induction false} SumAppend(s: seq<nat>, x: nat)
    ensures Sum(s + [x]) == Sum(s) + x
  {
    if s != [] {
      assert (s + [x])[1..] == s[1..] + [x];
      SumAppend(s[1..], x);
    }
  }

  /** The totals the split label shows, one per split: the sums of the deltas up to each split. */
  function RunningTotals(deltas: seq<nat>): (totals: seq<nat>)
    ensures |totals| == |deltas|
  {
    if deltas == [] then [] else RunningTotals(deltas[..|deltas| - 1]) + [Sum(deltas)]
  }

  /** Entry i of the running totals is the sum of the first i + 1 deltas. */
  lemma {:induction false} RunningTotalsAt(deltas: seq<nat>, i: nat)
    requires i < |deltas|
    ensures RunningTotals(deltas)[i] == Sum(deltas[..i + 1])
  {
    var prefix := deltas[..|deltas| - 1];
    if i < |prefix| {
      RunningTotalsAt(prefix, i);
      assert prefix[..i + 1] == deltas[..i + 1];
    } else {
      assert deltas[..i + 1] == deltas;
    }
  }

  /** One more split adds one running total, the sum of all deltas so far. */
  lemma RunningTotalsAppend(deltas: seq<nat>, x: nat)
    ensures RunningTotals(deltas + [x]) == RunningTotals(deltas) + [Sum(deltas + [x])]
  {
    var s := deltas + [x];
    assert s[..|s| - 1] == deltas;
  }

  class Stopwatch {
    var time: nat
    var running: bool
    var splitTime: nat
    /** Whether the widget's timer is started, so that its timeouts reach UpdateTime. */
    var timerActive: bool
    var timeLabel: string
    var splitLabel: string
    /** The delta of every split so far, in order. */
    ghost var splits: seq<nat>

    /**
      The invariant: the split marker never passes the elapsed time, the
      split deltas telescope to the marker, the timer runs exactly while the
      watch runs, and the time label shows the elapsed time.
     */
    ghost predicate Valid()
      reads this
    {
      && splitTime <= time
      && Sum(splits) == splitTime
      && timerActive == running
      && timeLabel == FormatTime(time)
    }

    constructor ()
      ensures Valid()
      ensures time == 0 && !running && splitTime == 0 && splits == []
      ensures timeLabel == "00:00:00.000"
      ensures splitLabel == "Last Split: 00:00:00.000"
    {
      time := 0;
      running := false;
      splitTime := 0;
      timerActive := false;
      timeLabel := "00:00:00.000";
      splitLabel := "Last Split: 00:00:00.000";
      splits := [];
      FormatTimeZero();
    }

    /** The start/stop button: starts the timer when stopped, stops it when running. */
    method StartStop()
      requires Valid()
      modifies this
      ensures Valid()
      ensures running == !old(running)
      ensures timerActive == running
      ensures time == old(time) && splitTime == old(splitTime) && splits == old(splits)
      ensures timeLabel == old(timeLabel) && splitLabel == old(splitLabel)
    {
      if !running {
        timerActive := true;
        running := true;
      } else {
        timerActive := false;
        running := false;
      }
    }

    /** One timeout of the timer: one more tick, and the time label shows it. */
    method UpdateTime()
      requires Valid() && timerActive
      modifies this
      ensures Valid()
      ensures time == old(time) + 1
      ensures timeLabel == FormatTime(time)
      ensures running == old(running) && timerActive == old(timerActive)
      ensures splitTime == old(splitTime) && splits == old(splits) && splitLabel == old(splitLabel)
    {
      time := time + 1;
      UpdateDisplay();
    }

    method UpdateDisplay()
      modifies this`timeLabel
      ensures timeLabel == FormatTime(time)
    {
      timeLabel := FormatTime(time);
    }

    /**
      The split button: the time since the previous split becomes the new
      delta, and the marker moves up to the current time.
     */
    method Split() returns (delta: nat)
      requires Valid()
      modifies this
      ensures Valid()
      ensures delta == old(time) - old(splitTime)
      ensures splitTime == time && time == old(time)
      ensures splits == old(splits) + [delta]
      ensures Sum(splits) == time
      ensures splitLabel == SplitLabel(delta, time)
      ensures running == old(running) && timerActive == old(timerActive) && timeLabel == old(timeLabel)
    {
      delta := time - splitTime;
      SumAppend(splits, delta);
      splitTime := time;
      splits := splits + [delta];
      splitLabel := SplitLabel(delta, time);
    }
  }

  /** The timer delivering n timeouts to a running stopwatch: n ticks add exactly n. */
  method DeliverTicks(sw: Stopwatch, n: nat)
    requires sw.Valid() && sw.running
    modifies sw
    ensures sw.Valid() && sw.running
    ensures sw.time == old(sw.time) + n
    ensures sw.splitTime == old(sw.splitTime) && sw.splits == old(sw.splits)
    ensures sw.splitLabel == old(sw.splitLabel)
  {
    for i := 0 to n
      invariant sw.Valid() && sw.running
      invariant sw.time == old(sw.time) + i
      invariant sw.splitTime == old(sw.splitTime) && sw.splits == old(sw.splits)
      invariant sw.splitLabel == old(sw.splitLabel)
    {
      sw.UpdateTime();
    }
  }

  /**
    Start, `first` ticks, split, `second` ticks, split, stop: the deltas are
    `first` and `second`, the totals the split label shows are `first` and
    `first + second`, and stopping keeps the elapsed time.
   */
  method SplitScenario(first: nat, second: nat) returns (delta1: nat, delta2: nat, elapsed: nat)
    ensures delta1 == first && delta2 == second && elapsed == first + second
  {
    var sw := new Stopwatch();
    sw.StartStop();
    DeliverTicks(sw, first);
    assert sw.time == first && sw.splitTime == 0;
    delta1 := sw.Split();
    DeliverTicks(sw, second);
    assert sw.time == first + second && sw.splitTime == first;
    delta2 := sw.Split();
    assert sw.splits == [first, second];
    TwoSplitTotals(first, second);
    assert RunningTotals(sw.splits) == [first, first + second];
    sw.StartStop();
    assert !sw.running;
    elapsed := sw.time;
  }

  /** Two splits of `a` and then `b` show the totals `a` and `a + b`. */
  lemma TwoSplitTotals(a: nat, b: nat)
    ensures RunningTotals([a, b]) == [a, a + b]
  {
    assert [] + [a] == [a] && [a] + [b] == [a, b];
    RunningTotalsAppend([], a);
    RunningTotalsAppend([a], b);
    assert [a, b][1..] == [b] && [b][1..] == [];
  }

  /** The scenario with 100 and 50 ticks: deltas 100 and 50, elapsed time 150. */
  method SplitScenarioExample()
  {
    var d1, d2, t := SplitScenario(100, 50);
    assert d1 == 100 && d2 == 50 && t == 150;
  }
}
