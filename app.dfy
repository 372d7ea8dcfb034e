/**
 * The stopwatch page's own state, as one object: the module-level variables
 * running, startTime, elapsedBefore and laps, updated in place by start,
 * pause, reset, addLap and clearLaps, and read by currentElapsed and
 * exportCSV. Each clock reading (performance.now()) is the parameter `now`.
 */
module App {
  import opened Wrappers
  import Timing
  import Ledger
  import Csv
  import Export

  class Stopwatch {
    var running: bool
    var startTime: int
    var elapsedBefore: int
    var laps: seq<Ledger.Lap>
    /** The latest clock reading the stopwatch has been handed; readings never go back. */
    ghost var clock: int

    /** The three timing variables as a value. */
    function State(): (t: Timing.Timer)
      reads this
      ensures t.running == running && t.startTime == startTime && t.elapsedBefore == elapsedBefore
    {
      Timing.Timer(running, startTime, elapsedBefore)
    }

    /** The timing state is consistent with the clock and the ledger keeps its invariant. */
    ghost predicate Valid()
      reads this
    {
      Timing.WellFormed(State(), clock) && Ledger.Valid(laps)
    }

    /** Page load: stopped, nothing accumulated, no laps. */
    constructor ()
      ensures Valid() && State() == Timing.Initial && laps == [] && clock == 0
    {
      running, startTime, elapsedBefore := false, 0, 0;
      laps := [];
      clock := 0;
    }

    /** currentElapsed(): the elapsed time at clock reading `now`, never less than what is accumulated. */
    function CurrentElapsed(now: int): (r: int)
      reads this
      requires Valid() && clock <= now
      ensures r == Timing.Elapsed(State(), now)
      ensures elapsedBefore <= r && 0 <= r
      ensures !running ==> r == elapsedBefore
    {
      if running then (now - startTime) + elapsedBefore else elapsedBefore
    }

    /** start(): a no-op while running; otherwise runs from `now` on, keeping what was accumulated. */
    method Start(now: int)
      requires Valid() && clock <= now
      modifies this
      ensures Valid() && clock == now
      ensures State() == Timing.Start(old(State()), now)
      ensures running && elapsedBefore == old(elapsedBefore)
      ensures old(running) ==> State() == old(State())
      ensures !old(running) ==> startTime == now
      ensures CurrentElapsed(now) == old(CurrentElapsed(now))
      ensures laps == old(laps)
    {
      clock := now;
      if running {
        return;
      }
      running := true;
      startTime := now;
    }

    /** pause(): a no-op while stopped; otherwise closes the running interval into elapsedBefore. */
    method Pause(now: int)
      requires Valid() && clock <= now
      modifies this
      ensures Valid() && clock == now
      ensures State() == Timing.Pause(old(State()), now)
      ensures !running && startTime == old(startTime)
      ensures !old(running) ==> State() == old(State())
      ensures old(running) ==> elapsedBefore == old(elapsedBefore) + (now - old(startTime))
      ensures CurrentElapsed(now) == old(CurrentElapsed(now))
      ensures laps == old(laps)
    {
      clock := now;
      if !running {
        return;
      }
      running := false;
      elapsedBefore := elapsedBefore + (now - startTime);
    }

    /** The start/pause control: pause while running, start otherwise. */
    method Toggle(now: int)
      requires Valid() && clock <= now
      modifies this
      ensures Valid() && clock == now
      ensures State() == if old(running) then Timing.Pause(old(State()), now) else Timing.Start(old(State()), now)
      ensures running == !old(running)
      ensures CurrentElapsed(now) == old(CurrentElapsed(now))
      ensures laps == old(laps)
    {
      if running {
        Pause(now);
      } else {
        Start(now);
      }
    }

    /** reset(): stopped with nothing accumulated, whatever the state; the laps stay. */
    method Reset()
      requires Valid()
      modifies this
      ensures Valid() && clock == old(clock)
      ensures State() == Timing.Reset(old(State()))
      ensures !running && startTime == 0 && elapsedBefore == 0
      ensures CurrentElapsed(clock) == 0
      ensures laps == old(laps)
    {
      running := false;
      startTime := 0;
      elapsedBefore := 0;
    }

    /**
     * addLap(): pushes one entry recording the elapsed time at `now` and the
     * split since the previous entry; the timing state is untouched.
     */
    method AddLap(now: int)
      requires Valid() && clock <= now
      modifies this
      ensures Valid() && clock == now
      ensures laps == Ledger.Append(old(laps), old(CurrentElapsed(now)))
      ensures |laps| == |old(laps)| + 1 && laps[..|old(laps)|] == old(laps)
      ensures laps[|laps| - 1].index == |laps|
      ensures laps[|laps| - 1].totalMs == old(CurrentElapsed(now))
      ensures laps[|laps| - 1].lapMs == laps[|laps| - 1].totalMs - Ledger.PrevTotal(old(laps))
      ensures Ledger.SumLaps(laps) == laps[|laps| - 1].totalMs
      ensures State() == old(State())
    {
      var total := CurrentElapsed(now);
      var prevTotal := if |laps| > 0 then laps[|laps| - 1].totalMs else 0;
      var lapMs := total - prevTotal;
      var entry := Ledger.Lap(|laps| + 1, lapMs, total);
      assert entry == Ledger.NextLap(laps, total);
      laps := laps + [entry];
      assert laps == Ledger.Append(old(laps), total);
      clock := now;
      Ledger.SplitsAddUp(laps);
    }

    /** clearLaps(): the ledger is emptied; the timing state is untouched. */
    method ClearLaps()
      requires Valid()
      modifies this
      ensures Valid() && clock == old(clock)
      ensures laps == []
      ensures State() == old(State())
    {
      laps := [];
    }

    /**
     * exportCSV() without the download: nothing for an empty ledger,
     * otherwise the header row and one row per lap, built in a loop and
     * serialised.
     */
    method ExportCsv() returns (csv: Option<string>)
      ensures csv == Export.Export(laps)
    {
      if |laps| == 0 {
        return None;
      }
      var rows := [Export.Header];
      for i := 0 to |laps|
        invariant rows == Export.Rows(laps[..i])
      {
        Export.RowsPrefix(laps, i);
        rows := rows + [Export.LapRow(laps[i])];
      }
      assert laps[..|laps|] == laps;
      csv := Some(Csv.Serialize(rows));
    }
  }
}
