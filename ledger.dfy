/**
 * The lap ledger: an oldest-first list of { index, lapMs, totalMs } entries.
 * Each new entry takes the next index and records the elapsed total and the
 * split since the previous entry's total.
 */
module Ledger {

  datatype Lap = Lap(index: int, lapMs: int, totalMs: int)

  /** The total of the newest entry, or 0 for an empty ledger. */
  function PrevTotal(laps: seq<Lap>): int {
    if |laps| == 0 then 0 else laps[|laps| - 1].totalMs
  }

  /**
   * The ledger invariant: entries are numbered 1..n in order and each split
   * is its total minus the total before it (0 for the first entry).
   */
  predicate Valid(laps: seq<Lap>) {
    forall i :: 0 <= i < |laps| ==>
      laps[i].index == i + 1 && laps[i].lapMs == laps[i].totalMs - PrevTotal(laps[..i])
  }

  /** The entry addLap pushes when the elapsed time is `total`. */
  function NextLap(laps: seq<Lap>, total: int): (e: Lap)
    ensures e.index == |laps| + 1 && e.totalMs == total
    ensures |laps| == 0 ==> e.lapMs == total
    ensures |laps| > 0 ==> e.lapMs == total - laps[|laps| - 1].totalMs
  {
    Lap(|laps| + 1, total - PrevTotal(laps), total)
  }

  /** laps.push(entry): one new entry at the end, the earlier ones untouched; the invariant is kept. */
  function Append(laps: seq<Lap>, total: int): (r: seq<Lap>)
    ensures |r| == |laps| + 1 && r[..|laps|] == laps && r[|laps|] == NextLap(laps, total)
    ensures Valid(laps) ==> Valid(r)
  {
    var r := laps + [NextLap(laps, total)];
    assert forall i :: 0 <= i < |laps| ==> r[..i] == laps[..i];
    r
  }

  /** The sum of all splits. */
  function SumLaps(laps: seq<Lap>): int {
    if laps == [] then 0 else SumLaps(laps[..|laps| - 1]) + laps[|laps| - 1].lapMs
  }

  /** The splits add up exactly to the newest total: no gaps and no overlaps. */
  lemma {:induction false} SplitsAddUp(laps: seq<Lap>)
    requires Valid(laps)
    ensures SumLaps(laps) == PrevTotal(laps)
  {
    if laps != [] {
      var init := laps[..|laps| - 1];
      assert forall i :: 0 <= i < |init| ==> init[..i] == laps[..i];
      assert Valid(init);
      SplitsAddUp(init);
    }
  }

  /** The ledger holding one entry per recorded total, in order. */
  function FromTotals(totals: seq<int>): (r: seq<Lap>)
    ensures |r| == |totals| && Valid(r)
  {
    if totals == [] then [] else Append(FromTotals(totals[..|totals| - 1]), totals[|totals| - 1])
  }

  function Totals(laps: seq<Lap>): (r: seq<int>)
    ensures |r| == |laps| && forall i :: 0 <= i < |laps| ==> r[i] == laps[i].totalMs
  {
    seq(|laps|, i requires 0 <= i < |laps| => laps[i].totalMs)
  }

  /** The ledger built from a list of totals records exactly those totals, in order. */
  lemma {:induction false} TotalsOfFromTotals(ts: seq<int>)
    ensures Totals(FromTotals(ts)) == ts
    decreases |ts|
  {
    if ts != [] {
      var init, last := ts[..|ts| - 1], ts[|ts| - 1];
      TotalsOfFromTotals(init);
      TotalsAppend(FromTotals(init), init, last);
      assert ts == init + [last];
    }
  }

  /** Pushing an entry for a total adds that total to the recorded ones. */
  lemma TotalsAppend(laps: seq<Lap>, recorded: seq<int>, total: int)
    requires Totals(laps) == recorded
    ensures Totals(Append(laps, total)) == recorded + [total]
  {
  }

  /** A ledger is valid exactly when it is the one its recorded totals determine. */
  lemma {:induction false} ValidIffFromTotals(laps: seq<Lap>)
    ensures Valid(laps) <==> laps == FromTotals(Totals(laps))
  {
    if Valid(laps) {
      ValidIsFromTotals(laps);
    }
  }

  lemma {:induction false} ValidIsFromTotals(laps: seq<Lap>)
    requires Valid(laps)
    ensures laps == FromTotals(Totals(laps))
  {
    if laps != [] {
      var n := |laps|;
      var init := laps[..n - 1];
      ValidInit(laps);
      ValidIsFromTotals(init);
      LastEntry(laps);
      Reassemble(laps, init);
    }
  }

  /** A ledger whose older entries and newest entry are each what their totals determine is so as a whole. */
  lemma Reassemble(laps: seq<Lap>, init: seq<Lap>)
    requires laps != [] && init == laps[..|laps| - 1]
    requires init == FromTotals(Totals(init))
    requires laps[|laps| - 1] == NextLap(init, laps[|laps| - 1].totalMs)
    ensures laps == FromTotals(Totals(laps))
  {
    var n := |laps|;
    var ts := Totals(laps);
    assert ts[..n - 1] == Totals(init);
    assert FromTotals(ts) == Append(FromTotals(ts[..n - 1]), ts[n - 1]);
    assert laps == init + [laps[n - 1]];
  }

  /** In a valid ledger the newest entry is the one addLap would push for its total. */
  lemma LastEntry(laps: seq<Lap>)
    requires Valid(laps) && laps != []
    ensures laps[|laps| - 1] == NextLap(laps[..|laps| - 1], laps[|laps| - 1].totalMs)
  {
    var n := |laps|;
    assert laps[n - 1].lapMs == laps[n - 1].totalMs - PrevTotal(laps[..n - 1]);
  }

  /** Dropping the newest entry keeps the invariant. */
  lemma ValidInit(laps: seq<Lap>)
    requires Valid(laps) && laps != []
    ensures Valid(laps[..|laps| - 1])
  {
    var init := laps[..|laps| - 1];
    forall i | 0 <= i < |init|
      ensures init[i].index == i + 1 && init[i].lapMs == init[i].totalMs - PrevTotal(init[..i])
    {
      assert init[..i] == laps[..i];
    }
  }

  /**
   * reset() leaves the ledger alone, so a lap taken after it is measured from
   * the last recorded total: 5000 ms recorded, then a reset, then a lap at
   * 200 ms gives a split of -4800 ms.
   */
  lemma NegativeSplitAfterReset()
    ensures Append([Lap(1, 5000, 5000)], 200)[1] == Lap(2, -4800, 200)
  {
  }

  /** After clearLaps, the next lap is number 1 and its split is its whole total. */
  lemma AppendToCleared(total: int)
    ensures Append([], total) == [Lap(1, total, total)]
  {
  }
}
