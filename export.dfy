/**
 * exportCSV without the download: the header row, one row per lap in ledger
 * order, serialised as CSV text; nothing at all for an empty ledger.
 */
module Export {
  import opened Wrappers
  import Decimal
  import TimeFormat
  import Ledger
  import Csv

  /** The column titles exportCSV writes as the first row. */
  const Header: seq<string> := ["Lap #", "Lap (ms)", "Lap (formatted)", "Total (ms)", "Total (formatted)"]

  /** The row exported for one lap: its number, its split and its total, each as a number and formatted. */
  function LapRow(l: Ledger.Lap): (row: seq<string>)
    ensures |row| == |Header|
  {
    [Decimal.IntToString(l.index), Decimal.IntToString(l.lapMs), TimeFormat.FormatTime(l.lapMs),
     Decimal.IntToString(l.totalMs), TimeFormat.FormatTime(l.totalMs)]
  }

  /** Each column of a lap row reads back as the lap field it was written from. */
  lemma LapRowReadsBack(l: Ledger.Lap)
    ensures var row := LapRow(l);
      && Decimal.ParseInt(row[0]) == l.index
      && Decimal.ParseInt(row[1]) == l.lapMs
      && TimeFormat.ParseTime(row[2]) == Some(l.lapMs)
      && Decimal.ParseInt(row[3]) == l.totalMs
      && TimeFormat.ParseTime(row[4]) == Some(l.totalMs)
  {
    NumeralColumnsReadBack(l);
    RenderedColumnsReadBack(l);
  }

  lemma NumeralColumnsReadBack(l: Ledger.Lap)
    ensures var row := LapRow(l);
      Decimal.ParseInt(row[0]) == l.index && Decimal.ParseInt(row[1]) == l.lapMs && Decimal.ParseInt(row[3]) == l.totalMs
  {
    IndexColumn(l);
    SplitColumn(l);
    TotalColumn(l);
  }

  lemma IndexColumn(l: Ledger.Lap)
    ensures Decimal.ParseInt(LapRow(l)[0]) == l.index
  {
    NumeralCells(l);
    NumeralReadsBack(LapRow(l)[0], l.index);
  }

  lemma SplitColumn(l: Ledger.Lap)
    ensures Decimal.ParseInt(LapRow(l)[1]) == l.lapMs
  {
    NumeralCells(l);
    NumeralReadsBack(LapRow(l)[1], l.lapMs);
  }

  lemma TotalColumn(l: Ledger.Lap)
    ensures Decimal.ParseInt(LapRow(l)[3]) == l.totalMs
  {
    NumeralCells(l);
    NumeralReadsBack(LapRow(l)[3], l.totalMs);
  }

  /** Columns 0, 1 and 3 hold the numerals of the index, the split and the total. */
  lemma NumeralCells(l: Ledger.Lap)
    ensures var row := LapRow(l);
      && row[0] == Decimal.IntToString(l.index)
      && row[1] == Decimal.IntToString(l.lapMs)
      && row[3] == Decimal.IntToString(l.totalMs)
  {
    var a, b, c := Decimal.IntToString(l.index), Decimal.IntToString(l.lapMs), TimeFormat.FormatTime(l.lapMs);
    var d, e := Decimal.IntToString(l.totalMs), TimeFormat.FormatTime(l.totalMs);
    assert LapRow(l) == [a, b, c, d, e];
    FiveCells(LapRow(l), a, b, c, d, e);
  }

  lemma FiveCells(row: seq<string>, a: string, b: string, c: string, d: string, e: string)
    requires row == [a, b, c, d, e]
    ensures row[0] == a && row[1] == b && row[2] == c && row[3] == d && row[4] == e
  {
  }

  lemma NumeralReadsBack(s: string, n: int)
    requires s == Decimal.IntToString(n)
    ensures Decimal.ParseInt(s) == n
  {
    Decimal.IntToStringRoundTrip(n);
  }

  lemma RenderedColumnsReadBack(l: Ledger.Lap)
    ensures var row := LapRow(l);
      TimeFormat.ParseTime(row[2]) == Some(l.lapMs) && TimeFormat.ParseTime(row[4]) == Some(l.totalMs)
  {
    TimeFormat.FormatParse(l.lapMs);
    TimeFormat.FormatParse(l.totalMs);
  }

  /** The header row, then one row per lap in ledger order. */
  function Rows(laps: seq<Ledger.Lap>): (rows: seq<seq<string>>)
    ensures |rows| == |laps| + 1 && rows[0] == Header
    ensures forall i :: 0 <= i < |rows| ==> |rows[i]| == |Header|
    decreases |laps|
  {
    if laps == [] then [Header]
    else
      var init := Rows(laps[..|laps| - 1]);
      var row := LapRow(laps[|laps| - 1]);
      Widths(init, row, |Header|);
      init + [row]
  }

  lemma Widths(rows: seq<seq<string>>, row: seq<string>, w: nat)
    requires 0 < |rows| && forall i :: 0 <= i < |rows| ==> |rows[i]| == w
    requires |row| == w
    ensures (rows + [row])[0] == rows[0]
    ensures forall i :: 0 <= i < |rows + [row]| ==> |(rows + [row])[i]| == w
  {
  }

  /** rows.push for one more lap: appending a lap appends its row. */
  lemma RowsSnoc(laps: seq<Ledger.Lap>, l: Ledger.Lap)
    ensures Rows(laps + [l]) == Rows(laps) + [LapRow(l)]
  {
    assert (laps + [l])[..|laps|] == laps;
  }

  /** The rows of a ledger prefix one entry longer. */
  lemma RowsPrefix(laps: seq<Ledger.Lap>, i: int)
    requires 0 <= i < |laps|
    ensures Rows(laps[..i + 1]) == Rows(laps[..i]) + [LapRow(laps[i])]
  {
    assert laps[..i + 1] == laps[..i] + [laps[i]];
    RowsSnoc(laps[..i], laps[i]);
  }

  /** Row 0 is the header; row i + 1 is lap i's row. */
  lemma {:induction false} RowAt(laps: seq<Ledger.Lap>, i: int)
    requires 0 <= i <= |laps|
    ensures Rows(laps)[i] == if i == 0 then Header else LapRow(laps[i - 1])
    decreases |laps|
  {
    if 0 < i < |laps| {
      var init := laps[..|laps| - 1];
      RowAt(init, i);
      assert init[i - 1] == laps[i - 1];
    }
  }

  /**
   * Every field the stopwatch exports is made of letters, digits, spaces and
   * "#()-:.", so escaping leaves each of them as it is.
   */
  lemma PlainField(laps: seq<Ledger.Lap>, i: int, j: int)
    requires 0 <= i <= |laps| && 0 <= j < |Header|
    ensures !Csv.NeedsQuotes(Rows(laps)[i][j]) && Csv.EscapeField(Rows(laps)[i][j]) == Rows(laps)[i][j]
  {
    var row := Rows(laps)[i];
    RowAt(laps, i);
    if i == 0 {
      HeaderIsPlain();
    } else {
      LapRowIsPlain(laps[i - 1]);
    }
    assert row[j] in row;
  }

  lemma HeaderIsPlain()
    ensures forall v :: v in Header ==> !Csv.NeedsQuotes(v)
  {
  }

  lemma LapRowIsPlain(l: Ledger.Lap)
    ensures forall v :: v in LapRow(l) ==> !Csv.NeedsQuotes(v)
  {
    var a, b, c := Decimal.IntToString(l.index), Decimal.IntToString(l.lapMs), TimeFormat.FormatTime(l.lapMs);
    var d, e := Decimal.IntToString(l.totalMs), TimeFormat.FormatTime(l.totalMs);
    assert LapRow(l) == [a, b, c, d, e];
    NumeralIsPlain(l.index);
    NumeralIsPlain(l.lapMs);
    RenderingIsPlain(l.lapMs);
    NumeralIsPlain(l.totalMs);
    RenderingIsPlain(l.totalMs);
    FivePlain(LapRow(l), a, b, c, d, e);
  }

  lemma FivePlain(row: seq<string>, a: string, b: string, c: string, d: string, e: string)
    requires row == [a, b, c, d, e]
    requires !Csv.NeedsQuotes(a) && !Csv.NeedsQuotes(b) && !Csv.NeedsQuotes(c)
    requires !Csv.NeedsQuotes(d) && !Csv.NeedsQuotes(e)
    ensures forall v :: v in row ==> !Csv.NeedsQuotes(v)
  {
  }

  lemma RenderingIsPlain(ms: int)
    ensures !Csv.NeedsQuotes(TimeFormat.FormatTime(ms))
  {
    TimeFormat.FormatChars(ms);
    ClockCharsPlain(TimeFormat.FormatTime(ms));
  }

  lemma ClockCharsPlain(s: string)
    requires forall c :: c in s ==> Decimal.IsDigit(c) || c == '-' || c == ':' || c == '.'
    ensures !Csv.NeedsQuotes(s)
  {
  }

  lemma NumeralIsPlain(n: int)
    ensures !Csv.NeedsQuotes(Decimal.IntToString(n))
  {
    var r := Decimal.IntToString(n);
    forall k | 0 <= k < |r|
      ensures r[k] != ',' && r[k] != '\n' && r[k] != '"'
    {
    }
  }

  /** exportCSV: nothing for an empty ledger, otherwise the CSV text. */
  function Export(laps: seq<Ledger.Lap>): (r: Option<string>)
    ensures r.None? <==> laps == []
  {
    if |laps| == 0 then None else Some(Csv.Serialize(Rows(laps)))
  }

  /** The export reads back as the header row followed by one row per lap, in ledger order. */
  lemma ExportRoundTrip(laps: seq<Ledger.Lap>)
    requires laps != []
    ensures Export(laps).Some? && Csv.ParseCsv(Export(laps).value) == Rows(laps)
  {
    Csv.SerializeRoundTrip(Rows(laps));
  }
}
