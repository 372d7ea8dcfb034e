# Stopwatch core, modelled in Dafny

The stopwatch page (`app.js`) keeps three timing variables, `running`,
`startTime` and `elapsedBefore`, and a lap ledger `laps` of
`{ index, lapMs, totalMs }` entries. `start`, `pause` and `reset` change the
timing variables. `currentElapsed` reads them against the clock. `addLap`
pushes an entry for the current elapsed time and `clearLaps` empties the
ledger. `formatTime` renders a millisecond count as `[-][hh:]mm:ss.mmm`.
`exportCSV` writes the ledger as CSV text: a header row, then one row per
lap, with fields escaped in the style of section 2 of RFC 4180.

The model has one module per component:

- `Decimal` (decimal.dfy): `String(n)` for whole numbers and `padStart(width, '0')`, with a reader for numerals.
- `TimeFormat` (time_format.dfy): `formatTime` and a reader `ParseTime` for its output.
- `Timing` (timing.dfy): the timer state machine on values, and start/pause command sequences.
- `Ledger` (ledger.dfy): lap entries, the append step and the ledger invariant.
- `Csv` (csv.dfy): field escaping, joining, and a reader that inverts them.
- `Export` (export.dfy): the header and lap rows that `exportCSV` builds, and the resulting text.
- `App` (app.dfy): class `Stopwatch`. Its fields are the page's state variables, and its methods update them in place.
- `Wrappers` (wrappers.dfy): `Option`.

Each clock reading `performance.now()` is a parameter `now: int` of the
method that reads it. The ghost field `Stopwatch.clock` holds the latest
reading handed to `Start`, `Pause`, `Toggle` or `AddLap`. `Reset` and
`ClearLaps` keep it as it was, and `CurrentElapsed` reads `now` without
recording it. Every method that reads the clock requires `clock <= now`, which
is how the model states that the clock never runs backwards.

## Model

| member | source | states |
|---|---|---|
| Decimal.NatToString | app.js:28 | `String(n)` of a whole number is a non-empty string of digits with no leading zero: it starts with '0' only when it is the lone "0" of 0 |
| Decimal.ValueOfNatToString | app.js:28 | the numeral `String(n)` denotes exactly n |
| Decimal.IntToString | app.js:112-114 | `String(v)` of a signed number is non-empty, starts with '-' exactly when v < 0, is digits only apart from that sign, has no leading zero, and is exactly "0" for 0 |
| Decimal.IntToStringRoundTrip | app.js:112-114 | reading `String(v)` back gives v; LapRowReadsBack applies it to the numeric CSV columns |
| Decimal.PadStart | app.js:27-28 | `padStart(width, '0')` has length max(width, length of s), ends with s, has only '0' before it, and keeps a numeral's value |
| Decimal.LeadingZeros | app.js:27-28 | zeros put in front of a numeral do not change its value |
| Decimal.NatToStringFits | app.js:27-28 | a number below 10^k has a numeral of at most k digits, so minutes and seconds pad to exactly 2 digits and milliseconds to exactly 3 |
| TimeFormat.Abs | app.js:20 | `Math.abs(ms)` is a non-negative number equal to ms or to -ms |
| TimeFormat.Decompose | app.js:20-26 | the hours, minutes, seconds and milliseconds of the magnitude satisfy `h*3600000 + m*60000 + s*1000 + ms3 == abs(ms)`, with m < 60, s < 60 and ms3 < 1000 |
| TimeFormat.DecomposeCompose | app.js:21-26 | the decomposition is the only one with m < 60, s < 60 and ms3 < 1000 |
| TimeFormat.FormatTime | app.js:18-29 | `formatTime` itself; its behaviour is stated by FormatSign, FormatChars, FormatFields and FormatParse |
| TimeFormat.HoursPart | app.js:27 | the `hh:` prefix; stated by HoursLayout |
| TimeFormat.ClockPart | app.js:28 | the `mm:ss.mmm` part; stated by ClockLayout |
| TimeFormat.Unsigned | app.js:27-28 | the `[hh:]mm:ss.mmm` rendering of the magnitude; stated by FormatFields and UnsignedParse |
| TimeFormat.FormatSign | app.js:19-20 | the rendering starts with '-' exactly when ms < 0, and what follows is the rendering of the magnitude |
| TimeFormat.NegativeFormat | app.js:19-20 | `formatTime(ms) == "-" + formatTime(-ms)` for negative ms |
| TimeFormat.FormatChars | app.js:19-28 | the rendering uses only digits, '-', ':' and '.' |
| TimeFormat.ClockLayout | app.js:28 | `mm:ss.mmm` is 9 characters, with minutes, seconds and milliseconds padded to 2, 2 and 3 digits at fixed places |
| TimeFormat.HoursLayout | app.js:27 | the `hh:` prefix is present exactly when h > 0, and then it is h padded to 2 digits and followed by ':': 3 characters below 10 hours, and no leading zero from 10 hours on |
| TimeFormat.FormatFields | app.js:27-28 | the unsigned rendering is `[hh:]mm:ss.mmm`: the last 9 characters read back as the minutes, seconds and milliseconds, and an hours numeral padded to 2 digits with a ':' comes before them exactly when h > 0 |
| TimeFormat.UnsignedParse | app.js:20-28 | the unsigned rendering reads back as the magnitude |
| TimeFormat.FormatParse | app.js:18-29 | the rendering determines ms: reading `formatTime(ms)` back gives ms |
| TimeFormat.FormatZero | app.js:18-29 | `formatTime(0) == "00:00.000"` |
| TimeFormat.FormatHourMinuteSecond | app.js:18-29 | `formatTime(3661000) == "01:01:01.000"` |
| TimeFormat.FormatHalfSecond | app.js:18-29 | `formatTime(500) == "00:00.500"` |
| TimeFormat.FormatNegativeHalfSecond | app.js:18-29 | `formatTime(-500) == "-00:00.500"` |
| Timing.Elapsed | app.js:31-36 | `currentElapsed` on a timer value; stated by Start, Pause, Reset, ElapsedNeverDecreases and CyclesAccumulate |
| Timing.Start | app.js:42-45 | start is a no-op while running; otherwise it runs from now with elapsedBefore kept, and the elapsed time at now is unchanged |
| Timing.Pause | app.js:58-62 | pause is a no-op while stopped; otherwise it adds `now - startTime` to elapsedBefore and stops, so the elapsed time at now is unchanged and stays frozen afterwards |
| Timing.Reset | app.js:67-71 | reset always ends stopped with startTime 0 and elapsedBefore 0, so the elapsed time is 0 at every clock reading |
| Timing.Apply | app.js:42-62 | one call of start() or pause() keeps the state consistent with a monotone clock and keeps the elapsed time at its clock reading |
| Timing.ElapsedNeverDecreases | app.js:31-36 | with a monotone clock, the elapsed time never decreases across any sequence of starts and pauses |
| Timing.RunAppend | app.js:42-62 | running two sequences of start() and pause() calls one after the other is running their concatenation |
| Timing.CyclesAccumulate | app.js:42-62 | from a stopped state, start/pause cycles accumulate exactly the sum of their running intervals |
| Timing.Scenario | app.js:31-62 | start at 0 reads 1500 at 1500; pause at 1500 still reads 1500 at 4000; running again from 5000 to 5200 gives 1700 |
| Ledger.PrevTotal | app.js:81 | `prevTotal`: the newest entry's total, or 0 for an empty ledger; stated by NextLap and SplitsAddUp |
| Ledger.Valid | app.js:79-84 | the ledger invariant that addLap keeps: entry i has index i + 1 and a split equal to its total minus the previous total; stated by Append, FromTotals and ValidIffFromTotals |
| Ledger.NextLap | app.js:80-83 | the new entry has index `laps.length + 1` and totalMs equal to the total, and lapMs is the total minus the previous entry's total, or the total itself for an empty ledger |
| Ledger.Append | app.js:84 | push adds exactly one entry at the end, leaves the earlier entries as they were, and keeps the ledger invariant |
| Ledger.SplitsAddUp | app.js:79-84 | in a valid ledger, the sum of all lapMs values equals the last entry's totalMs |
| Ledger.FromTotals | app.js:79-84 | pushing one entry per recorded total gives a valid ledger with one entry per total |
| Ledger.TotalsOfFromTotals | app.js:79-84 | the ledger built from a list of totals records exactly those totals, in order: entry i has totalMs equal to total i |
| Ledger.ValidIffFromTotals | app.js:79-84 | a ledger is valid exactly when it is the one that its recorded totals produce through addLap |
| Ledger.NegativeSplitAfterReset | app.js:67-84 | reset keeps the ledger, so a lap of 200 ms after a recorded 5000 ms has a split of -4800 ms |
| Ledger.AppendToCleared | app.js:81-83 | after clearLaps, the next entry has index 1 and its lapMs equals its totalMs |
| Csv.NeedsQuotes | app.js:114 | the test `/[,\n"]/`: a field contains ',', a line feed or '"'; stated by EscapeField |
| Csv.DoubleQuotes | app.js:114 | `replace(/"/g, '""')` keeps the same characters, and changes nothing in a string without quotes |
| Csv.EscapeField | app.js:114 | a field is wrapped in quotes, with its quotes doubled, exactly when it contains ',', a line feed or '"'; otherwise it is written as it is |
| Csv.EscapeRow | app.js:114 | the escaped row has as many fields as the row, and field i is field i escaped |
| Csv.Join | app.js:114 | `join(sep)`; stated by RowRoundTrip and SerializeRoundTrip |
| Csv.Lines | app.js:114 | the outer `rows.map(...)`: one line per row, in order, and line i is row i escaped field by field and joined with ',' |
| Csv.Serialize | app.js:114 | the rows escaped, joined with ',' and then with line feeds; stated by SerializeRoundTrip |
| Csv.FieldRoundTrip | app.js:114 | unescaping an escaped field gives back the original, whatever separator follows it |
| Csv.RowRoundTrip | app.js:114 | reading a line of escaped fields joined with ',' gives back the row |
| Csv.SerializeRoundTrip | app.js:114 | reading the text gives back every row, in order, for a non-empty list of non-empty rows (an empty text reads as one row holding one empty field) |
| Export.Header | app.js:110 | the five column titles; RowAt and ExportRoundTrip state that they are row 0 of the export |
| Export.LapRow | app.js:112 | each lap row has as many fields as the header |
| Export.LapRowReadsBack | app.js:112 | each column of a lap row reads back as the field it was written from: columns 0, 1 and 3 as the numbers index, lapMs and totalMs, columns 2 and 4 through ParseTime as lapMs and totalMs |
| Export.Rows | app.js:110-113 | there is one row more than there are laps, row 0 is the header, and every row has the header's width |
| Export.RowAt | app.js:110-113 | row 0 is the header and row i is the row of lap i, in ledger order |
| Export.RowsSnoc | app.js:111-113 | pushing one more lap pushes exactly its row |
| Export.PlainField | app.js:110-114 | no exported field needs quoting, so escaping leaves each one unchanged |
| Export.Export | app.js:108-114 | export of an empty ledger produces nothing, and otherwise it produces the text |
| Export.ExportRoundTrip | app.js:108-114 | the exported text reads back as the header row followed by one row per lap, in ledger order |
| App.Stopwatch.constructor | app.js:2-6 | the page starts stopped, with nothing accumulated and no laps |
| App.Stopwatch.CurrentElapsed | app.js:31-36 | currentElapsed is the accumulated time plus, while running, `now - startTime`; it is never below elapsedBefore or 0 |
| App.Stopwatch.Start | app.js:42-45 | no-op while running; otherwise it sets running and `startTime = now`; elapsedBefore, the laps and the elapsed time at now are unchanged |
| App.Stopwatch.Pause | app.js:58-62 | no-op while stopped; otherwise `elapsedBefore += now - startTime` and running is cleared; the laps and the elapsed time at now are unchanged |
| App.Stopwatch.Toggle | app.js:127 | the start/pause control pauses while running and starts otherwise, and it flips running |
| App.Stopwatch.Reset | app.js:67-71 | the state is stopped with startTime 0 and elapsedBefore 0, the elapsed time is 0, and the laps are untouched |
| App.Stopwatch.AddLap | app.js:79-84 | pushes exactly one entry with the next index, the current elapsed total and its split; earlier entries and the timing state are unchanged; the splits add up to the total |
| App.Stopwatch.ClearLaps | app.js:101-102 | empties the ledger and leaves the timing state as it was |
| App.Stopwatch.ExportCsv | app.js:108-114 | the rows built by the loop, serialised, are exactly `Export.Export(laps)`: nothing for an empty ledger, otherwise the header and one row per lap |

## Left out

- The DOM is not modelled: element lookups, `renderDisplay`, `drawLapRow` and its newest-first `prepend`, and button text, classes and `disabled` flags. These are presentation only.
- The `requestAnimationFrame`/`cancelAnimationFrame` redraw loop is not modelled, because it is host scheduling. Its redraws only call `formatTime(currentElapsed())`, and both of those are modelled.
- The download part of `exportCSV` is not modelled: the Blob, the object URL and the anchor click. `App.Stopwatch.ExportCsv` returns the text instead.
- The keyboard shortcuts (app.js:133-145) are not modelled. The L and Delete keys are guarded by button `disabled` flags, which are DOM state. Only the start/pause toggle of the click handler is modelled, as `App.Stopwatch.Toggle`.
- Clock readings are whole milliseconds. `performance.now()` returns fractional milliseconds, so the model leaves out two things: `Math.floor(ms % 1000)` on a fraction, and `String(x)` of a non-integer. One consequence: `TimeFormat.FormatParse` (the rendering determines ms) holds only for whole milliseconds. On the page, app.js:26 discards the fraction, so two readings within the same millisecond render the same.
- `performance.now()` itself is not modelled. Each reading is the `now` parameter, and the ghost field `clock` makes monotonicity a precondition.
- Decimal.IntToString: JavaScript writes numbers of 10^21 or more in exponent form. The model always writes plain digits, because it has no bound on integers.
- Numbers are unbounded integers. JavaScript numbers are doubles, which hold integers exactly only up to 2^53, and above that the divisions of app.js:21-25 can round. 2^53 milliseconds is about 285,000 years, far beyond any stopwatch reading.

## Notes on the code

- `addLap` returns nothing (app.js:79-88), so `App.Stopwatch.AddLap` has no result. The new entry is the last element of `laps`, and the contract states it.
- `reset` does not touch `laps` (app.js:67-71). After a reset, the next lap's `lapMs` is the new total minus the last recorded total, so it can be negative (`Ledger.NegativeSplitAfterReset`). The sum invariant (`Ledger.SplitsAddUp`) holds in every case.
- Every field that `exportCSV` writes contains only letters, digits, spaces and `#()-:.`, so the quoting branch of the escape never fires on real exports (`Export.PlainField`). It is still modelled and proved for arbitrary fields.
