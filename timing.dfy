/**
 * The stopwatch's timing state machine, on values: the three module-level
 * variables running, startTime and elapsedBefore, and what start, pause,
 * reset and currentElapsed do to or read from them. Clock readings are whole
 * milliseconds handed in as `now`.
 */
module Timing {

  datatype Timer = Timer(running: bool, startTime: int, elapsedBefore: int)

  /** The state at page load: stopped, nothing accumulated. */
  const Initial: Timer := Timer(false, 0, 0)

  /** currentElapsed(): the accumulated time, plus the open interval while running. */
  function Elapsed(t: Timer, now: int): int {
    if t.running then (now - t.startTime) + t.elapsedBefore else t.elapsedBefore
  }

  /**
   * The state is consistent with a clock that has read `clock` most recently:
   * nothing negative has been accumulated and a running interval did not start in the future.
   */
  predicate WellFormed(t: Timer, clock: int) {
    0 <= t.elapsedBefore && (t.running ==> t.startTime <= clock)
  }

  /** start(): a no-op while running; otherwise opens an interval at `now`. */
  function Start(t: Timer, now: int): (r: Timer)
    ensures r.running && Elapsed(r, now) == Elapsed(t, now)
    ensures r.elapsedBefore == t.elapsedBefore
    ensures t.running ==> r == t
    ensures !t.running ==> r.startTime == now
  {
    if t.running then t else Timer(true, now, t.elapsedBefore)
  }

  /** pause(): a no-op while stopped; otherwise closes the open interval into elapsedBefore. */
  function Pause(t: Timer, now: int): (r: Timer)
    ensures !r.running && r.startTime == t.startTime
    ensures Elapsed(r, now) == Elapsed(t, now)
    ensures forall later :: Elapsed(r, later) == Elapsed(t, now)
    ensures !t.running ==> r == t
    ensures t.running ==> r.elapsedBefore == t.elapsedBefore + (now - t.startTime)
  {
    if !t.running then t else Timer(false, t.startTime, t.elapsedBefore + (now - t.startTime))
  }

  /** reset(): whatever the state, back to the initial one. */
  function Reset(t: Timer): (r: Timer)
    ensures !r.running && r.startTime == 0 && r.elapsedBefore == 0
    ensures forall now :: Elapsed(r, now) == 0
  {
    Initial
  }

  /** A call of start() or pause(), at a clock reading. */
  datatype Command = StartAt(at: int) | PauseAt(at: int)

  function Apply(t: Timer, c: Command): (r: Timer)
    ensures forall clock :: WellFormed(t, clock) && clock <= c.at ==>
      WellFormed(r, c.at) && Elapsed(r, c.at) == Elapsed(t, c.at)
  {
    match c
    case StartAt(now) => Start(t, now)
    case PauseAt(now) => Pause(t, now)
  }

  /** The commands in order, starting from t. */
  function Run(t: Timer, cmds: seq<Command>): Timer
    decreases |cmds|
  {
    if cmds == [] then t else Run(Apply(t, cmds[0]), cmds[1..])
  }

  /** The clock never runs backwards: each command comes at or after the one before, and after `clock`. */
  predicate Monotone(clock: int, cmds: seq<Command>)
    decreases |cmds|
  {
    cmds == [] || (clock <= cmds[0].at && Monotone(cmds[0].at, cmds[1..]))
  }

  /** The clock reading of the last command, or `clock` when there is none. */
  function LastTime(clock: int, cmds: seq<Command>): int
    decreases |cmds|
  {
    if cmds == [] then clock else LastTime(cmds[0].at, cmds[1..])
  }

  /**
   * With a monotone clock, elapsed time never decreases across any sequence
   * of starts and pauses, read at or after the last of them.
   */
  lemma {:induction false} ElapsedNeverDecreases(t: Timer, clock: int, cmds: seq<Command>, later: int)
    requires WellFormed(t, clock) && Monotone(clock, cmds) && LastTime(clock, cmds) <= later
    ensures WellFormed(Run(t, cmds), LastTime(clock, cmds))
    ensures Elapsed(t, clock) <= Elapsed(Run(t, cmds), later)
    decreases |cmds|
  {
    if cmds != [] {
      var c := cmds[0];
      var t' := Apply(t, c);
      assert WellFormed(t', c.at) && Elapsed(t', c.at) == Elapsed(t, c.at);
      ElapsedNeverDecreases(t', c.at, cmds[1..], later);
    }
  }

  lemma {:induction false} RunAppend(t: Timer, a: seq<Command>, b: seq<Command>)
    ensures Run(t, a + b) == Run(Run(t, a), b)
    decreases |a|
  {
    if a == [] {
      assert a + b == b;
    } else {
      assert (a + b)[1..] == a[1..] + b;
      RunAppend(Apply(t, a[0]), a[1..], b);
    }
  }

  /** A running interval, from the start press to the pause press. */
  datatype Span = Span(from: int, to: int)

  /** Starts and pauses, one pair per span. */
  function Presses(spans: seq<Span>): (cmds: seq<Command>)
    ensures |cmds| == 2 * |spans|
  {
    if spans == [] then [] else [StartAt(spans[0].from), PauseAt(spans[0].to)] + Presses(spans[1..])
  }

  function TotalRunning(spans: seq<Span>): int {
    if spans == [] then 0 else (spans[0].to - spans[0].from) + TotalRunning(spans[1..])
  }

  /** From a stopped state, start/pause cycles accumulate exactly the lengths of their intervals. */
  lemma {:induction false} CyclesAccumulate(t: Timer, spans: seq<Span>)
    requires !t.running
    ensures !Run(t, Presses(spans)).running
    ensures Run(t, Presses(spans)).elapsedBefore == t.elapsedBefore + TotalRunning(spans)
    ensures forall now :: Elapsed(Run(t, Presses(spans)), now) == t.elapsedBefore + TotalRunning(spans)
    decreases |spans|
  {
    if spans != [] {
      var s := spans[0];
      var pair := [StartAt(s.from), PauseAt(s.to)];
      assert Presses(spans) == pair + Presses(spans[1..]);
      RunAppend(t, pair, Presses(spans[1..]));
      var t' := Run(t, pair);
      assert pair[1..] == [PauseAt(s.to)];
      assert Run(Start(t, s.from), [PauseAt(s.to)]) == Run(Pause(Start(t, s.from), s.to), [PauseAt(s.to)][1..]);
      assert [PauseAt(s.to)][1..] == [];
      assert t' == Pause(Start(t, s.from), s.to);
      CyclesAccumulate(t', spans[1..]);
    }
  }

  /**
   * Start at 0 and read 1500 while running; pause at 1500 and read 1500 later;
   * start again at 5000, pause at 5200: 1700 in all.
   */
  lemma Scenario()
    ensures Elapsed(Start(Initial, 0), 1500) == 1500
    ensures Elapsed(Pause(Start(Initial, 0), 1500), 4000) == 1500
    ensures Elapsed(Pause(Start(Pause(Start(Initial, 0), 1500), 5000), 5200), 6000) == 1700
  {
  }
}
