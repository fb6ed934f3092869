/** The `Stopwatch` timer and lap state machine with the page left out: the
    clock reading `Date.now()` is a parameter `now`, and the 10 ms interval
    callback `updateTime` is a step of its own that only a running stopwatch
    receives. */
module Stopwatch {
  import opened Options
  import opened TimeFormat

  /** The fields of a `Stopwatch` that are not page elements or the interval
      handle. Lap times are in milliseconds, first lap first. */
  datatype State = State(startTime: int, elapsedTime: int, isRunning: bool, lapTimes: seq<int>)

  /** The state the constructor sets up. */
  const Initial := State(0, 0, false, [])

  /** `lapTimes.reduce((sum, lap) => sum + lap, 0)`: left to right from 0. */
  function Sum(laps: seq<int>): int
  {
    if |laps| == 0 then 0 else Sum(laps[..|laps| - 1]) + laps[|laps| - 1]
  }

  /** Adding one more lap adds its duration to the total. */
  lemma SumAppend(laps: seq<int>, x: int)
    ensures Sum(laps + [x]) == Sum(laps) + x
  {
    assert (laps + [x])[..|laps|] == laps;
  }

  /** The reduction itself, as the loop it performs. */
  method ReduceSum(laps: seq<int>) returns (total: int)
    ensures total == Sum(laps)
  {
    total := 0;
    var i := 0;
    while i < |laps|
      invariant 0 <= i <= |laps|
      invariant total == Sum(laps[..i])
    {
      assert laps[..i + 1] == laps[..i] + [laps[i]];
      SumAppend(laps[..i], laps[i]);
      total := total + laps[i];
      i := i + 1;
    }
    assert laps[..i] == laps;
  }

  /** `start()`: a stopped stopwatch starts running, with its start time set
      back by the time already elapsed; a running one is left alone. */
  function Start(s: State, now: int): (r: State)
    ensures !s.isRunning ==>
      && r.isRunning
      && r.elapsedTime == s.elapsedTime
      && r.lapTimes == s.lapTimes
      && now - r.startTime == s.elapsedTime
    ensures s.isRunning ==> r == s
  {
    if !s.isRunning then s.(startTime := now - s.elapsedTime, isRunning := true) else s
  }

  /** `stop()`: only the running flag changes; the elapsed time stays at the
      value the last interval tick stored. */
  function Stop(s: State): (r: State)
    ensures !r.isRunning
    ensures r.(isRunning := s.isRunning) == s
  {
    if s.isRunning then s.(isRunning := false) else s
  }

  /** `reset()`: stops, then clears the elapsed time and the laps. The start
      time is left as it was; the next `start()` overwrites it. */
  function Reset(s: State): (r: State)
    ensures !r.isRunning && r.elapsedTime == 0 && r.lapTimes == []
    ensures r.startTime == s.startTime
  {
    var stopped := Stop(s);
    stopped.(elapsedTime := 0, lapTimes := [])
  }

  /** The duration `lap()` records: the elapsed time itself for the first
      lap, otherwise the elapsed time less the laps recorded so far. */
  function LapTime(s: State): int
  {
    if |s.lapTimes| == 0 then s.elapsedTime else s.elapsedTime - Sum(s.lapTimes)
  }

  /** Both branches of the lap formula measure from the previous lap
      boundary. */
  lemma LapTimeSinceLastLap(s: State)
    ensures LapTime(s) == s.elapsedTime - Sum(s.lapTimes)
  {
  }

  /** `lap()`: while running, one lap is appended so that the laps add up to
      the elapsed time; while stopped, nothing changes. */
  function Lap(s: State): (r: State)
    ensures !s.isRunning ==> r == s
    ensures s.isRunning ==>
      && |r.lapTimes| == |s.lapTimes| + 1
      && r.lapTimes[..|s.lapTimes|] == s.lapTimes
      && r.lapTimes[|s.lapTimes|] == s.elapsedTime - Sum(s.lapTimes)
      && Sum(r.lapTimes) == r.elapsedTime
      && r.(lapTimes := s.lapTimes) == s
  {
    if s.isRunning then
      LapTimeSinceLastLap(s);
      SumAppend(s.lapTimes, LapTime(s));
      s.(lapTimes := s.lapTimes + [LapTime(s)])
    else s
  }

  /** `updateTime()`, the interval callback: the elapsed time becomes the
      clock reading less the start time; nothing else changes. */
  function UpdateTime(s: State, now: int): (r: State)
    ensures r.startTime + r.elapsedTime == now
    ensures r.(elapsedTime := s.elapsedTime) == s
  {
    s.(elapsedTime := now - s.startTime)
  }

  /** What `updateDisplay()` shows: the stored elapsed time, formatted. */
  function Shown(s: State): Display
  {
    FormatTime(s.elapsedTime)
  }

  /** Starting a stopped stopwatch resumes it: a tick `d` milliseconds later
      reads the time elapsed before plus `d`, and a tick at the same instant
      reads exactly the time elapsed before. */
  lemma StartResumes(s: State, now: int, d: int)
    requires !s.isRunning
    ensures UpdateTime(Start(s, now), now + d).elapsedTime == s.elapsedTime + d
    ensures UpdateTime(Start(s, now), now) == Start(s, now)
  {
  }

  /** A second `start()` at any later time keeps the first start time. */
  lemma StartIdempotent(s: State, now1: int, now2: int)
    ensures Start(Start(s, now1), now2) == Start(s, now1)
  {
  }

  /** Stopping twice is stopping once; resetting twice is resetting once. */
  lemma StopResetIdempotent(s: State)
    ensures Stop(Stop(s)) == Stop(s)
    ensures Reset(Reset(s)) == Reset(s)
  {
  }

  /** Starting and immediately resetting leaves a stopped, zeroed stopwatch
      that shows all zeros. */
  lemma StartThenReset(s: State, now: int)
    ensures Reset(Start(s, now)).isRunning == false
    ensures Reset(Start(s, now)).elapsedTime == 0
    ensures Reset(Start(s, now)).lapTimes == []
    ensures Shown(Reset(Start(s, now))) == Display("00:00:00", "000")
    ensures Shown(Reset(s)) == Display("00:00:00", "000")
  {
    FormatZero();
  }

  // ---------------------------------------------------------------------
  // Runs: sequences of timestamped events

  /** What can happen to a stopwatch: a button (or its keyboard shortcut),
      or the interval callback firing. */
  datatype Command = PressStart | PressStop | PressReset | PressLap | IntervalTick

  /** A command together with the clock reading when it happens. */
  datatype Event = Event(at: int, cmd: Command)

  /** One event. The interval callback only fires while the stopwatch runs,
      since `start()` arms it and `stop()` clears it; a tick at any other
      time is not a possible event. */
  function Step(s: State, e: Event): (r: Option<State>)
    ensures r.None? <==> (e.cmd == IntervalTick && !s.isRunning)
  {
    match e.cmd
    case PressStart => Some(Start(s, e.at))
    case PressStop => Some(Stop(s))
    case PressReset => Some(Reset(s))
    case PressLap => Some(Lap(s))
    case IntervalTick => if s.isRunning then Some(UpdateTime(s, e.at)) else None
  }

  /** The events one after another; `None` if one of them is not possible. */
  function Run(s: State, es: seq<Event>): Option<State>
    decreases |es|
  {
    if |es| == 0 then Some(s)
    else match Step(s, es[0])
      case None => None
      case Some(t) => Run(t, es[1..])
  }

  /** The clock never goes back: each event happens no earlier than `clock`
      and no earlier than the event before it. */
  predicate MonotoneFrom(clock: int, es: seq<Event>)
    decreases |es|
  {
    |es| == 0 || (clock <= es[0].at && MonotoneFrom(es[0].at, es[1..]))
  }

  /** The latest clock reading after the events. */
  function LastTime(clock: int, es: seq<Event>): int
    decreases |es|
  {
    if |es| == 0 then clock else LastTime(es[0].at, es[1..])
  }

  /** What holds of every state a monotone clock can lead to, given the
      latest clock reading `clock`. */
  predicate Inv(s: State, clock: int)
  {
    && 0 <= s.elapsedTime
    && Sum(s.lapTimes) <= s.elapsedTime
    && (forall i :: 0 <= i < |s.lapTimes| ==> 0 <= s.lapTimes[i])
    && (s.isRunning ==> s.startTime + s.elapsedTime <= clock)
  }

  /** A freshly constructed stopwatch satisfies the invariant. */
  lemma InitialInv(clock: int)
    ensures Inv(Initial, clock)
  {
  }

  /** Every possible event at a time no earlier than the clock keeps the
      invariant. Apart from a reset, the elapsed time does not decrease and
      the laps recorded so far stay as they were. */
  lemma StepPreservesInv(s: State, clock: int, e: Event)
    requires Inv(s, clock) && clock <= e.at
    requires Step(s, e).Some?
    ensures Inv(Step(s, e).value, e.at)
    ensures e.cmd != PressReset ==>
      && s.elapsedTime <= Step(s, e).value.elapsedTime
      && |s.lapTimes| <= |Step(s, e).value.lapTimes|
      && Step(s, e).value.lapTimes[..|s.lapTimes|] == s.lapTimes
  {
    var t := Step(s, e).value;
    if e.cmd == PressLap && s.isRunning {
      var n := |s.lapTimes|;
      assert forall i :: 0 <= i < n ==> t.lapTimes[i] == s.lapTimes[i];
      assert t.lapTimes[n] == s.elapsedTime - Sum(s.lapTimes);
    }
  }

  /** The invariant holds after any possible run under a monotone clock. */
  lemma {:induction false} RunPreservesInv(s: State, clock: int, es: seq<Event>)
    requires Inv(s, clock) && MonotoneFrom(clock, es)
    requires Run(s, es).Some?
    ensures Inv(Run(s, es).value, LastTime(clock, es))
    decreases |es|
  {
    if |es| > 0 {
      StepPreservesInv(s, clock, es[0]);
      RunPreservesInv(Step(s, es[0]).value, es[0].at, es[1..]);
    }
  }

  /** Without a reset, a run under a monotone clock never lowers the elapsed
      time and only appends laps. */
  lemma {:induction false} RunWithoutResetGrows(s: State, clock: int, es: seq<Event>)
    requires Inv(s, clock) && MonotoneFrom(clock, es)
    requires forall i :: 0 <= i < |es| ==> es[i].cmd != PressReset
    requires Run(s, es).Some?
    ensures s.elapsedTime <= Run(s, es).value.elapsedTime
    ensures |s.lapTimes| <= |Run(s, es).value.lapTimes|
    ensures Run(s, es).value.lapTimes[..|s.lapTimes|] == s.lapTimes
    decreases |es|
  {
    if |es| > 0 {
      var t := Step(s, es[0]).value;
      StepPreservesInv(s, clock, es[0]);
      RunWithoutResetGrows(t, es[0].at, es[1..]);
      var u := Run(s, es).value;
      assert u == Run(t, es[1..]).value;
      assert u.lapTimes[..|t.lapTimes|][..|s.lapTimes|] == u.lapTimes[..|s.lapTimes|];
    }
  }

  /** From a fresh stopwatch, under a monotone clock, the elapsed time is
      never negative, no lap is negative, and the laps never add up to more
      than the elapsed time. */
  lemma ReachableStates(clock: int, es: seq<Event>)
    requires MonotoneFrom(clock, es)
    requires Run(Initial, es).Some?
    ensures 0 <= Run(Initial, es).value.elapsedTime
    ensures Sum(Run(Initial, es).value.lapTimes) <= Run(Initial, es).value.elapsedTime
    ensures forall i :: 0 <= i < |Run(Initial, es).value.lapTimes| ==>
              0 <= Run(Initial, es).value.lapTimes[i]
  {
    InitialInv(clock);
    RunPreservesInv(Initial, clock, es);
  }

  /** A stopwatch in the invariant shows in-range fields that read back from
      the display. */
  lemma ShownReadsBack(s: State, clock: int)
    requires Inv(s, clock)
    ensures InRange(Decompose(s.elapsedTime))
    ensures ParseDisplay(Shown(s)) == Some(Decompose(s.elapsedTime))
  {
    FormatTimeParses(s.elapsedTime);
  }

  /** Laps taken when the ticks have stored 1000 and then 2500 milliseconds
      are recorded as 1000 and 1500. The lap between ticks, at 2504, measures
      the 2500 the last tick stored, and stopping keeps that value too. */
  lemma LapExample()
    ensures Run(Initial, [
              Event(0, PressStart),
              Event(1000, IntervalTick),
              Event(1000, PressLap),
              Event(2500, IntervalTick),
              Event(2504, PressLap),
              Event(2507, PressStop)])
            == Some(State(0, 2500, false, [1000, 1500]))
  {
    LapExampleFirstLap();
    LapExampleSecondLap();
  }

  /** The first three events of the lap example. */
  lemma LapExampleFirstLap()
    ensures Run(Initial, [
              Event(0, PressStart),
              Event(1000, IntervalTick),
              Event(1000, PressLap),
              Event(2500, IntervalTick),
              Event(2504, PressLap),
              Event(2507, PressStop)])
            == Run(State(0, 1000, true, [1000]), [
              Event(2500, IntervalTick),
              Event(2504, PressLap),
              Event(2507, PressStop)])
  {
    var es := [
      Event(0, PressStart),
      Event(1000, IntervalTick),
      Event(1000, PressLap),
      Event(2500, IntervalTick),
      Event(2504, PressLap),
      Event(2507, PressStop)];
    var s1, s2 := State(0, 0, true, []), State(0, 1000, true, []);
    RunFirst(Initial, es, s1);
    assert es[1..][1..] == es[2..];
    RunFirst(s1, es[1..], s2);
    assert es[2..][1..] == es[3..];
    RunFirst(s2, es[2..], State(0, 1000, true, [1000]));
  }

  /** The last three events of the lap example. */
  lemma LapExampleSecondLap()
    ensures Run(State(0, 1000, true, [1000]), [
              Event(2500, IntervalTick),
              Event(2504, PressLap),
              Event(2507, PressStop)])
            == Some(State(0, 2500, false, [1000, 1500]))
  {
    var es := [Event(2500, IntervalTick), Event(2504, PressLap), Event(2507, PressStop)];
    var s4 := State(0, 2500, true, [1000]);
    var s5 := State(0, 2500, true, [1000, 1500]);
    var s6 := State(0, 2500, false, [1000, 1500]);
    assert [1000][..0] == [];
    assert s4.lapTimes + [LapTime(s4)] == [1000, 1500];
    RunFirst(State(0, 1000, true, [1000]), es, s4);
    assert es[1..][1..] == es[2..];
    RunFirst(s4, es[1..], s5);
    RunFirst(s5, es[2..], s6);
    assert Run(s6, es[2..][1..]) == Some(s6);
  }

  /** A run whose first event is possible continues from the state it leads
      to. */
  lemma RunFirst(s: State, es: seq<Event>, t: State)
    requires |es| > 0 && Step(s, es[0]) == Some(t)
    ensures Run(s, es) == Run(t, es[1..])
  {
  }
}
