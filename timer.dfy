/**
 * The workout timer of src/App.jsx: the state record, the pure transition
 * function `timerReducer`, and the effects that drive it, each written as one
 * deterministic step on the state (the one-second clock, the phase switch when
 * the time runs out, the glove-up countdown and the resynchronisation of the
 * time while paused).
 */
module Timer {
  import opened Wrappers
  import opened Helpers

  /** `START_COUNTDOWN_SECONDS`, the glove-up time. */
  const StartCountdownSeconds := 5

  datatype Phase = Round | Rest

  datatype TimerState = TimerState(
    isRunning: bool,
    isCountingDown: bool,
    countdownLeft: int,
    phase: Phase,
    roundIndex: int,
    timeLeft: int,
    activeCallout: Option<string>)

  /** The actions `dispatch` is called with; `Unrecognised` stands for any other type. */
  datatype Action =
    | Tick
    | StartCountdown
    | CountdownTick
    | StartWorkout
    | Pause
    | Resume
    | PhaseTransition(totalRounds: int, roundSeconds: int, restSeconds: int)
    | SetActiveCallout(callout: string)
    | Reset(timeLeft: int)
    | NextPhase(totalRounds: int, roundSeconds: int, restSeconds: int)
    | SetTimeLeft(timeLeft: int)
    | Unrecognised

  /** The state `RESET` yields, which is also the reducer's initial state. */
  function Fresh(timeLeft: int): TimerState {
    TimerState(false, false, StartCountdownSeconds, Round, 1, timeLeft, None)
  }

  /** `timerReducer(state, action)`. Only the start actions set the clock going, only
      START_COUNTDOWN starts the countdown, only the phase changes and RESET move to another
      round, and the callout either clears or is set by SET_ACTIVE_CALLOUT. */
  function TimerReducer(s: TimerState, a: Action): (r: TimerState)
    ensures r.isRunning && !s.isRunning ==> a.StartWorkout? || a.Resume?
    ensures r.isCountingDown && !s.isCountingDown ==> a.StartCountdown?
    ensures r.roundIndex != s.roundIndex ==> a.PhaseTransition? || a.NextPhase? || a.Reset?
    ensures r.phase != s.phase ==> a.PhaseTransition? || a.NextPhase? || a.Reset?
    ensures r.activeCallout != s.activeCallout ==> r.activeCallout == None || a.SetActiveCallout?
    ensures r.timeLeft != s.timeLeft ==>
      a.Tick? || a.PhaseTransition? || a.NextPhase? || a.Reset? || a.SetTimeLeft?
  {
    match a
    case Tick => s.(timeLeft := s.timeLeft - 1)
    case StartCountdown => s.(isCountingDown := true, countdownLeft := StartCountdownSeconds)
    case CountdownTick => s.(countdownLeft := s.countdownLeft - 1)
    case StartWorkout => s.(isCountingDown := false, isRunning := true)
    case Pause => s.(isRunning := false)
    case Resume => s.(isRunning := true)
    case PhaseTransition(totalRounds, roundSeconds, restSeconds) =>
      if s.phase == Round then
        if s.roundIndex >= totalRounds then
          s.(isRunning := false, phase := Round, timeLeft := roundSeconds, activeCallout := None)
        else
          s.(phase := Rest, timeLeft := restSeconds, activeCallout := None)
      else
        s.(roundIndex := Clamp(s.roundIndex + 1, 1, totalRounds), phase := Round,
           timeLeft := roundSeconds, activeCallout := None)
    case SetActiveCallout(callout) => s.(activeCallout := Some(callout))
    case Reset(timeLeft) => Fresh(timeLeft)
    case NextPhase(totalRounds, roundSeconds, restSeconds) =>
      if s.phase == Round then
        if s.roundIndex >= totalRounds then
          s.(isRunning := false, isCountingDown := false, countdownLeft := StartCountdownSeconds,
             phase := Round, roundIndex := 1, timeLeft := roundSeconds, activeCallout := None)
        else
          s.(isRunning := false, isCountingDown := false, countdownLeft := StartCountdownSeconds,
             phase := Rest, timeLeft := restSeconds, activeCallout := None)
      else
        s.(isRunning := false, isCountingDown := false, countdownLeft := StartCountdownSeconds,
           phase := Round, roundIndex := Clamp(s.roundIndex + 1, 1, totalRounds),
           timeLeft := roundSeconds, activeCallout := None)
    case SetTimeLeft(timeLeft) => s.(timeLeft := timeLeft)
    case Unrecognised => s
  }

  // ---------------------------------------------------------------------------
  // The effects, as deterministic steps

  /** One firing of the one-second interval, which exists only while running. */
  function ClockSecond(s: TimerState): (r: TimerState)
    ensures s.isRunning ==> r == TimerReducer(s, Tick)
    ensures !s.isRunning ==> r == s
  {
    if s.isRunning then TimerReducer(s, Tick) else s
  }

  /** The phase switch: fires only while running with no time left. */
  function PhaseSwitch(s: TimerState, totalRounds: int, roundSeconds: int, restSeconds: int): (r: TimerState)
    ensures !s.isRunning || s.timeLeft > 0 ==> r == s
    ensures s.isRunning && s.timeLeft <= 0 ==>
      && r == TimerReducer(s, PhaseTransition(totalRounds, roundSeconds, restSeconds))
      && r.activeCallout == None && (r.phase != s.phase || r.isRunning != s.isRunning)
  {
    if !s.isRunning || s.timeLeft > 0 then s
    else TimerReducer(s, PhaseTransition(totalRounds, roundSeconds, restSeconds))
  }

  /** The countdown timeout firing one second after the countdown effect armed it; it is
      cleared at once when one second or less is left. */
  function CountdownSecond(s: TimerState): (r: TimerState)
    ensures s.isCountingDown && s.countdownLeft > 1 ==> r == s.(countdownLeft := s.countdownLeft - 1)
    ensures !(s.isCountingDown && s.countdownLeft > 1) ==> r == s
  {
    if s.isCountingDown && s.countdownLeft > 1 then TimerReducer(s, CountdownTick) else s
  }

  /** The countdown effect: with one second or less left, the workout starts. */
  function CountdownSettle(s: TimerState): (r: TimerState)
    ensures s.isCountingDown && s.countdownLeft <= 1 ==> r == s.(isCountingDown := false, isRunning := true)
    ensures !(s.isCountingDown && s.countdownLeft <= 1) ==> r == s
  {
    if s.isCountingDown && s.countdownLeft <= 1 then TimerReducer(s, StartWorkout) else s
  }

  /** The two "keep timeLeft in sync when paused" effects. */
  function PausedResync(s: TimerState, roundSeconds: int, restSeconds: int): (r: TimerState)
    ensures !s.isRunning && s.phase == Round ==> r.timeLeft == roundSeconds
    ensures !s.isRunning && s.phase == Rest ==> r.timeLeft == restSeconds
    ensures r.(timeLeft := s.timeLeft) == s
    ensures s.isRunning ==> r == s
  {
    if !s.isRunning && s.phase == Round then TimerReducer(s, SetTimeLeft(roundSeconds))
    else if !s.isRunning && s.phase == Rest then TimerReducer(s, SetTimeLeft(restSeconds))
    else s
  }

  /** One second of wall-clock time: the countdown timeout and its effect while counting
      down, otherwise the clock tick and the phase switch it may trigger. */
  function Second(s: TimerState, totalRounds: int, roundSeconds: int, restSeconds: int): (r: TimerState)
    ensures s.isCountingDown ==>
      r.timeLeft == s.timeLeft && r.phase == s.phase && r.roundIndex == s.roundIndex
    ensures s.isCountingDown && s.countdownLeft > 2 ==> r == s.(countdownLeft := s.countdownLeft - 1)
    ensures !s.isRunning && !s.isCountingDown ==> r == s
    ensures s.isRunning && !s.isCountingDown && s.timeLeft > 1 ==> r == s.(timeLeft := s.timeLeft - 1)
  {
    if s.isCountingDown then CountdownSettle(CountdownSecond(s))
    else PhaseSwitch(ClockSecond(s), totalRounds, roundSeconds, restSeconds)
  }

  /** A stopped timer stays as it is, however many seconds pass. */
  function Seconds(s: TimerState, n: nat, totalRounds: int, roundSeconds: int, restSeconds: int): (r: TimerState)
    ensures !s.isRunning && !s.isCountingDown ==> r == s
    decreases n
  {
    if n == 0 then s
    else Seconds(Second(s, totalRounds, roundSeconds, restSeconds), n - 1, totalRounds, roundSeconds, restSeconds)
  }

  // ---------------------------------------------------------------------------
  // The invariant the commands and steps keep

  /** Running and counting down exclude each other; the countdown shows 1..5; rounds are
      numbered from 1 to the round count (round 1 also when the count is below 1); a rest
      only comes before a further round. */
  ghost predicate TimerInv(s: TimerState, totalRounds: int) {
    && !(s.isRunning && s.isCountingDown)
    && 1 <= s.countdownLeft <= StartCountdownSeconds
    && 1 <= s.roundIndex
    && (s.roundIndex == 1 || s.roundIndex <= totalRounds)
    && (s.phase == Rest ==> s.roundIndex < totalRounds)
  }

  /** The initial and reset state satisfies the invariant, whatever the round count. */
  lemma FreshKeepsInv(timeLeft: int, totalRounds: int)
    ensures TimerInv(Fresh(timeLeft), totalRounds)
  {
  }

  /** The conditions under which the app dispatches each action. */
  ghost predicate Dispatchable(s: TimerState, a: Action, totalRounds: int) {
    match a
    case StartCountdown => !s.isRunning
    case CountdownTick => s.isCountingDown && s.countdownLeft > 1
    case Resume => !s.isRunning && !s.isCountingDown
    case PhaseTransition(t, _, _) => t == totalRounds
    case NextPhase(t, _, _) => t == totalRounds
    case _ => true
  }

  /** Every action dispatched under its condition keeps the invariant. */
  lemma ReducerKeepsInv(s: TimerState, a: Action, totalRounds: int)
    requires TimerInv(s, totalRounds) && Dispatchable(s, a, totalRounds)
    ensures TimerInv(TimerReducer(s, a), totalRounds)
  {
  }

  lemma StepsKeepInv(s: TimerState, totalRounds: int, roundSeconds: int, restSeconds: int)
    requires TimerInv(s, totalRounds)
    ensures TimerInv(ClockSecond(s), totalRounds)
    ensures TimerInv(PhaseSwitch(s, totalRounds, roundSeconds, restSeconds), totalRounds)
    ensures TimerInv(CountdownSecond(s), totalRounds)
    ensures TimerInv(CountdownSettle(s), totalRounds)
    ensures TimerInv(PausedResync(s, roundSeconds, restSeconds), totalRounds)
  {
  }

  // ---------------------------------------------------------------------------
  // Properties of the reducer

  /** TICK takes one second off and changes nothing else; an unrecognised action returns
      the state as it is. */
  lemma TickAndUnrecognised(s: TimerState)
    ensures TimerReducer(s, Tick).timeLeft == s.timeLeft - 1
    ensures TimerReducer(s, Tick).(timeLeft := s.timeLeft) == s
    ensures TimerReducer(s, Unrecognised) == s
  {
  }

  /** PAUSE changes only `isRunning`, so the callout on display stays. */
  lemma PauseKeepsCallout(s: TimerState)
    ensures TimerReducer(s, Pause) == s.(isRunning := false)
    ensures TimerReducer(s, Pause).activeCallout == s.activeCallout
  {
  }

  /** The end of a round: before the last round a rest follows with the round number kept;
      after the last round the session stops with the clock back at `roundSeconds`. */
  lemma PhaseTransitionFromRound(s: TimerState, totalRounds: int, roundSeconds: int, restSeconds: int)
    requires s.phase == Round
    ensures var r := TimerReducer(s, PhaseTransition(totalRounds, roundSeconds, restSeconds));
      && r.activeCallout == None
      && r.roundIndex == s.roundIndex
      && (s.roundIndex < totalRounds ==>
            r.phase == Rest && r.timeLeft == restSeconds && r.isRunning == s.isRunning)
      && (s.roundIndex >= totalRounds ==>
            r.phase == Round && r.timeLeft == roundSeconds && !r.isRunning)
  {
  }

  /** The end of a rest: the next round starts with the round number advanced and clamped
      to 1..totalRounds. */
  lemma PhaseTransitionFromRest(s: TimerState, totalRounds: int, roundSeconds: int, restSeconds: int)
    requires s.phase == Rest
    ensures var r := TimerReducer(s, PhaseTransition(totalRounds, roundSeconds, restSeconds));
      && r.phase == Round && r.timeLeft == roundSeconds && r.activeCallout == None
      && r.roundIndex == Clamp(s.roundIndex + 1, 1, totalRounds)
      && (totalRounds >= 1 ==> 1 <= r.roundIndex <= totalRounds)
      && (1 <= s.roundIndex < totalRounds ==> r.roundIndex == s.roundIndex + 1)
  {
  }

  /** NEXT always leaves the timer stopped with no countdown, whatever it was doing; on the
      last round it wraps round to round 1. */
  lemma NextPhaseStops(s: TimerState, totalRounds: int, roundSeconds: int, restSeconds: int)
    ensures var r := TimerReducer(s, NextPhase(totalRounds, roundSeconds, restSeconds));
      && !r.isRunning && !r.isCountingDown && r.countdownLeft == StartCountdownSeconds
      && r.activeCallout == None
      && (s.phase == Round && s.roundIndex >= totalRounds ==>
            r.phase == Round && r.roundIndex == 1 && r.timeLeft == roundSeconds)
      && (s.phase == Round && s.roundIndex < totalRounds ==>
            r.phase == Rest && r.roundIndex == s.roundIndex && r.timeLeft == restSeconds)
      && (s.phase == Rest ==>
            r.phase == Round && r.roundIndex == Clamp(s.roundIndex + 1, 1, totalRounds)
            && r.timeLeft == roundSeconds)
  {
  }

  /** RESET yields the fresh state whatever came before. */
  lemma ResetIsFresh(s: TimerState, timeLeft: int)
    ensures var r := TimerReducer(s, Reset(timeLeft));
      && !r.isRunning && !r.isCountingDown && r.countdownLeft == StartCountdownSeconds
      && r.phase == Round && r.roundIndex == 1 && r.timeLeft == timeLeft && r.activeCallout == None
  {
  }

  /** Pausing in a round and letting the resync effect run sets the clock back to the full
      round length, whatever time was left. */
  lemma PauseRestartsRound(s: TimerState, roundSeconds: int, restSeconds: int)
    requires s.isRunning && s.phase == Round
    ensures PausedResync(TimerReducer(s, Pause), roundSeconds, restSeconds).timeLeft == roundSeconds
  {
  }

  /** The three-round session with 2-second rounds and 1-second rests: after the start
      command, 4 countdown seconds and 3 * 2 + 2 * 1 workout seconds the timer has stopped on
      round 3 with the clock back at the round length. */
  lemma ThreeRoundSession()
    ensures var started := TimerReducer(Fresh(2), StartCountdown);
      && Seconds(started, 4, 3, 2, 1) == TimerState(true, false, 1, Round, 1, 2, None)
      && Seconds(started, 12, 3, 2, 1) == TimerState(false, false, 1, Round, 3, 2, None)
  {
    var s0 := TimerReducer(Fresh(2), StartCountdown);
    assert s0 == TimerState(false, true, 5, Round, 1, 2, None);
    var s4 := TimerState(true, false, 1, Round, 1, 2, None);
    assert Seconds(s0, 4, 3, 2, 1) == s4 by {
      var c4 := TimerState(false, true, 4, Round, 1, 2, None);
      var c3 := TimerState(false, true, 3, Round, 1, 2, None);
      var c2 := TimerState(false, true, 2, Round, 1, 2, None);
      assert Second(s0, 3, 2, 1) == c4;
      assert Second(c4, 3, 2, 1) == c3;
      assert Second(c3, 3, 2, 1) == c2;
      assert Second(c2, 3, 2, 1) == s4;
      assert Seconds(c2, 1, 3, 2, 1) == s4;
      assert Seconds(c3, 2, 3, 2, 1) == s4;
      assert Seconds(c4, 3, 3, 2, 1) == s4;
    }
    var r1a := s4.(timeLeft := 1);
    var rest1 := TimerState(true, false, 1, Rest, 1, 1, None);
    var r2 := TimerState(true, false, 1, Round, 2, 2, None);
    var r2a := r2.(timeLeft := 1);
    var rest2 := TimerState(true, false, 1, Rest, 2, 1, None);
    var r3 := TimerState(true, false, 1, Round, 3, 2, None);
    var r3a := r3.(timeLeft := 1);
    var done := TimerState(false, false, 1, Round, 3, 2, None);
    assert Second(s4, 3, 2, 1) == r1a;
    assert Second(r1a, 3, 2, 1) == rest1;
    assert Second(rest1, 3, 2, 1) == r2;
    assert Second(r2, 3, 2, 1) == r2a;
    assert Second(r2a, 3, 2, 1) == rest2;
    assert Second(rest2, 3, 2, 1) == r3;
    assert Second(r3, 3, 2, 1) == r3a;
    assert Second(r3a, 3, 2, 1) == done;
    assert Seconds(r3a, 1, 3, 2, 1) == done;
    assert Seconds(r3, 2, 3, 2, 1) == done;
    assert Seconds(rest2, 3, 3, 2, 1) == done;
    assert Seconds(r2a, 4, 3, 2, 1) == done;
    assert Seconds(r2, 5, 3, 2, 1) == done;
    assert Seconds(rest1, 6, 3, 2, 1) == done;
    assert Seconds(r1a, 7, 3, 2, 1) == done;
    assert Seconds(s4, 8, 3, 2, 1) == done;
    SecondsAdd(s0, 4, 8, 3, 2, 1);
  }

  lemma {:induction false} SecondsAdd(s: TimerState, m: nat, n: nat, totalRounds: int, roundSeconds: int, restSeconds: int)
    ensures Seconds(s, m + n, totalRounds, roundSeconds, restSeconds)
         == Seconds(Seconds(s, m, totalRounds, roundSeconds, restSeconds), n, totalRounds, roundSeconds, restSeconds)
    decreases m
  {
    if m > 0 {
      SecondsAdd(Second(s, totalRounds, roundSeconds, restSeconds), m - 1, n, totalRounds, roundSeconds, restSeconds);
    }
  }

  /** The invariant holds for any number of seconds. */
  lemma {:induction false} SecondsKeepInv(s: TimerState, n: nat, totalRounds: int, roundSeconds: int, restSeconds: int)
    requires TimerInv(s, totalRounds)
    ensures TimerInv(Seconds(s, n, totalRounds, roundSeconds, restSeconds), totalRounds)
    decreases n
  {
    if n > 0 {
      var s' := Second(s, totalRounds, roundSeconds, restSeconds);
      StepsKeepInv(s, totalRounds, roundSeconds, restSeconds);
      StepsKeepInv(CountdownSecond(s), totalRounds, roundSeconds, restSeconds);
      StepsKeepInv(ClockSecond(s), totalRounds, roundSeconds, restSeconds);
      SecondsKeepInv(s', n - 1, totalRounds, roundSeconds, restSeconds);
    }
  }
}
