/**
 * The session controller of src/App.jsx: the settings loaded at start-up, the
 * command handlers (start/pause, next, reset, back, mode selection, HIIT start)
 * and the effects around the timer, as methods of one object whose fields are
 * the component's state and refs. The announcement sink (`speak`) is modelled as
 * the log `announcements`; the random combo pick is a parameter.
 */
module Session {
  import opened Wrappers
  import opened Helpers
  import opened Timer
  import Speech
  import HiitSetup

  datatype Mode = Bag | Shadow | Hiit

  datatype Screen = Intro | HiitSetupScreen | Workout

  const DefaultRounds := 6
  const DefaultRoundSeconds := 180
  const DefaultRestSeconds := 60
  const DefaultHiitWorkSeconds := 30
  const DefaultHiitRestSeconds := 15
  const DefaultExercises: seq<string> := ["Burpees", "Push-ups", "Jump Squats"]
  const HiitRounds := 10

  /** `Number(x) || fallback` for an integer setting: a missing or non-numeric value
      (`None`) and zero, which is falsy, both give the fallback. */
  function NumberOr(x: Option<int>, fallback: int): (r: int)
    ensures x.Some? && x.value != 0 ==> r == x.value
    ensures x.None? || x.value == 0 ==> r == fallback
    ensures fallback != 0 ==> r != 0
  {
    match x
    case Some(v) => if v != 0 then v else fallback
    case None => fallback
  }

  /** `Array.isArray(saved) && saved.length ? saved : fallback`. */
  function ListOr(saved: Option<seq<string>>, fallback: seq<string>): (r: seq<string>)
    ensures saved.Some? && saved.value != [] ==> r == saved.value
    ensures saved.None? || saved.value == [] ==> r == fallback
    ensures fallback != [] ==> r != []
  {
    if saved.Some? && saved.value != [] then saved.value else fallback
  }

  /** What `handleStartPause` dispatches: PAUSE while running, nothing while counting down,
      RESUME in a rest, START_COUNTDOWN otherwise. */
  function StartPauseAction(s: TimerState): (r: Option<Action>)
    ensures r.None? <==> !s.isRunning && s.isCountingDown
    ensures s.isRunning ==> r == Some(Pause)
    ensures r == Some(Resume) <==> !s.isRunning && !s.isCountingDown && s.phase != Round
    ensures r == Some(StartCountdown) <==> !s.isRunning && !s.isCountingDown && s.phase == Round
  {
    if s.isRunning then Some(Pause)
    else if s.isCountingDown then None
    else if s.phase != Round then Some(Resume)
    else Some(StartCountdown)
  }

  function Dispatch(s: TimerState, a: Option<Action>): TimerState {
    match a
    case None => s
    case Some(action) => TimerReducer(s, action)
  }

  /** The effect of start/pause on the timer: running pauses (and keeps the callout), a
      countdown is not restarted, a rest resumes at once, a round gets the 5-second
      countdown; running and counting down still exclude each other afterwards. */
  lemma StartPauseOutcome(s: TimerState)
    requires !(s.isRunning && s.isCountingDown)
    ensures var r := Dispatch(s, StartPauseAction(s));
      && !(r.isRunning && r.isCountingDown)
      && (s.isRunning ==> r == s.(isRunning := false))
      && (!s.isRunning && s.isCountingDown ==> r == s)
      && (!s.isRunning && !s.isCountingDown && s.phase == Rest ==> r == s.(isRunning := true))
      && (!s.isRunning && !s.isCountingDown && s.phase == Round ==>
            r == s.(isCountingDown := true, countdownLeft := StartCountdownSeconds))
  {
  }

  /** The exercise of a HIIT round: the selection is called in turn, round k getting the
      ((k - 1) mod n)-th of the n exercises. */
  function ExerciseFor(roundIndex: int, exercises: seq<string>): (r: string)
    requires roundIndex >= 1 && exercises != []
    ensures r in exercises
  {
    exercises[(roundIndex - 1) % |exercises|]
  }

  /** Shifting a non-negative number by the modulus keeps its remainder. */
  lemma ModShift(a: int, n: int)
    requires a >= 0 && n > 0
    ensures (a + n) % n == a % n
  {
    var q, q' := a / n, (a + n) / n;
    var r, r' := a % n, (a + n) % n;
    var k := q' - q - 1;
    assert k * n == q' * n - q * n - n;
    assert k * n == r - r';
  }

  lemma SmallMod(a: int, n: int)
    requires 0 <= a < n
    ensures a % n == a
  {
  }

  /** The first n rounds follow the selection order, and round k + n repeats round k. */
  lemma ExerciseForCycles(roundIndex: int, exercises: seq<string>)
    requires roundIndex >= 1 && exercises != []
    ensures roundIndex <= |exercises| ==> ExerciseFor(roundIndex, exercises) == exercises[roundIndex - 1]
    ensures ExerciseFor(roundIndex + |exercises|, exercises) == ExerciseFor(roundIndex, exercises)
  {
    var n := |exercises|;
    ModShift(roundIndex - 1, n);
    assert roundIndex + n - 1 == (roundIndex - 1) + n;
    if roundIndex <= n {
      SmallMod(roundIndex - 1, n);
    }
  }

  /** The HIIT callout: while running in a round with exercises selected, the exercise for
      the round, unless that round was the last one announced. */
  function HiitCallout(lastSpoken: Option<int>, s: TimerState, exercises: seq<string>): (r: Option<string>)
    requires s.roundIndex >= 1
    ensures r.Some? <==> s.isRunning && s.phase == Round && exercises != [] && lastSpoken != Some(s.roundIndex)
    ensures r.Some? ==> r.value == ExerciseFor(s.roundIndex, exercises) && r.value in exercises
  {
    if !s.isRunning || s.phase != Round || |exercises| == 0 || lastSpoken == Some(s.roundIndex) then None
    else Some(ExerciseFor(s.roundIndex, exercises))
  }

  /** Once a round has been announced, evaluating the callout again in that round, whatever
      else changed, announces nothing. */
  lemma HiitCalloutOncePerRound(lastSpoken: Option<int>, s: TimerState, later: TimerState, exercises: seq<string>, laterExercises: seq<string>)
    requires s.roundIndex >= 1 && HiitCallout(lastSpoken, s, exercises).Some?
    requires later.roundIndex == s.roundIndex
    ensures HiitCallout(Some(s.roundIndex), later, laterExercises) == None
  {
  }

  /** With the start guard passed (a non-empty selection), every HIIT round that has not just
      been announced gets an exercise from the selection. */
  lemma StartGuardGivesEveryRoundAnExercise(selected: seq<string>, lastSpoken: Option<int>, s: TimerState)
    requires !HiitSetup.StartDisabled(selected)
    requires s.isRunning && s.phase == Round && s.roundIndex >= 1 && lastSpoken != Some(s.roundIndex)
    ensures HiitCallout(lastSpoken, s, selected).Some?
  {
  }

  /** NEXT on the last round wraps to round 1 without clearing the last announced round, so
      round 1 is announced a second time when the workout is restarted: it is no longer the
      round the ref holds. */
  lemma HiitWrapAnnouncesRoundOneAgain(s: TimerState, totalRounds: int, roundSeconds: int, restSeconds: int,
                                       exercises: seq<string>)
    requires TimerInv(s, totalRounds) && exercises != []
    requires s.phase == Round && s.roundIndex >= totalRounds && s.roundIndex != 1
    ensures var wrapped := TimerReducer(s, NextPhase(totalRounds, roundSeconds, restSeconds));
      && wrapped.roundIndex == 1
      && HiitCallout(Some(s.roundIndex), wrapped.(isRunning := true), exercises) == Some(exercises[0])
  {
    var n := |exercises|;
    assert 0 % n == 0;
  }

  /** The cue fired by the Bag/Shadow coach: a combo picked from the list while running in
      a round, outside HIIT. */
  function ComboCallout(s: TimerState, mode: Option<Mode>, combos: seq<string>, pick: int): (r: Option<string>)
    requires |combos| > 0 ==> 0 <= pick < |combos|
    ensures r.Some? <==> s.isRunning && s.phase == Round && mode != Some(Hiit) && combos != []
    ensures r.Some? ==> r.value in combos
  {
    if s.isRunning && s.phase == Round && mode != Some(Hiit) && |combos| > 0 then Some(combos[pick])
    else None
  }

  ghost predicate StrictlyIncreasing(xs: seq<int>) {
    forall i, j :: 0 <= i < j < |xs| ==> xs[i] < xs[j]
  }

  /** The log of HIIT cues since the last reset or wrap: each cued round was cued once, in
      increasing order, no later than the current round, and its exercise is the announcement
      at its position `at[k]`; the last one cued is the round the ref holds. */
  ghost predicate CueLog(cued: seq<int>, at: seq<int>, anns: seq<string>, exercises: seq<string>,
                         lastSpoken: Option<int>, roundIndex: int)
  {
    && |at| == |cued|
    && StrictlyIncreasing(cued)
    && StrictlyIncreasing(at)
    && (forall k :: 0 <= k < |cued| ==> 1 <= cued[k] <= roundIndex)
    && (forall k :: 0 <= k < |at| ==> 0 <= at[k] < |anns|)
    && (cued != [] ==> exercises != [] && lastSpoken == Some(cued[|cued| - 1]))
    && (forall k :: 0 <= k < |cued| ==> anns[at[k]] == ExerciseFor(cued[k], exercises))
  }

  /** Announcing the exercise of a round other than the one the ref holds extends the log by
      that round. */
  lemma CueLogAppend(cued: seq<int>, at: seq<int>, anns: seq<string>, exercises: seq<string>,
                     lastSpoken: Option<int>, roundIndex: int)
    requires CueLog(cued, at, anns, exercises, lastSpoken, roundIndex)
    requires roundIndex >= 1 && exercises != [] && lastSpoken != Some(roundIndex)
    ensures CueLog(cued + [roundIndex], at + [|anns|], anns + [ExerciseFor(roundIndex, exercises)],
                   exercises, Some(roundIndex), roundIndex)
  {
    var cued', at', anns' := cued + [roundIndex], at + [|anns|], anns + [ExerciseFor(roundIndex, exercises)];
    if cued != [] {
      assert cued[|cued| - 1] < roundIndex;
      assert at[|at| - 1] < |anns|;
    }
    IncreasingSnoc(cued, roundIndex);
    IncreasingSnoc(at, |anns|);
    CueLogAnnounce(cued, at, anns, exercises, lastSpoken, roundIndex, [ExerciseFor(roundIndex, exercises)]);
    forall k | 0 <= k < |cued'| ensures anns'[at'[k]] == ExerciseFor(cued'[k], exercises) {
      if k < |cued| {
        assert at'[k] == at[k] && cued'[k] == cued[k];
      }
    }
  }

  lemma IncreasingSnoc(xs: seq<int>, x: int)
    requires StrictlyIncreasing(xs) && (xs != [] ==> xs[|xs| - 1] < x)
    ensures StrictlyIncreasing(xs + [x])
  {
    forall i, j | 0 <= i < j < |xs| + 1 ensures (xs + [x])[i] < (xs + [x])[j] {
      if j == |xs| {
        assert xs[i] <= xs[|xs| - 1];
      }
    }
  }

  /** The rounds in the log stay no later than the current round when it advances. */
  lemma CueLogLaterRound(cued: seq<int>, at: seq<int>, anns: seq<string>, exercises: seq<string>,
                         lastSpoken: Option<int>, roundIndex: int, later: int)
    requires CueLog(cued, at, anns, exercises, lastSpoken, roundIndex) && roundIndex <= later
    ensures CueLog(cued, at, anns, exercises, lastSpoken, later)
  {
  }

  /** Any other announcement leaves the log as it is. */
  lemma CueLogAnnounce(cued: seq<int>, at: seq<int>, anns: seq<string>, exercises: seq<string>,
                       lastSpoken: Option<int>, roundIndex: int, more: seq<string>)
    requires CueLog(cued, at, anns, exercises, lastSpoken, roundIndex)
    ensures CueLog(cued, at, anns + more, exercises, lastSpoken, roundIndex)
  {
    forall k | 0 <= k < |cued| ensures (anns + more)[at[k]] == ExerciseFor(cued[k], exercises) {
      assert (anns + more)[at[k]] == anns[at[k]];
    }
  }

  /** Stopped on round 1 with no countdown: the timer outside the workout screen. */
  ghost predicate Idle(s: TimerState) {
    !s.isRunning && !s.isCountingDown && s.phase == Round && s.roundIndex == 1
  }

  /** The App component: its navigation, settings and timer state, the HIIT last-spoken
      ref and the log of announcements. */
  class WorkoutApp {
    var screen: Screen
    var mode: Option<Mode>
    const combos: seq<string>
    var selectedExercises: seq<string>
    var hiitWorkSeconds: int
    var hiitRestSeconds: int
    var rounds: int
    var roundSeconds: int
    var restSeconds: int
    var timer: TimerState
    /** `hiitLastSpokenRoundRef.current`. */
    var lastSpokenRound: Option<int>
    /** Every text handed to `speak`, oldest first. */
    var announcements: seq<string>
    /** The rounds whose exercise was announced since the last reset or last-round wrap. */
    ghost var cuedRounds: seq<int>
    /** For each of `cuedRounds`, the position of its announcement in `announcements`. */
    ghost var cueAt: seq<int>

    ghost predicate CuesLogged()
      reads this
    {
      CueLog(cuedRounds, cueAt, announcements, selectedExercises, lastSpokenRound, timer.roundIndex)
    }

    /** The timer invariant for the current round count; the timer idles, and nothing has
        been cued, off the workout screen. */
    ghost predicate Valid()
      reads this
    {
      && TimerInv(timer, rounds)
      && (screen != Workout ==> Idle(timer) && cuedRounds == [])
      && CuesLogged()
    }

    /** The settings are as they were. */
    twostate predicate SettingsKept()
      reads this
    {
      && mode == old(mode) && selectedExercises == old(selectedExercises)
      && rounds == old(rounds) && roundSeconds == old(roundSeconds) && restSeconds == old(restSeconds)
      && hiitWorkSeconds == old(hiitWorkSeconds) && hiitRestSeconds == old(hiitRestSeconds)
    }

    /** The HIIT ref and the cue log are as they were. */
    twostate predicate CuesKept()
      reads this
    {
      lastSpokenRound == old(lastSpokenRound) && cuedRounds == old(cuedRounds) && cueAt == old(cueAt)
    }

    /** Mounting: settings fall back to the defaults when missing, non-numeric or zero; the
        combo and exercise lists when missing or empty. */
    constructor (savedRounds: Option<int>, savedRoundSeconds: Option<int>, savedRestSeconds: Option<int>,
                 savedHiitWork: Option<int>, savedHiitRest: Option<int>,
                 savedExercises: Option<seq<string>>, savedCombos: Option<seq<string>>,
                 defaultCombos: seq<string>)
      ensures Valid()
      ensures screen == Intro && mode == None && lastSpokenRound == None && announcements == []
      ensures rounds == NumberOr(savedRounds, DefaultRounds)
      ensures roundSeconds == NumberOr(savedRoundSeconds, DefaultRoundSeconds)
      ensures restSeconds == NumberOr(savedRestSeconds, DefaultRestSeconds)
      ensures hiitWorkSeconds == NumberOr(savedHiitWork, DefaultHiitWorkSeconds)
      ensures hiitRestSeconds == NumberOr(savedHiitRest, DefaultHiitRestSeconds)
      ensures selectedExercises == ListOr(savedExercises, DefaultExercises)
      ensures combos == ListOr(savedCombos, defaultCombos)
      ensures timer == Fresh(roundSeconds)
    {
      screen := Intro;
      mode := None;
      combos := ListOr(savedCombos, defaultCombos);
      selectedExercises := ListOr(savedExercises, DefaultExercises);
      hiitWorkSeconds := NumberOr(savedHiitWork, DefaultHiitWorkSeconds);
      hiitRestSeconds := NumberOr(savedHiitRest, DefaultHiitRestSeconds);
      rounds := NumberOr(savedRounds, DefaultRounds);
      roundSeconds := NumberOr(savedRoundSeconds, DefaultRoundSeconds);
      restSeconds := NumberOr(savedRestSeconds, DefaultRestSeconds);
      timer := Fresh(NumberOr(savedRoundSeconds, DefaultRoundSeconds));
      lastSpokenRound := None;
      announcements := [];
      cuedRounds, cueAt := [], [];
    }

    /** `resetWorkout(explicitSeconds)`: forgets the last announced round and resets the
        timer to the given seconds, or to `roundSeconds` when they are zero or not a number. */
    method ResetWorkout(explicitSeconds: Option<int>)
      requires Valid()
      modifies this
      ensures Valid()
      ensures timer == Fresh(NumberOr(explicitSeconds, old(roundSeconds)))
      ensures lastSpokenRound == None && cuedRounds == [] && cueAt == []
      ensures SettingsKept() && screen == old(screen) && announcements == old(announcements)
    {
      lastSpokenRound := None;
      cuedRounds, cueAt := [], [];
      timer := TimerReducer(timer, Reset(NumberOr(explicitSeconds, roundSeconds)));
    }

    /** `handleStartPause`, on the workout screen, whose button is disabled during the
        countdown. */
    method HandleStartPause()
      requires Valid() && screen == Workout && !timer.isCountingDown
      modifies this
      ensures Valid()
      ensures timer == Dispatch(old(timer), StartPauseAction(old(timer)))
      ensures !(timer.isRunning && timer.isCountingDown)
      ensures SettingsKept() && CuesKept()
      ensures screen == old(screen) && announcements == old(announcements)
    {
      StartPauseOutcome(timer);
      timer := Dispatch(timer, StartPauseAction(timer));
    }

    /** `handleNext`, on the workout screen, whose button is disabled during the countdown:
        the next phase, always stopped. The wrap from the last round to round 1 keeps the
        ref, so the cue log starts afresh without it. */
    method HandleNext()
      requires Valid() && screen == Workout && !timer.isCountingDown
      modifies this
      ensures Valid()
      ensures timer == TimerReducer(old(timer), NextPhase(old(rounds), old(roundSeconds), old(restSeconds)))
      ensures !timer.isRunning && !timer.isCountingDown
      ensures old(timer.phase) == Round && old(timer.roundIndex) >= old(rounds) ==>
                cuedRounds == [] && cueAt == []
      ensures !(old(timer.phase) == Round && old(timer.roundIndex) >= old(rounds)) ==>
                cuedRounds == old(cuedRounds) && cueAt == old(cueAt)
      ensures lastSpokenRound == old(lastSpokenRound)
      ensures SettingsKept() && screen == old(screen) && announcements == old(announcements)
    {
      if timer.phase == Round && timer.roundIndex >= rounds {
        cuedRounds, cueAt := [], [];
      }
      timer := TimerReducer(timer, NextPhase(rounds, roundSeconds, restSeconds));
    }

    /** `handleBack`: back to the mode selection with a fresh timer. */
    method HandleBack()
      requires Valid()
      modifies this
      ensures Valid()
      ensures screen == Intro && timer == Fresh(old(roundSeconds))
      ensures lastSpokenRound == None && cuedRounds == [] && cueAt == []
      ensures SettingsKept() && announcements == old(announcements)
    {
      ResetWorkout(Some(roundSeconds));
      screen := Intro;
    }

    /** The workout screen's reset button: the HIIT work time in HIIT mode, the round time
        otherwise. */
    method HandleReset()
      requires Valid()
      modifies this
      ensures Valid()
      ensures timer == Fresh(NumberOr(Some(if old(mode) == Some(Hiit) then old(hiitWorkSeconds) else old(roundSeconds)),
                                      old(roundSeconds)))
      ensures lastSpokenRound == None && cuedRounds == [] && cueAt == []
      ensures SettingsKept() && screen == old(screen) && announcements == old(announcements)
    {
      ResetWorkout(Some(if mode == Some(Hiit) then hiitWorkSeconds else roundSeconds));
    }

    /** `handleSelectMode`, on the mode-selection screen: Bag is 8 x 180 s with 60 s rests,
        Shadow 6 x 180 s with 30 s rests, both reset at once into the workout; HIIT is 10
        rounds of the HIIT work and rest times and goes to the setup screen first. */
    method HandleSelectMode(m: Mode)
      requires Valid() && screen == Intro
      modifies this
      ensures Valid()
      ensures mode == Some(m)
      ensures m == Bag ==> rounds == 8 && roundSeconds == 180 && restSeconds == 60
                           && timer == Fresh(180) && lastSpokenRound == None && screen == Workout
      ensures m == Shadow ==> rounds == 6 && roundSeconds == 180 && restSeconds == 30
                              && timer == Fresh(180) && lastSpokenRound == None && screen == Workout
      ensures m == Hiit ==> rounds == HiitRounds && roundSeconds == old(hiitWorkSeconds)
                            && restSeconds == old(hiitRestSeconds) && timer == old(timer)
                            && lastSpokenRound == old(lastSpokenRound) && screen == HiitSetupScreen
      ensures cuedRounds == [] && cueAt == []
      ensures hiitWorkSeconds == old(hiitWorkSeconds) && hiitRestSeconds == old(hiitRestSeconds)
      ensures selectedExercises == old(selectedExercises) && announcements == old(announcements)
    {
      mode := Some(m);
      match m
      case Bag =>
        rounds, roundSeconds, restSeconds := 8, 180, 60;
        ResetWorkout(Some(180));
        screen := Workout;
      case Shadow =>
        rounds, roundSeconds, restSeconds := 6, 180, 30;
        ResetWorkout(Some(180));
        screen := Workout;
      case Hiit =>
        rounds, roundSeconds, restSeconds := HiitRounds, hiitWorkSeconds, hiitRestSeconds;
        screen := HiitSetupScreen;
    }

    /** A chip on the HIIT setup screen: `toggleExercise`. */
    method ToggleExercise(exercise: string)
      requires Valid() && screen == HiitSetupScreen
      modifies this
      ensures Valid()
      ensures selectedExercises == HiitSetup.ToggleExercise(old(selectedExercises), exercise)
      ensures exercise in selectedExercises <==> exercise !in old(selectedExercises)
      ensures mode == old(mode) && rounds == old(rounds)
      ensures roundSeconds == old(roundSeconds) && restSeconds == old(restSeconds)
      ensures hiitWorkSeconds == old(hiitWorkSeconds) && hiitRestSeconds == old(hiitRestSeconds)
      ensures timer == old(timer) && screen == old(screen) && CuesKept()
      ensures announcements == old(announcements)
    {
      selectedExercises := HiitSetup.ToggleExercise(selectedExercises, exercise);
    }

    /** The setup screen's back button: to the mode selection, nothing else changes. */
    method HandleSetupBack()
      requires Valid() && screen == HiitSetupScreen
      modifies this
      ensures Valid()
      ensures screen == Intro && timer == old(timer)
      ensures SettingsKept() && CuesKept() && announcements == old(announcements)
    {
      screen := Intro;
    }

    /** `handleStartHiit`, reachable only through the start button, which is disabled while
        no exercise is selected: the HIIT times become the round and rest times and the timer
        is reset to the work time. */
    method HandleStartHiit()
      requires Valid() && screen == HiitSetupScreen && !HiitSetup.StartDisabled(selectedExercises)
      modifies this
      ensures Valid()
      ensures roundSeconds == old(hiitWorkSeconds) && restSeconds == old(hiitRestSeconds)
      ensures timer == Fresh(NumberOr(Some(old(hiitWorkSeconds)), old(roundSeconds)))
      ensures lastSpokenRound == None && cuedRounds == [] && cueAt == [] && screen == Workout
      ensures mode == old(mode) && rounds == old(rounds) && selectedExercises == old(selectedExercises)
      ensures hiitWorkSeconds == old(hiitWorkSeconds) && hiitRestSeconds == old(hiitRestSeconds)
      ensures announcements == old(announcements)
    {
      ResetWorkout(Some(hiitWorkSeconds));
      roundSeconds, restSeconds := hiitWorkSeconds, hiitRestSeconds;
      screen := Workout;
    }

    // -------------------------------------------------------------------------
    // The effects

    /** The one-second interval firing while running. */
    method ClockTick()
      requires Valid()
      modifies this
      ensures Valid()
      ensures timer == ClockSecond(old(timer))
      ensures old(timer.isRunning) ==> timer.timeLeft == old(timer.timeLeft) - 1
      ensures SettingsKept() && CuesKept()
      ensures screen == old(screen) && announcements == old(announcements)
    {
      timer := ClockSecond(timer);
    }

    /** The phase switch when a running phase has no time left. */
    method PhaseSwitchStep()
      requires Valid()
      modifies this
      ensures Valid()
      ensures timer == PhaseSwitch(old(timer), old(rounds), old(roundSeconds), old(restSeconds))
      ensures SettingsKept() && CuesKept()
      ensures screen == old(screen) && announcements == old(announcements)
    {
      StepsKeepInv(timer, rounds, roundSeconds, restSeconds);
      var next := PhaseSwitch(timer, rounds, roundSeconds, restSeconds);
      assert next.roundIndex >= timer.roundIndex;
      CueLogLaterRound(cuedRounds, cueAt, announcements, selectedExercises, lastSpokenRound,
                       timer.roundIndex, next.roundIndex);
      timer := next;
    }

    /** The countdown timeout: one second off the countdown. */
    method CountdownTimeout()
      requires Valid()
      modifies this
      ensures Valid()
      ensures timer == CountdownSecond(old(timer))
      ensures SettingsKept() && CuesKept()
      ensures screen == old(screen) && announcements == old(announcements)
    {
      StepsKeepInv(timer, rounds, roundSeconds, restSeconds);
      timer := CountdownSecond(timer);
    }

    /** The countdown effect: announces the number shown, and at one or less starts the
        workout and announces "Go". */
    method CountdownEffect()
      requires Valid()
      modifies this
      ensures Valid()
      ensures timer == CountdownSettle(old(timer))
      ensures !old(timer.isCountingDown) ==> announcements == old(announcements)
      ensures old(timer.isCountingDown) && old(timer.countdownLeft) > 1 ==>
                announcements == old(announcements) + [IntToString(old(timer.countdownLeft))]
      ensures old(timer.isCountingDown) && old(timer.countdownLeft) <= 1 ==>
                announcements == old(announcements) + [IntToString(old(timer.countdownLeft)), "Go"]
                && timer.isRunning && !timer.isCountingDown
      ensures SettingsKept() && CuesKept() && screen == old(screen)
    {
      StepsKeepInv(timer, rounds, roundSeconds, restSeconds);
      if timer.isCountingDown {
        announcements := announcements + [IntToString(timer.countdownLeft)];
        if timer.countdownLeft <= 1 {
          timer := TimerReducer(timer, StartWorkout);
          announcements := announcements + ["Go"];
        }
      }
    }

    /** The paused-state resynchronisation of the clock with the configured times. */
    method ResyncPaused()
      requires Valid()
      modifies this
      ensures Valid()
      ensures timer == PausedResync(old(timer), old(roundSeconds), old(restSeconds))
      ensures !timer.isRunning && timer.phase == Round ==> timer.timeLeft == roundSeconds
      ensures !timer.isRunning && timer.phase == Rest ==> timer.timeLeft == restSeconds
      ensures SettingsKept() && CuesKept()
      ensures screen == old(screen) && announcements == old(announcements)
    {
      StepsKeepInv(timer, rounds, roundSeconds, restSeconds);
      timer := PausedResync(timer, roundSeconds, restSeconds);
    }

    /** A Bag/Shadow combo cue, fired by the coach effect and by its 3-second interval;
        `pick` is the random index. */
    method FireCombo(pick: int)
      requires Valid() && (|combos| > 0 ==> 0 <= pick < |combos|)
      modifies this
      ensures Valid()
      ensures var cue := ComboCallout(old(timer), old(mode), combos, pick);
        && (cue.None? ==> timer == old(timer) && announcements == old(announcements))
        && (cue.Some? ==> timer == old(timer).(activeCallout := cue)
                          && announcements == old(announcements) + [Speech.SpeakableCombo(cue.value)])
      ensures SettingsKept() && CuesKept() && screen == old(screen)
    {
      var cue := ComboCallout(timer, mode, combos, pick);
      if cue.Some? {
        timer := TimerReducer(timer, SetActiveCallout(cue.value));
        announcements := announcements + [Speech.SpeakableCombo(cue.value)];
      }
    }

    /** The HIIT branch of the coach effect: the exercise of the round, once per round,
        logged as a cue of that round at the position of its announcement. */
    method CueExercise()
      requires Valid() && timer.isRunning && timer.phase == Round
      modifies this
      ensures Valid()
      ensures var cue := HiitCallout(old(lastSpokenRound), old(timer), old(selectedExercises));
        && (cue.None? ==> timer == old(timer) && announcements == old(announcements) && CuesKept())
        && (cue.Some? ==> timer == old(timer).(activeCallout := cue)
                          && announcements == old(announcements) + [cue.value]
                          && lastSpokenRound == Some(old(timer.roundIndex))
                          && cuedRounds == old(cuedRounds) + [old(timer.roundIndex)]
                          && cueAt == old(cueAt) + [|old(announcements)|])
      ensures SettingsKept() && screen == old(screen)
    {
      var cue := HiitCallout(lastSpokenRound, timer, selectedExercises);
      if cue.Some? {
        CueLogAppend(cuedRounds, cueAt, announcements, selectedExercises, lastSpokenRound, timer.roundIndex);
        cuedRounds := cuedRounds + [timer.roundIndex];
        cueAt := cueAt + [|announcements|];
        lastSpokenRound := Some(timer.roundIndex);
        timer := TimerReducer(timer, SetActiveCallout(cue.value));
        announcements := announcements + [cue.value];
      }
    }

    /** The coach effect: in HIIT mode the exercise of the round, once per round, logged as
        a cue of that round at the position of its announcement; otherwise an immediate
        combo cue. */
    method CoachEffect(pick: int)
      requires Valid() && (|combos| > 0 ==> 0 <= pick < |combos|)
      modifies this
      ensures Valid()
      ensures old(mode) == Some(Hiit) ==>
        var cue := HiitCallout(old(lastSpokenRound), old(timer), old(selectedExercises));
        && (cue.None? ==> timer == old(timer) && announcements == old(announcements) && CuesKept())
        && (cue.Some? ==> timer == old(timer).(activeCallout := cue)
                          && announcements == old(announcements) + [cue.value]
                          && lastSpokenRound == Some(old(timer.roundIndex))
                          && cuedRounds == old(cuedRounds) + [old(timer.roundIndex)]
                          && cueAt == old(cueAt) + [|old(announcements)|])
      ensures old(mode) != Some(Hiit) ==>
        var cue := ComboCallout(old(timer), old(mode), combos, pick);
        && (cue.None? ==> timer == old(timer) && announcements == old(announcements))
        && (cue.Some? ==> timer == old(timer).(activeCallout := cue)
                          && announcements == old(announcements) + [Speech.SpeakableCombo(cue.value)])
        && CuesKept()
      ensures SettingsKept() && screen == old(screen)
    {
      if !timer.isRunning || timer.phase != Round {
        return;
      }
      if mode == Some(Hiit) {
        CueExercise();
      } else {
        FireCombo(pick);
      }
    }
  }
}
