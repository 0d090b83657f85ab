# BoxingApp workout timer, modelled in Dafny

BoxingApp is a browser app for timed boxing and HIIT sessions. The user picks a mode: bag
work, shadow boxing or HIIT. The app then runs a glove-up countdown and alternates rounds
and rests. While a round runs, it calls out cues: random punch combos such as "1-2-3" in the
bag and shadow modes, and the exercise of the round in HIIT mode.

This project models the core of that app:

- `timer.dfy` (module `Timer`) is the timer state machine. It holds the state record, the
  pure transition function `timerReducer`, and the effects that drive the reducer. Each effect
  is one deterministic step: the one-second clock, the phase switch when the time runs out,
  the countdown timeout and its effect, and the paused-time resynchronisation. The module also
  holds the invariant these steps keep, the properties of every transition, and a whole
  three-round session.
- `session.dfy` (module `Session`) is the `App` component as the class `WorkoutApp`.
  - Its fields are the component's state and refs.
  - Its methods are the command handlers and the effects.
  - The announcement sink is a log of texts.
  - The class invariant `Valid` covers the timer invariant, the timer idling off the workout
    screen, and the HIIT cue log: between resets and last-round wraps, each round is announced
    at most once and in increasing order, and each logged round points at its announcement.
  - The module also has the settings fallback, the start/pause decision and the HIIT and combo
    callout choices as functions.
- `combo_library.dfy` (module `ComboLibrary`) holds the combo normaliser
  `normalizeAndValidateCombo`, one function per step of its replacement chain, and the
  library's add and remove edits as the class `Library`.
- `hiit_setup.dfy` (module `HiitSetup`) holds the exercise toggle and the guard that disables
  the HIIT start button.
- `speech.dfy` (module `Speech`) holds `speakableCombo`.
- `helpers.dfy` (module `Helpers`) holds `clamp`, `pad2` and `formatMMSS` on integers.
  `String(n)` is written out as a decimal numeral. A reader for the "MM:SS" text is the
  partner of `formatMMSS`.
- `wrappers.dfy` holds the `Option` type. `None` stands for JavaScript's `null`.

Behaviour of the code that a reader might not expect:

- The reducer's NEXT_PHASE would clear a running countdown (`Timer.NextPhaseStops`), but the
  workout screen disables both Next and Start/Pause during the countdown
  (src/screens/WorkoutScreen.jsx:79 and :85). `Session.WorkoutApp.HandleNext` and
  `Session.WorkoutApp.HandleStartPause` therefore require that no countdown is running.
- When the last round runs out, the clock goes back to `roundSeconds`, not to 0
  (`Timer.PhaseTransitionFromRound`).
- Pausing does not clear the callout on display (`Timer.PauseKeepsCallout`).
- Pausing in a round resets the clock to the full round length. This happens because the
  paused-time effect also runs when `isRunning` changes (`Timer.PauseRestartsRound`).
- The HIIT "once per round" rule holds between resets. NEXT on the last round wraps to round
  1 but keeps the last announced round, so round 1 is announced again in the new cycle
  (`Session.HiitWrapAnnouncesRoundOneAgain`). The class's log of announced rounds is
  therefore cleared on that wrap as well as on a reset. A one-round workout is the exception:
  there the wrap stays on round 1, which the ref still holds, so nothing is announced again.

## Model

| member | source | states |
|---|---|---|
| Helpers.Clamp | src/lib/helpers.js:1-3 | the result is never below `min`; it lies in `[min, max]` when that range is non-empty; a value in range is kept; below `min` or an empty range gives `min`; above `max` gives `max` |
| Helpers.NatToString | src/lib/helpers.js:5-7 | the numeral of a natural number is non-empty and all digits; it has two or more digits exactly when n >= 10; a leading '0' only for 0 |
| Helpers.IntToString | src/lib/helpers.js:6 | `String(n)` is non-empty; it is all digits for n >= 0 and starts with '-' for negative n |
| Helpers.PadStart | src/lib/helpers.js:6 | the length is the larger of the width and the text's; the text ends the result; every added character is the fill |
| Helpers.Pad2 | src/lib/helpers.js:5-7 | at least two characters; a numeral of two or more characters is kept, a one-character numeral gets exactly one leading '0' |
| Helpers.Pad2OfNat | src/lib/helpers.js:5-7 | for n < 10 the text is '0' followed by the digit; for n >= 10 it is the numeral itself |
| Helpers.ParsePad2 | src/lib/helpers.js:5-7 | the padded text of n >= 0 is all digits and reads back as n |
| Helpers.FormatMMSS | src/lib/helpers.js:9-14 | zero or negative seconds give "00:00" |
| Helpers.FormatMMSSFields | src/lib/helpers.js:9-14 | the text is the padded minutes, ':' and the padded seconds; the seconds field is exactly two digits reading below 60 |
| Helpers.ParseMinutesSeconds | src/lib/helpers.js:12-13 | a text built from minutes m and seconds sec < 60 reads back as (m, sec) |
| Helpers.FormatMMSSRoundTrip | src/lib/helpers.js:9-14 | for every s >= 0 the text reads back as (s / 60, s % 60), and minutes * 60 + seconds == s |
| Speech.SpeakableCombo | src/lib/speech.js:11-13 | the same length; every '-' becomes ' ' and every other character is kept; no '-' is left |
| Speech.SpeakableComboRoundTrip | src/lib/speech.js:11-13 | a combo without spaces is recovered from its spoken form by turning the spaces back into hyphens |
| ComboLibrary.Trim | src/components/ComboLibrary.jsx:4 | a non-empty result has no white space at either end |
| ComboLibrary.TrimStart | src/components/ComboLibrary.jsx:4 | the result is a suffix of the text that does not start with white space; a text not starting with white space is kept |
| ComboLibrary.TrimEnd | src/components/ComboLibrary.jsx:4 | the result is a prefix of the text that does not end with white space; a text not ending with white space is kept |
| ComboLibrary.TrimStartDropsSpaces | src/components/ComboLibrary.jsx:4 | everything the start trim drops is white space |
| ComboLibrary.TrimEndDropsSpaces | src/components/ComboLibrary.jsx:4 | everything the end trim drops is white space |
| ComboLibrary.TrimKeepsRuns | src/components/ComboLibrary.jsx:4 | trimming keeps the text's runs between separators, joined by single hyphens |
| ComboLibrary.TrimStrikes | src/components/ComboLibrary.jsx:4 | trimming keeps the strike digits in order |
| ComboLibrary.SpacesToHyphenStrikes | src/components/ComboLibrary.jsx:11 | the `\s+` replacement keeps the strike digits in order |
| ComboLibrary.SpacesToHyphenShape | src/components/ComboLibrary.jsx:11 | on allowed input the `\s+` replacement leaves only strikes and hyphens |
| ComboLibrary.SpacesToHyphenIdentity | src/components/ComboLibrary.jsx:11 | text without white space is left unchanged |
| ComboLibrary.SpacesToHyphenKeepsRuns | src/components/ComboLibrary.jsx:11 | the `\s+` replacement keeps the runs between separators: a run of white space and the hyphen replacing it are one gap |
| ComboLibrary.CollapseHyphens | src/components/ComboLibrary.jsx:12 | no two adjacent hyphens remain; empty exactly when the input is; the first character is kept |
| ComboLibrary.CollapseHyphensStrikes | src/components/ComboLibrary.jsx:12 | collapsing keeps the strike digits in order |
| ComboLibrary.CollapseHyphensShape | src/components/ComboLibrary.jsx:12 | strikes and hyphens stay strikes and hyphens |
| ComboLibrary.CollapseHyphensIdentity | src/components/ComboLibrary.jsx:12 | text without a double hyphen is left unchanged |
| ComboLibrary.DropHyphensDropsHyphens | src/components/ComboLibrary.jsx:12 | a run of hyphens is dropped and nothing else |
| ComboLibrary.CollapseHyphensKeepsRuns | src/components/ComboLibrary.jsx:12 | the `-+` replacement keeps the runs between separators |
| ComboLibrary.DropLeadingHyphen | src/components/ComboLibrary.jsx:13 | the `^-` alternative drops the first character exactly when it is a hyphen |
| ComboLibrary.DropTrailingHyphen | src/components/ComboLibrary.jsx:13 | the `-$` alternative drops the last character exactly when it is a hyphen |
| ComboLibrary.TrimHyphensStrikes | src/components/ComboLibrary.jsx:13 | trimming the edge hyphens keeps the strike digits; text without edge hyphens is kept |
| ComboLibrary.TrimHyphensShape | src/components/ComboLibrary.jsx:13 | strikes and hyphens stay so; text without a double hyphen comes out with no hyphen at either end |
| ComboLibrary.TrimHyphensKeepsRuns | src/components/ComboLibrary.jsx:13 | dropping an edge hyphen keeps the runs between separators |
| ComboLibrary.JoinRunsCanonical | src/components/ComboLibrary.jsx:10-16 | a canonical combo is its own runs joined by single hyphens |
| ComboLibrary.NormalizedProperties | src/components/ComboLibrary.jsx:10-13 | allowed input becomes strikes joined by single hyphens with no edge hyphen, and the strikes are kept in order |
| ComboLibrary.NormalizedAccepted | src/components/ComboLibrary.jsx:10-16 | the normalised text holds a strike exactly when the input does, and is then canonical |
| ComboLibrary.NormalizedCanonical | src/components/ComboLibrary.jsx:10-13 | a canonical combo is left unchanged by the replacement chain |
| ComboLibrary.NormalizedKeepsRuns | src/components/ComboLibrary.jsx:10-13 | the whole replacement chain keeps the runs between separators |
| ComboLibrary.NormalizedIsJoinedRuns | src/components/ComboLibrary.jsx:10-16 | an accepted normal form is exactly the input's maximal runs of strikes joined by single hyphens |
| ComboLibrary.NormalizeAndValidateCombo | src/components/ComboLibrary.jsx:3-19 | accepted exactly when the trimmed text has only strikes, white space and hyphens and holds a strike; a rejection carries ""; an accepted value is canonical and keeps the typed strikes in order |
| ComboLibrary.NormalizeIsJoinedRuns | src/components/ComboLibrary.jsx:3-19 | an accepted value is the typed text's maximal runs between white space and hyphens, joined by single hyphens |
| ComboLibrary.CanonicalIsFixedPoint | src/components/ComboLibrary.jsx:3-19 | a canonical combo is accepted as itself |
| ComboLibrary.NormalizeIsIdempotent | src/components/ComboLibrary.jsx:3-19 | normalising an accepted value again gives the same result |
| ComboLibrary.NoStrikeIsRejected | src/components/ComboLibrary.jsx:15-16 | input made only of hyphens and white space is rejected with "" |
| ComboLibrary.SpokenCanonicalShape | src/components/ComboLibrary.jsx:4-11 | the spoken form of a canonical combo is trimmed and allowed, and the `\s+` replacement turns it back into the combo |
| ComboLibrary.SpokenComboIsAcceptedBack | src/components/ComboLibrary.jsx:3-19 | a stored combo, typed back in as `speakableCombo` speaks it, is accepted as the same combo |
| ComboLibrary.NormalizeSpacedExample | src/components/ComboLibrary.jsx:3-19 | "1 2 3" is accepted as "1-2-3" |
| ComboLibrary.NormalizeRejectsExamples | src/components/ComboLibrary.jsx:7 | "7-8" and "" are rejected |
| ComboLibrary.WithoutIndex | src/components/ComboLibrary.jsx:46-48 | for an index in range, exactly that element is dropped and the rest keep their order; any other index changes nothing |
| ComboLibrary.WithoutIndexKeepsDistinct | src/components/ComboLibrary.jsx:46-48 | removing an element never creates a duplicate |
| ComboLibrary.AppendFreshKeepsDistinct | src/components/ComboLibrary.jsx:35-41 | appending a combo that is not yet stored never creates a duplicate |
| ComboLibrary.Library.constructor | src/components/ComboLibrary.jsx:21-23 | the library starts with the given combos, an empty input and no error |
| ComboLibrary.Library.TypeInput | src/components/ComboLibrary.jsx:55-57 | only the input changes |
| ComboLibrary.Library.AddCombo | src/components/ComboLibrary.jsx:25-44 | invalid input keeps list and input and sets the invalid-combo message; a duplicate keeps them and sets the duplicate message; otherwise the canonical value is appended and the input and error are cleared; a duplicate-free list stays duplicate-free |
| ComboLibrary.Library.RemoveCombo | src/components/ComboLibrary.jsx:46-48 | exactly the element at i is dropped, the order of the rest is kept, an index out of range changes nothing, and a duplicate-free list stays so |
| HiitSetup.Without | src/screens/HIITSetupScreen.jsx:14 | the filtered-out exercise is absent and every other exercise is present exactly when it was before |
| HiitSetup.WithoutMultiset | src/screens/HIITSetupScreen.jsx:14 | every other exercise keeps its count; the filtered-out one has count 0 |
| HiitSetup.WithoutAppend | src/screens/HIITSetupScreen.jsx:14 | filtering a concatenation filters each part, so the kept exercises keep their order |
| HiitSetup.WithoutAbsent | src/screens/HIITSetupScreen.jsx:14 | filtering out an absent exercise changes nothing |
| HiitSetup.ToggleExercise | src/screens/HIITSetupScreen.jsx:12-16 | the exercise is selected afterwards exactly when it was not before; other exercises keep their membership; an unselected one is appended at the end; a selected one is removed with every copy and the rest keep their counts |
| HiitSetup.ToggleTwiceRestores | src/screens/HIITSetupScreen.jsx:12-16 | toggling an unselected exercise twice restores the selection |
| HiitSetup.ToggleRemovesInOrder | src/screens/HIITSetupScreen.jsx:12-16 | removing a selected exercise leaves the others in their order |
| HiitSetup.StartDisabled | src/screens/HIITSetupScreen.jsx:67-69 | the start button is disabled exactly when no exercise is selected |
| Timer.TimerReducer | src/App.jsx:23-115 | only START_WORKOUT and RESUME start the clock; only START_COUNTDOWN starts the countdown; the round and phase change only on PHASE_TRANSITION, NEXT_PHASE or RESET; the clock changes only on TICK, the phase changes, RESET and SET_TIME_LEFT; the callout is only cleared or set by SET_ACTIVE_CALLOUT |
| Timer.FreshKeepsInv | src/App.jsx:159-167 | the initial and reset state satisfies the timer invariant for every round count |
| Timer.ClockSecond | src/App.jsx:204-212 | while running, one TICK; when stopped, nothing |
| Timer.PhaseSwitch | src/App.jsx:214-223 | stopped, or running with time left, nothing changes; running with no time left it is PHASE_TRANSITION, which clears the callout and either changes the phase or stops the clock |
| Timer.CountdownSecond | src/App.jsx:232-234 | counting down with more than one second left, the countdown drops by one and nothing else changes; otherwise nothing changes |
| Timer.CountdownSettle | src/App.jsx:236-242 | counting down with one second or less left, the countdown ends and the clock runs, nothing else changing; otherwise nothing changes |
| Timer.PausedResync | src/App.jsx:191-202 | while stopped, the clock shows the configured length of the current phase; while running nothing changes; nothing but the clock ever changes |
| Timer.Second | src/App.jsx:204-248 | during the countdown the phase, round and clock stay, and above two seconds left only the countdown drops by one; a stopped timer stays as it is; a running one with more than one second left only loses one second |
| Timer.Seconds | src/App.jsx:204-248 | a stopped timer with no countdown stays as it is however many seconds pass |
| Timer.SecondsAdd | src/App.jsx:204-248 | m + n seconds are m seconds followed by n seconds |
| Timer.ReducerKeepsInv | src/App.jsx:23-115 | every action dispatched under its app-side condition keeps the invariant: running and counting down exclude each other, the countdown is in 1..5, the round is in 1..roundCount, and a rest only precedes a further round |
| Timer.StepsKeepInv | src/App.jsx:191-248 | the clock, phase switch, countdown and resync steps keep the invariant |
| Timer.SecondsKeepInv | src/App.jsx:204-248 | the invariant holds after any number of seconds |
| Timer.TickAndUnrecognised | src/App.jsx:25-26 | TICK takes exactly one second off and changes nothing else; an unknown action returns the state unchanged |
| Timer.PauseKeepsCallout | src/App.jsx:33-34 | PAUSE changes only the running flag, so the callout stays |
| Timer.PhaseTransitionFromRound | src/App.jsx:37-53 | the end of a round before the last one gives a rest of `restSeconds` with the round number kept; the end of the last round stops on the round with the clock at `roundSeconds`; the callout is cleared |
| Timer.PhaseTransitionFromRest | src/App.jsx:54-62 | the end of a rest starts a round of `roundSeconds` with the round number advanced and clamped to 1..roundCount, exactly +1 below the last round |
| Timer.NextPhaseStops | src/App.jsx:75-109 | NEXT always stops the timer and clears the countdown and callout; on the last round it wraps to round 1, before it goes to the rest, and from a rest it starts the next round |
| Timer.ResetIsFresh | src/App.jsx:65-74 | RESET gives the stopped state on round 1 with the given time and no callout, whatever came before |
| Timer.PauseRestartsRound | src/App.jsx:191-196 | pausing in a round and resynchronising sets the clock back to `roundSeconds` |
| Timer.ThreeRoundSession | src/App.jsx:204-248 | with 3 rounds of 2 s and rests of 1 s, the workout runs on round 1 with 2 s left 4 s after the start, and 8 s later it has stopped on round 3 with the clock at 2 s |
| Session.NumberOr | src/App.jsx:137-157 | a saved non-zero number is used; a missing or zero value gives the default; a non-zero default never yields 0 |
| Session.ListOr | src/App.jsx:123-132 | a saved non-empty list is used, otherwise the default list |
| Session.StartPauseAction | src/App.jsx:321-339 | nothing is dispatched exactly while stopped in the countdown; running always gives PAUSE; RESUME exactly when stopped outside a round with no countdown; START_COUNTDOWN exactly when stopped in a round with no countdown |
| Session.StartPauseOutcome | src/App.jsx:321-339 | running pauses, a countdown is not restarted, a rest resumes at once, and a round gets the 5-second countdown; running and counting down still exclude each other |
| Session.ExerciseFor | src/App.jsx:269 | the exercise of a round is one of the selection |
| Session.ExerciseForCycles | src/App.jsx:269 | the first n rounds follow the selection order, and round k + n repeats round k |
| Session.HiitCallout | src/App.jsx:258-272 | a cue is due exactly while running in a round with exercises selected and a round other than the last announced one; the cue is the round's exercise |
| Session.HiitCalloutOncePerRound | src/App.jsx:265-267 | after a round is announced, re-evaluating in that same round announces nothing |
| Session.StartGuardGivesEveryRoundAnExercise | src/App.jsx:261-272 | once the start guard is passed, every HIIT round not just announced gets an exercise |
| Session.HiitWrapAnnouncesRoundOneAgain | src/App.jsx:75-87 | for every workout of two or more rounds, after NEXT wraps the last round to round 1 with the ref still holding the last round, round 1 is announced again; with one round the wrap stays on round 1 and nothing is announced |
| Session.ComboCallout | src/App.jsx:275-282 | a combo is due exactly while running in a round outside HIIT with a non-empty list, and it is taken from the list |
| Session.CueLogAppend | src/App.jsx:258-272 | announcing the exercise of a round other than the ref's extends the log by that round, at the new announcement's position, and the log stays strictly increasing and tied to the announcements |
| Session.CueLogAnnounce | src/App.jsx:225-248 | any other announcement leaves the log valid |
| Session.CueLogLaterRound | src/App.jsx:214-223 | the log stays valid when the current round advances |
| Session.WorkoutApp.constructor | src/App.jsx:119-168 | every setting falls back to its default as `Number(x) \|\| default` does; a list falls back when missing or empty; the timer starts fresh at the round length on the intro screen |
| Session.WorkoutApp.ResetWorkout | src/App.jsx:313-319 | the last announced round and the cue log are forgotten and the timer is reset to the given seconds, or to `roundSeconds` when zero or missing; the settings, the screen and the announcements are kept |
| Session.WorkoutApp.HandleStartPause | src/App.jsx:321-339 | with no countdown running, the timer takes the start/pause decision; the settings, the ref, the cue log, the screen and the announcements are kept |
| Session.WorkoutApp.HandleNext | src/App.jsx:341-348 | with no countdown running, the timer takes NEXT with the current settings and is left stopped; the cue log is cleared on the last-round wrap and kept otherwise; the ref, the settings, the screen and the announcements are kept |
| Session.WorkoutApp.HandleBack | src/App.jsx:350-353 | back on the intro screen with a fresh timer at the round length, the ref and the cue log cleared; the settings and the announcements are kept |
| Session.WorkoutApp.HandleReset | src/App.jsx:431 | a fresh timer at the HIIT work time in HIIT mode, at the round time otherwise, with the ref and the cue log cleared; the settings, the screen and the announcements are kept |
| Session.WorkoutApp.HandleSelectMode | src/App.jsx:356-385 | bag is 8 x 180 s with 60 s rests and shadow 6 x 180 s with 30 s rests, both reset into the workout; HIIT takes 10 rounds of the HIIT times and goes to the setup screen; the HIIT times, the selection and the announcements are kept |
| Session.WorkoutApp.ToggleExercise | src/screens/HIITSetupScreen.jsx:12-16 | on the setup screen, the selection is toggled; the other settings, the timer, the screen, the ref, the cue log and the announcements are kept |
| Session.WorkoutApp.HandleSetupBack | src/App.jsx:404 | back to the intro screen; the timer, the settings, the ref, the cue log and the announcements are kept |
| Session.WorkoutApp.HandleStartHiit | src/App.jsx:387-393 | the HIIT times become the round and rest times, and the timer is reset to the work time on the workout screen with the ref and the cue log cleared; the mode, the round count, the selection, the HIIT times and the announcements are kept |
| Session.WorkoutApp.ClockTick | src/App.jsx:204-212 | one clock step, so a running timer loses one second; the settings, the ref, the cue log, the screen and the announcements are kept |
| Session.WorkoutApp.PhaseSwitchStep | src/App.jsx:214-223 | one phase-switch step with the current settings; the settings, the ref, the cue log, the screen and the announcements are kept |
| Session.WorkoutApp.CountdownTimeout | src/App.jsx:232-234 | one countdown timeout step; the settings, the ref, the cue log, the screen and the announcements are kept |
| Session.WorkoutApp.CountdownEffect | src/App.jsx:225-248 | while counting down, the number shown is announced; at one or less the workout starts and "Go" is announced; the settings, the ref, the cue log and the screen are kept |
| Session.WorkoutApp.ResyncPaused | src/App.jsx:191-202 | a stopped timer shows the configured length of its phase; the settings, the ref, the cue log, the screen and the announcements are kept |
| Session.WorkoutApp.FireCombo | src/App.jsx:275-297 | when a combo is due, it becomes the callout and its spoken form is announced, otherwise nothing changes; the settings, the ref, the cue log and the screen are kept |
| Session.WorkoutApp.CueExercise | src/App.jsx:258-272 | when the round's exercise is due, it becomes the callout, is announced, becomes the ref's round and is logged with the position of its announcement; otherwise nothing changes; the settings and the screen are kept |
| Session.WorkoutApp.CoachEffect | src/App.jsx:250-305 | in HIIT mode, the due exercise becomes the callout, is announced, becomes the ref's round and is logged with its position, and nothing is logged otherwise; outside HIIT an immediate combo cue with the ref and the log kept; the settings and the screen are kept |

## Left out

- Speech output: `speak` is the append to `announcements`. Cancelling speech already in
  progress, the missing-speech-API case and the voice settings are not modelled.
- Timers: `setInterval` and `setTimeout`, their handles and their clearing are not modelled.
  Each firing is one step method, and an armed timer is the guard under which its step changes
  anything. The 3-second spacing of combo cues is therefore not modelled, only the cue each
  firing gives.
- React scheduling is not modelled: batching of updates, re-rendering, and when an effect runs
  again. The caller decides the order of steps, and each effect runs whole on the state it
  sees.
- Session.WorkoutApp.CoachEffect: `prevRunningRef` is not modelled. Both of its branches fire
  a combo, so it does not change the outcome. The effect that tracks it (App.jsx:308-310) is
  left out for the same reason.
- Session.WorkoutApp.FireCombo: `Math.random` is the `pick` parameter, an index into the list.
- Persistence (`saveJSON` and `loadJSON`) is not modelled. Saved values are parameters of the
  constructor. src/lib/storage.js is not part of this model.
- Session.NumberOr: `Number(x)` on strings, floats and `NaN` is not modelled; a saved value
  is an optional integer. Negative saved values are kept, as in the code.
- Helpers.FormatMMSS: `Math.floor` of a fractional number of seconds is not modelled. The
  model works on integers.
- The HIIT work and rest setters on the setup screen are not modelled, nor the rendering of
  the screens (IntroScreen, WorkoutScreen, the catalog of exercises).
- The render-error fallback view (App.jsx:438-448) is not modelled.
- Timer.Seconds: the one-second walk does at most one phase switch per second, so a phase of
  length 0 takes a second of its own.
- Timer.TimerInv: nothing is claimed about `timeLeft`. The resync effect can set it to any
  configured length.
- ComboLibrary.IsSpace: the whitespace set of JavaScript's `\s` and `trim` is written out
  character by character. UTF-16 surrogate pairs are treated as ordinary characters.
- Handlers require the screen they are wired to: selecting a mode on the intro screen,
  toggling an exercise on the setup screen, starting HIIT there with a non-empty selection,
  and start/pause and next on the workout screen while no countdown runs.
- The cue log (`cuedRounds`, `cueAt`) is ghost bookkeeping with no counterpart in the code.
  It records which announcements were HIIT exercise cues.
