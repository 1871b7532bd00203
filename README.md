# Pomodoro timer session model

A Dafny model of the session state machine of a browser Pomodoro timer. A
user sets a focus duration (5 to 60 minutes in steps of 5) and a break
duration (1 to 15 minutes). Play/pause starts or pauses a countdown and stop
discards it. While the timer runs, a one-second interval counts the session
down and switches between "Focusing" and "On Break" when it reaches zero.
The view shows how far the current phase has elapsed, as a percentage.

- `Sessions.dfy` (module `Sessions`): the value half of
  `src/pomodoro/Pomodoro.js`. It holds the session record and `NextTick`,
  `NextSession` and `Step` (the body of the interval callback, applied to a
  value). It also holds `Steps`, which is `Step` applied n times, the
  `TotalDuration`/`Progress` derivation, and lemmas about all of them.
- `Pomodoro.dfy` (module `PomodoroTimer`): class `Pomodoro` with the
  component's four state cells: `isTimerRunning`, `session` (`None` for
  `null`), `focusDuration` and `breakDuration`. Each handler is a method that
  changes only the cells it assigns. `Valid()` is the invariant every handler
  keeps: both durations in range and on their step, a session with a known
  label and a non-negative countdown, and a running timer only when there is
  a session. `Consistent()` says the countdown is within the length of the
  current phase.

Deviations and modelling choices:
- The source field `label` is named `phase`, because `label` is a Dafny
  keyword. Its values are the source's strings `"Focusing"` and
  `"On Break"`, so that `NextSession` keeps the source's branch
  "any label other than Focusing becomes Focusing".
- `nextSession(focus, break)` returns a function in the source. Here it is
  the uncurried `NextSession(focus, break, current)`.
- The duration handlers do not check for an active session.
  `disabled={session !== null}` on the buttons
  (src/pomodoro/FocusDuration.js:18 and :27) is what stops them. So the
  handlers have no such precondition and keep `Valid()` only. `Consistent()`
  is kept by `Tick`, `PlayPause` and `OnStop`. It also holds whenever there
  is no session, which is the only time the view lets the durations change.
- `Tick` requires `isTimerRunning`, because the interval delay is `null`
  while stopped. `Valid()` then guarantees that a session exists, matching
  the callback's unguarded `session.timeRemaining`.
- A 1500-second focusing session does not switch to its break on the
  1500th tick. That tick brings the countdown to 0, and the 1501st tick,
  which finds it at 0, switches phase. `DefaultCycle` and `PhaseRunsOut`
  state this.

## Model

| member | source | states |
|---|---|---|
| Sessions.NextTick | src/pomodoro/Pomodoro.js:19-26 | the label is kept; the countdown is never negative, drops by exactly one when positive, and is 0 when it was 0 or less |
| Sessions.NextSessionStartsFullPhase | src/pomodoro/Pomodoro.js:37-53 | Focusing becomes On Break and every other label becomes Focusing; the new countdown is the new phase's configured minutes times 60 |
| Sessions.NextSessionAlternates | src/pomodoro/Pomodoro.js:41-52 | on the two real labels the switch always changes the label, stays within the two labels, and two switches give back the original label |
| Sessions.StepWithinPhase | src/pomodoro/Pomodoro.js:95-101 | with fixed durations, one interval callback keeps a labelled session's countdown between 0 and its phase's length |
| Sessions.StepsSnoc | src/pomodoro/Pomodoro.js:95-103 | n+1 interval callbacks equal one callback after n |
| Sessions.CountdownSteps | src/pomodoro/Pomodoro.js:95-101 | for k up to the remaining time, k callbacks subtract exactly k seconds and keep the label |
| Sessions.PhaseRunsOut | src/pomodoro/Pomodoro.js:95-101 | a phase with r seconds left stays positive for fewer than r callbacks, is at 0 after exactly r, and callback r+1 is the phase switch |
| Sessions.FocusRunEndsInBreak | src/pomodoro/Pomodoro.js:95-101 | from Focusing with r seconds left, r+1 callbacks yield On Break with the break duration times 60 |
| Sessions.DefaultCycle | src/pomodoro/Pomodoro.js:58-59 | with the default 25/5 durations, a 1500-second focus session is at 0 after 1500 callbacks and a 300-second break after 1501 |
| Sessions.Progress | src/pomodoro/Pomodoro.js:86-88 | defined exactly when there is a session and a non-zero phase length; the percentage times the phase length equals the elapsed seconds times 100 |
| Sessions.ProgressBounded | src/pomodoro/Pomodoro.js:86-88 | with positive durations and the countdown within its phase, progress is in [0,100] and is 100 exactly at 0 remaining |
| Sessions.ProgressZeroAtPhaseStart | src/pomodoro/Pomodoro.js:86-88 | progress is 0 for a freshly started Focusing session and right after any phase switch |
| PomodoroTimer.Pomodoro.constructor | src/pomodoro/Pomodoro.js:56-59 | starts stopped, with no session, 25 minutes of focus and 5 of break, in a valid and consistent state |
| PomodoroTimer.Pomodoro.OnIncreaseFocus | src/pomodoro/Pomodoro.js:61-64 | adds 5 minutes unless already at 60, where it is a no-op; stays in [5,60] on multiples of 5; nothing else changes |
| PomodoroTimer.Pomodoro.OnDecreaseFocus | src/pomodoro/Pomodoro.js:66-69 | subtracts 5 minutes unless already at 5, where it is a no-op; stays in [5,60] on multiples of 5; nothing else changes |
| PomodoroTimer.Pomodoro.OnIncreaseBreak | src/pomodoro/Pomodoro.js:71-74 | adds 1 minute unless already at 15, where it is a no-op; stays in [1,15]; nothing else changes |
| PomodoroTimer.Pomodoro.OnDecreaseBreak | src/pomodoro/Pomodoro.js:76-79 | subtracts 1 minute unless already at 1, where it is a no-op; stays in [1,15]; nothing else changes |
| PomodoroTimer.Pomodoro.OnStop | src/pomodoro/Pomodoro.js:81-84 | from any state: not running, no session, both durations unchanged |
| PomodoroTimer.Pomodoro.PlayPause | src/pomodoro/Pomodoro.js:108-128 | always negates the running flag; starting with no session creates Focusing with the focus duration times 60, at progress 0; resuming or pausing leaves the session as it was; durations unchanged; invariants kept |
| PomodoroTimer.Pomodoro.Tick | src/pomodoro/Pomodoro.js:95-103 | at 0 remaining the session becomes the phase switch of itself, with progress 0; otherwise it becomes its tick; durations and running flag unchanged; invariants kept |
| PomodoroTimer.Pomodoro.TotalDuration | src/pomodoro/Pomodoro.js:86 | the focus duration for a Focusing session, the break duration for an On Break session, always within [1,60] |
| PomodoroTimer.Pomodoro.Progress | src/pomodoro/Pomodoro.js:86-88 | defined exactly when there is a session, and then in [0,100] whenever the countdown is within its phase |

## Left out

- The JSX rendering and the view components (FocusDuration, BreakDuration, MediaControls, ActiveSession, ProgressBar). They only display state. The one thing taken from them is the `disabled` guard on the duration buttons, described above.
- The `useInterval` hook and real one-second timing. Each run of the callback is one `Tick` call.
- The audio alert played on a phase switch. It is a browser side effect that cannot affect the state.
- `minutesToDuration`, `secondsToDuration` and `classNames`. Their source is not part of this model.
- Progress as a JavaScript floating-point number. It is an exact `real`. `None` stands for the NaN with no session and for the NaN or infinity of a zero-length phase.
- React's batching of state updates and its updater queue. `PlayPause` is one atomic update.
- JavaScript number limits. Every quantity is an unbounded `int`; the values the timer reaches (at most 3600 seconds) are far inside the exact range of a double.
