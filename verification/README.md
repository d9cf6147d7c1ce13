# Pomodoro countdown timer and time formatting, in Dafny

This project models the two pieces of logic of the pomo web application:

- the `useTimer` React hook (src/hooks/useTimer.ts), a countdown that keeps
  five pieces of state (`timeRemaining`, `timerFinished`, `isPaused`,
  `endTime`, `pausedTimeRemaining`), offers `startTimer`, `pauseTimer`,
  `resumeTimer` and `cancelTimer`, and has an effect that re-runs whenever
  `onFinish`, `isPaused`, `endTime` or `timeRemaining` changes. While the
  timer counts down (not paused, end time set) the effect clears
  `timerFinished` and installs a 100 ms interval; the effect run and each
  interval callback recompute the seconds left from the absolute end time as
  `ceil((endTime - now) / 1000)`, calling `onFinish` when that reaches 0.
  Otherwise the effect turns a displayed 0 into null;
- `formatTime` (src/utils.ts), which renders a number of seconds as `M:SS`.

Layout:

- `wrappers.dfy` — module `Wrappers`: `Option`, the model of `number | null`.
- `timer_steps.dfy` — module `TimerSteps`: the hook's state as the datatype
  `TimerState`; each callback and one run of the effect (`Tick`) as a
  function; sequences of calls (`Event`, `Run`) with the count of `onFinish`
  calls; and the lemmas about the countdown.
- `use_timer.dfy` — module `UseTimer`: class `Timer`, whose fields are the
  five pieces of state and whose methods `Start`, `Pause`, `Resume`,
  `Cancel` and `Tick` update them as the source's setters do. Each method is
  proved to produce exactly the state the matching `TimerSteps` function
  gives, and to keep `Valid()`. `Date.now()` is the parameter `now`
  (milliseconds); `onFinish` is the ghost counter `finishes`; `isRunning` is
  `TimerSteps.IsRunning` applied to the object's `State()`.
- `utils.dfy` — module `Utils`: `FormatTime` with `NatToString`
  (`Number.prototype.toString`) and `PadStart` (`String.prototype.padStart`),
  a reader `ParseTime` for `M:SS`, and the round-trip lemmas.

The constants `MILLISECONDS_IN_SECOND` and `SECONDS_IN_MINUTE` are imported
by the source but not defined in src/constants.ts; the model takes them as
1000 and 60.

What the code does, where it differs from what one might expect of a
Pomodoro timer:

- `startTimer` does not check its duration. A duration of 0 or less is
  accepted and finishes on the next tick (`StartThenTick`). There are no
  "invalid duration" or "invalid transition" errors: `pauseTimer` and
  `resumeTimer` act in any state, and the model follows the code.
- `startTimer` does not clear `timerFinished`; the first tick after it does
  (the effect's `setTimerFinished(false)`).
- `timerFinished` is documented to stay true until the timer starts again,
  but `cancelTimer` also clears it (`TimerFinishedChanges`).
- The reset branch of the effect also runs while paused: a paused display of
  0 becomes "no countdown" (`PausedTick`).
- `timeRemaining` is documented as null when the timer is not running, but
  a paused countdown keeps its value, and a finishing tick leaves 0 until
  the next effect run resets it (`ShownWhileNotRunning`).
- `onFinish` fires at most once per `startTimer`, with one exception that the
  model exposes: a `pauseTimer` that reads the finished 0 saves that 0, and a
  later `resumeTimer` plus tick calls `onFinish` again
  (`PauseOnFinishedZeroFiresAgain`). In the application this needs the pause
  to land in the window between React committing the render that shows 0
  and running the effect that resets it; the model, which lets calls and
  ticks interleave freely, does not decide whether that window can be hit.
  The proved bound (`OnFinishAtMostOncePerStart`, and `Timer.Valid()`)
  counts such pauses; without them it is at most once per start.

## Model

| member | source | states |
|---|---|---|
| TimerSteps.IsRunning | src/hooks/useTimer.ts:22 | isRunning: display non-null and positive, not paused; in every reachable state it implies the effect is counting down toward an end time |
| TimerSteps.StartTimer | src/hooks/useTimer.ts:66-72 | startTimer: end time now + 1000*d, display d, not paused, no saved value; always consistent, armed and counting; running exactly when d > 0 |
| TimerSteps.PauseTimer | src/hooks/useTimer.ts:74-80 | pauseTimer: saves a non-null display and clears the end time, always sets isPaused; never running nor counting afterwards; keeps the invariant |
| TimerSteps.ResumeTimer | src/hooks/useTimer.ts:82-90 | resumeTimer: with a saved value, end time now + 1000*saved and saved cleared; otherwise only isPaused cleared; keeps the invariant and whether the timer is armed |
| TimerSteps.CancelTimer | src/hooks/useTimer.ts:92-98 | cancelTimer: the initial state whatever came before; nothing armed, not running, not finished |
| TimerSteps.Tick | src/hooks/useTimer.ts:25-64 | one effect run: counting, it recomputes the rounded-up seconds and finishes at 0; otherwise it turns a shown 0 into null; keeps the invariant, leaves nothing armed after firing, never touches isPaused or the saved value |
| TimerSteps.IdleInv | src/hooks/useTimer.ts:17-21 | the initial useState values satisfy the invariant and nothing is armed |
| TimerSteps.ShownWhileNotRunning | src/hooks/useTimer.ts:5-6 | contrary to the doc comment, timeRemaining is non-null while not running: 10 after start(10) then pause, 0 right after the finishing tick |
| TimerSteps.CeilSeconds | src/hooks/useTimer.ts:33-36 | the result r is the ceiling of ms/1000: (r-1)*1000 < ms <= r*1000 |
| TimerSteps.CeilSecondsPositive | src/hooks/useTimer.ts:34-35 | at least one second is shown exactly when some milliseconds are left |
| TimerSteps.CeilSecondsMonotone | src/hooks/useTimer.ts:33-36 | less time left never gives more seconds |
| TimerSteps.TickFiresIff | src/hooks/useTimer.ts:28-42 | a tick calls onFinish exactly when not paused, an end time is set, and now has reached it |
| TimerSteps.TickWhileCounting | src/hooks/useTimer.ts:28-45 | before the end time a tick shows the seconds left rounded up (>= 1), keeps the end time, clears timerFinished and is running; at or after it shows 0, clears the end time, sets timerFinished and is not running |
| TimerSteps.PausedTick | src/hooks/useTimer.ts:28-57 | a paused tick never calls onFinish, leaves a state showing anything but 0 unchanged, and turns a shown 0 into no countdown |
| TimerSteps.StartThenTick | src/hooks/useTimer.ts:66-72 | a tick at the instant of startTimer(d) shows exactly d and is running when d > 0 (end time now + 1000*d), and finishes at once when d <= 0 |
| TimerSteps.CountdownWithinDuration | src/hooks/useTimer.ts:31-45 | no tick at or after the start of a d-second countdown shows more than d or less than 0 |
| TimerSteps.CountdownNonIncreasing | src/hooks/useTimer.ts:31-45 | of two ticks of one countdown, the later never shows more |
| TimerSteps.StalePauseSavesZero | src/hooks/useTimer.ts:74-80 | a pause with nothing armed happens only on the 0 of a finished run, and saves 0 |
| TimerSteps.StepKeepsBudget | src/hooks/useTimer.ts:25-98 | every callback and tick keeps the state invariant and calls onFinish only by disarming the timer; only a start or a stale pause arms it |
| TimerSteps.FinishBudget | src/hooks/useTimer.ts:25-98 | over any sequence of calls, onFinish calls plus the final armed state are bounded by starts, stale pauses and the initial armed state |
| TimerSteps.OnFinishAtMostOncePerStart | src/hooks/useTimer.ts:38-42 | from the initial state onFinish fires at most once per start plus once per stale pause, so at most once per start when no pause is made on a finished 0 |
| TimerSteps.PauseOnFinishedZeroFiresAgain | src/hooks/useTimer.ts:74-90 | start(1), tick at the end, pause, resume, tick: one start, two onFinish calls |
| TimerSteps.FinishDisarms | src/hooks/useTimer.ts:38-42 | the finishing tick shows 0, sets timerFinished, leaves nothing armed, and no later tick fires again |
| TimerSteps.ResetAfterFinish | src/hooks/useTimer.ts:54-57 | the tick after a finish turns the 0 into no countdown with no end time, keeps timerFinished, and leaves a state no tick changes |
| TimerSteps.TimerFinishedChanges | src/hooks/useTimer.ts:25-98 | timerFinished changes only on cancelTimer or a counting tick, and becomes true only on the tick that calls onFinish |
| TimerSteps.PausedTicksIdle | src/hooks/useTimer.ts:28-57 | any number of ticks while paused on a value other than 0 change nothing and call no onFinish |
| TimerSteps.PauseResumeRestores | src/hooks/useTimer.ts:74-90 | pause on a positive display, any paused ticks, resume at t: a tick at t shows exactly the paused value, is running, with end time t + 1000*value |
| UseTimer.Timer.constructor | src/hooks/useTimer.ts:17-21 | all five fields start null/false, nothing counted |
| UseTimer.Timer.Start | src/hooks/useTimer.ts:66-72 | new state is StartTimer of the old one (end time now + 1000*d, display d, not paused, no saved value); one more start |
| UseTimer.Timer.Pause | src/hooks/useTimer.ts:74-80 | new state is PauseTimer of the old one (saves a non-null display and clears the end time, always sets isPaused); counts a stale pause, which saves 0 |
| UseTimer.Timer.Resume | src/hooks/useTimer.ts:82-90 | new state is ResumeTimer of the old one (end time now + 1000*saved and saved cleared, or only isPaused cleared) |
| UseTimer.Timer.Cancel | src/hooks/useTimer.ts:92-98 | new state is the initial state whatever the old one, so a second cancel changes nothing; not running |
| UseTimer.Timer.Tick | src/hooks/useTimer.ts:25-64 | new state is Tick of the old one; onFinish counted once exactly when that tick fires; Valid() keeps onFinish calls within starts plus stale pauses |
| Utils.FormatTime | src/utils.ts:3-7 | formatTime: minutes, ':' and padded seconds; the ':' sits three characters from the end of a string of at least four |
| Utils.NatToString | src/utils.ts:6 | toString of a natural: at least one character, all decimal digits, no leading zero, one character exactly below 10 |
| Utils.PadStart | src/utils.ts:6 | padStart: the input unchanged when long enough, else length width; ends with the input, preceded only by the filler |
| Utils.ReadNatToString | src/utils.ts:6 | reading the decimal rendering of n gives n |
| Utils.SecondsField | src/utils.ts:5-6 | for k < 60 the padded seconds field is exactly the two digits of k |
| Utils.FormatTimeFields | src/utils.ts:3-7 | formatTime is the unpadded minutes (floor of s/60), ':' and the two digits of s % 60 |
| Utils.FormatTimeLayout | src/utils.ts:3-7 | the part after the single ':' is two digits, tens digit below 6, value s % 60; before it the decimal of s / 60 |
| Utils.ParseTimeOfFields | src/utils.ts:6 | reading minutes ':' two digits below 60 gives minutes*60 + seconds |
| Utils.ParseFormatTime | src/utils.ts:3-7 | reading formatTime(s) back as minutes*60 + seconds gives s |
| Utils.FormatTimeInjective | src/utils.ts:3-7 | distinct inputs give distinct strings |
| Utils.FormatTimeUnderAMinute | src/utils.ts:4-6 | every s < 60 renders as "0:" and its two digits |

## Left out

- The `setInterval` scheduling, its cleanup and React's rendering: each run
  of the effect, and each interval callback, is one explicit `Tick(now)`.
  The interval callback does not itself clear `timerFinished`, but it only
  runs after an effect run that did and before anything sets it true without
  stopping the countdown, so the two are the same step. The model assumes
  each state update is in place before the next callback or tick; a
  callback that reads a stale render (say `pauseTimer` in the same handler
  as `startTimer`, or from inside `onFinish`) is not modelled.
- `Date.now()` is the parameter `now`; ticks may come at any times, in any
  order relative to the callbacks.
- `onFinish` itself is a caller-supplied callback; only the number of its
  calls is kept (ghost `finishes`).
- JavaScript numbers are doubles: durations, timestamps and the input of
  `formatTime` are unbounded integers here; fractional values and precision
  loss on huge values are not modelled. In particular `NatToString` matches
  `Number.prototype.toString` only for values below 2^53 (exactly
  representable) and below 1e21 (above which JavaScript switches to
  exponent notation).
- `formatTime` on negative or non-integer input, where `%` and `padStart`
  give other strings, is not modelled.
- OnFinishAtMostOncePerStart: states "at most once per start plus once per
  pause on a finished 0", weaker than "once per start", because under free
  interleaving of calls and ticks the code allows that second call; whether
  React's scheduling ever lets such a pause happen is not modelled.
- The work / break / long-break sequencer, configuration and event log are
  only TODO comments in src/App.tsx; there is no code to model.
- src/hooks/useAlarm.ts (audio playback), src/hooks/useAppTheme.ts (DOM and
  media queries), the components under src/components (rendering,
  floating-point percentages), vite.config.ts and src/main.tsx (build and
  service-worker setup) are outside this model.
