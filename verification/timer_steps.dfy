/**
 * The state of the `useTimer` hook (src/hooks/useTimer.ts) as a value, and
 * each of its transitions as a function on that value. The class in
 * use_timer.dfy is proved against these functions; the properties of the
 * countdown are proved here about them.
 *
 * Time is an integer number of milliseconds (the value `Date.now()` would
 * return), passed explicitly to every time-dependent step.
 */
module TimerSteps {
  import opened Wrappers

  /** The value of MILLISECONDS_IN_SECOND. */
  const MillisecondsInSecond: int := 1000

  /** `Math.ceil(ms / MILLISECONDS_IN_SECOND)` for a whole number of milliseconds. */
  function CeilSeconds(ms: int): (r: int)
    ensures (r - 1) * MillisecondsInSecond < ms <= r * MillisecondsInSecond
  {
    -((-ms) / MillisecondsInSecond)
  }

  /** The five pieces of React state held by the hook. */
  datatype TimerState = TimerState(
    timeRemaining: Option<int>,       // seconds shown; None when no countdown is shown
    timerFinished: bool,
    isPaused: bool,
    endTime: Option<int>,             // absolute end time in milliseconds
    pausedTimeRemaining: Option<int>) // seconds saved by a pause

  /** The initial `useState` values; also what cancelTimer sets. */
  const Idle := TimerState(None, false, false, None, None)

  /**
   * The derived `isRunning` flag. In every reachable state it implies that
   * the effect is counting down toward an end time.
   */
  predicate IsRunning(s: TimerState)
    ensures IsRunning(s) && Inv(s) ==> Counting(s)
  {
    s.timeRemaining.Some? && s.timeRemaining.value > 0 && !s.isPaused
  }

  /** `startTimer(durationInSeconds)` called at time `now`; the duration is not checked. */
  function StartTimer(s: TimerState, durationInSeconds: int, now: int): (r: TimerState)
    ensures Inv(r) && Armed(r) && Counting(r)
    ensures IsRunning(r) <==> durationInSeconds > 0
  {
    s.(endTime := Some(now + durationInSeconds * MillisecondsInSecond),
       timeRemaining := Some(durationInSeconds),
       isPaused := false,
       pausedTimeRemaining := None)
  }

  /** `pauseTimer()`. */
  function PauseTimer(s: TimerState): (r: TimerState)
    ensures !IsRunning(r) && !Counting(r)
    ensures Inv(s) ==> Inv(r)
  {
    if s.timeRemaining.Some? then
      s.(pausedTimeRemaining := s.timeRemaining, endTime := None, isPaused := true)
    else
      s.(isPaused := true)
  }

  /** `resumeTimer()` called at time `now`. */
  function ResumeTimer(s: TimerState, now: int): (r: TimerState)
    ensures !r.isPaused && r.pausedTimeRemaining.None?
    ensures Inv(s) ==> Inv(r) && Armed(r) == Armed(s)
  {
    if s.pausedTimeRemaining.Some? then
      s.(endTime := Some(now + s.pausedTimeRemaining.value * MillisecondsInSecond),
         pausedTimeRemaining := None,
         isPaused := false)
    else
      s.(isPaused := false)
  }

  /** `cancelTimer()`: every field back to its initial value, whatever the state. */
  function CancelTimer(s: TimerState): (r: TimerState)
    ensures Inv(r) && !Armed(r) && !IsRunning(r) && !r.timerFinished
  {
    Idle
  }

  /** The condition under which the effect counts down (and keeps an interval). */
  predicate Counting(s: TimerState) {
    !s.isPaused && s.endTime.Some?
  }

  /** Whether a tick at `now` calls `onFinish`. */
  predicate TickFires(s: TimerState, now: int) {
    Counting(s) && CeilSeconds(s.endTime.value - now) <= 0
  }

  /**
   * One run of the effect body at time `now`: while counting, recompute the
   * remaining seconds from the end time and finish when they reach 0;
   * otherwise turn a displayed 0 into "no countdown".
   */
  function Tick(s: TimerState, now: int): (r: TimerState)
    ensures Inv(s) ==> Inv(r)
    ensures Inv(s) && TickFires(s, now) ==> !Armed(r)
    ensures r.isPaused == s.isPaused && r.pausedTimeRemaining == s.pausedTimeRemaining
  {
    if Counting(s) then
      var remainingSeconds := CeilSeconds(s.endTime.value - now);
      if remainingSeconds <= 0 then
        s.(timeRemaining := Some(0), endTime := None, timerFinished := true)
      else
        s.(timeRemaining := Some(remainingSeconds), timerFinished := false)
    else if s.timeRemaining == Some(0) then
      s.(timeRemaining := None, endTime := None)
    else
      s
  }

  // ---------------------------------------------------------------------------
  // Ceiling division

  /** The characterisation of CeilSeconds determines it. */
  lemma CeilSecondsUnique(ms: int, k: int)
    requires (k - 1) * MillisecondsInSecond < ms <= k * MillisecondsInSecond
    ensures CeilSeconds(ms) == k
  {
  }

  /** At least one second is shown while any time is left, and none after. */
  lemma CeilSecondsPositive(ms: int)
    ensures CeilSeconds(ms) >= 1 <==> ms > 0
  {
  }

  /** Less time left never shows more seconds. */
  lemma CeilSecondsMonotone(ms1: int, ms2: int)
    requires ms1 <= ms2
    ensures CeilSeconds(ms1) <= CeilSeconds(ms2)
  {
  }

  // ---------------------------------------------------------------------------
  // One tick

  /** A tick calls onFinish exactly when it counts down and the end time has been reached. */
  lemma TickFiresIff(s: TimerState, now: int)
    ensures TickFires(s, now) <==> Counting(s) && now >= s.endTime.value
  {
    if Counting(s) {
      CeilSecondsPositive(s.endTime.value - now);
    }
  }

  /**
   * While counting, a tick before the end time shows the seconds left rounded
   * up (never 0) and keeps running; a tick at or after the end time shows 0,
   * clears the end time and marks the timer finished.
   */
  lemma TickWhileCounting(s: TimerState, now: int)
    requires Counting(s)
    ensures var r, end := Tick(s, now), s.endTime.value;
      (now < end ==>
         r.timeRemaining.Some? && r.timeRemaining.value >= 1
         && (r.timeRemaining.value - 1) * MillisecondsInSecond < end - now
         && end - now <= r.timeRemaining.value * MillisecondsInSecond
         && r.endTime == s.endTime && !r.timerFinished && IsRunning(r))
      && (now >= end ==>
         r.timeRemaining == Some(0) && r.endTime.None? && r.timerFinished && !IsRunning(r))
  {
    CeilSecondsPositive(s.endTime.value - now);
  }

  /** A paused tick never calls onFinish and changes the display only from 0 to none. */
  lemma PausedTick(s: TimerState, now: int)
    requires s.isPaused
    ensures !TickFires(s, now)
    ensures s.timeRemaining != Some(0) ==> Tick(s, now) == s
    ensures s.timeRemaining == Some(0) ==> Tick(s, now) == s.(timeRemaining := None, endTime := None)
  {
  }

  /** A tick at the instant of startTimer(d) shows exactly d when d > 0, and finishes otherwise. */
  lemma StartThenTick(s: TimerState, d: int, now: int)
    ensures var started := StartTimer(s, d, now);
      var r := Tick(started, now);
      (d > 0 ==> r.timeRemaining == Some(d) && IsRunning(r) && !r.timerFinished
                 && r.endTime == Some(now + d * MillisecondsInSecond))
      && (d <= 0 ==> TickFires(started, now) && r.timeRemaining == Some(0) && r.timerFinished)
  {
    CeilSecondsUnique(d * MillisecondsInSecond, d);
  }

  /** No tick after startTimer(d) shows more than d seconds, nor a negative number. */
  lemma CountdownWithinDuration(s: TimerState, d: int, start: int, now: int)
    requires d >= 0 && start <= now
    ensures var r := Tick(StartTimer(s, d, start), now);
      r.timeRemaining.Some? && 0 <= r.timeRemaining.value <= d
  {
    CeilSecondsUnique(d * MillisecondsInSecond, d);
    CeilSecondsMonotone(start + d * MillisecondsInSecond - now, d * MillisecondsInSecond);
  }

  /** The display never counts up between two ticks of the same countdown. */
  lemma CountdownNonIncreasing(s: TimerState, now1: int, now2: int)
    requires Counting(s) && now1 <= now2
    ensures var r1 := Tick(s, now1);
      Counting(r1) ==>
        Tick(r1, now2).timeRemaining.Some?
        && Tick(r1, now2).timeRemaining.value <= r1.timeRemaining.value
  {
    CeilSecondsMonotone(s.endTime.value - now2, s.endTime.value - now1);
  }

  // ---------------------------------------------------------------------------
  // Sequences of calls

  /** What can happen to the hook: one of its four callbacks, or one run of the effect. */
  datatype Event =
    | Started(durationInSeconds: int, now: int)
    | Paused
    | Resumed(now: int)
    | Cancelled
    | Ticked(now: int)

  function Step(s: TimerState, e: Event): TimerState {
    match e
    case Started(d, now) => StartTimer(s, d, now)
    case Paused => PauseTimer(s)
    case Resumed(now) => ResumeTimer(s, now)
    case Cancelled => CancelTimer(s)
    case Ticked(now) => Tick(s, now)
  }

  function Run(s: TimerState, events: seq<Event>): TimerState
    decreases |events|
  {
    if events == [] then s else Run(Step(s, events[0]), events[1..])
  }

  /** Whether event `e` in state `s` calls onFinish. */
  predicate Fires(s: TimerState, e: Event) {
    e.Ticked? && TickFires(s, e.now)
  }

  /**
   * Whether a later tick can still call onFinish without a new start: an end
   * time is set, or a pause saved a value that resumeTimer turns into one.
   */
  predicate Armed(s: TimerState) {
    s.endTime.Some? || s.pausedTimeRemaining.Some?
  }

  /** A pause while the display shows a value but nothing is armed: the 0 left by a finished run. */
  predicate StalePause(s: TimerState, e: Event) {
    e.Paused? && s.timeRemaining.Some? && !Armed(s)
  }

  /** The facts about the five fields that every reachable state keeps. */
  predicate Inv(s: TimerState) {
    (s.endTime.Some? ==> s.pausedTimeRemaining.None?)
    && (s.pausedTimeRemaining.Some? ==> s.isPaused)
    && (s.timeRemaining.Some? && !Armed(s) ==> s.timeRemaining == Some(0))
  }

  function Count(b: bool): nat {
    if b then 1 else 0
  }

  /** The number of onFinish calls made by `events` from `s`. */
  function Finishes(s: TimerState, events: seq<Event>): nat
    decreases |events|
  {
    if events == [] then 0 else Count(Fires(s, events[0])) + Finishes(Step(s, events[0]), events[1..])
  }

  function Starts(events: seq<Event>): nat {
    if events == [] then 0 else Count(events[0].Started?) + Starts(events[1..])
  }

  function StalePauses(s: TimerState, events: seq<Event>): nat
    decreases |events|
  {
    if events == [] then 0
    else Count(StalePause(s, events[0])) + StalePauses(Step(s, events[0]), events[1..])
  }

  predicate AllTicks(events: seq<Event>) {
    forall i :: 0 <= i < |events| ==> events[i].Ticked?
  }

  lemma IdleInv()
    ensures Inv(Idle) && !Armed(Idle)
  {
  }

  /** A pause on an unarmed display saves the 0 of a finished run, never a running value. */
  lemma StalePauseSavesZero(s: TimerState)
    requires Inv(s) && StalePause(s, Paused)
    ensures s.timeRemaining == Some(0) && !IsRunning(s)
    ensures PauseTimer(s).pausedTimeRemaining == Some(0)
  {
  }

  /**
   * Every event keeps the invariant, and calls onFinish only by spending the
   * armed state: a finishing tick disarms, only a start or a stale pause arms.
   */
  lemma StepKeepsBudget(s: TimerState, e: Event)
    requires Inv(s)
    ensures Inv(Step(s, e))
    ensures Count(Fires(s, e)) + Count(Armed(Step(s, e)))
         <= Count(e.Started?) + Count(StalePause(s, e)) + Count(Armed(s))
  {
  }

  /** Over any sequence of events, onFinish calls are paid for by starts and stale pauses. */
  lemma {:induction false} FinishBudget(s: TimerState, events: seq<Event>)
    requires Inv(s)
    ensures Inv(Run(s, events))
    ensures Finishes(s, events) + Count(Armed(Run(s, events)))
         <= Starts(events) + StalePauses(s, events) + Count(Armed(s))
    decreases |events|
  {
    if events != [] {
      StepKeepsBudget(s, events[0]);
      FinishBudget(Step(s, events[0]), events[1..]);
    }
  }

  /**
   * From the initial state, onFinish fires at most once per startTimer, plus
   * once per pause made on the 0 of a finished run; without such pauses, at
   * most once per start.
   */
  lemma OnFinishAtMostOncePerStart(events: seq<Event>)
    ensures Finishes(Idle, events) <= Starts(events) + StalePauses(Idle, events)
    ensures StalePauses(Idle, events) == 0 ==> Finishes(Idle, events) <= Starts(events)
  {
    IdleInv();
    FinishBudget(Idle, events);
  }

  /** The exception is real: pausing on the finished 0 and resuming calls onFinish again. */
  lemma PauseOnFinishedZeroFiresAgain()
    ensures var events := [Started(1, 0), Ticked(1000), Paused, Resumed(5000), Ticked(5000)];
      Starts(events) == 1 && Finishes(Idle, events) == 2 && StalePauses(Idle, events) == 1
  {
  }

  /**
   * `timeRemaining` can be non-null while the timer is not running: a paused
   * countdown keeps its value, and a finishing tick leaves 0 until the reset
   * branch runs.
   */
  lemma ShownWhileNotRunning()
    ensures var paused := Run(Idle, [Started(10, 0), Ticked(0), Paused]);
      paused.timeRemaining == Some(10) && !IsRunning(paused)
    ensures var finished := Run(Idle, [Started(10, 0), Ticked(10_000)]);
      finished.timeRemaining == Some(0) && !IsRunning(finished)
  {
    CeilSecondsUnique(10_000, 10);
  }

  /** After a finishing tick nothing is armed, and no later tick calls onFinish before a new start. */
  lemma FinishDisarms(s: TimerState, now: int, later: int)
    requires Inv(s) && TickFires(s, now)
    ensures var r := Tick(s, now);
      !Armed(r) && r.timeRemaining == Some(0) && r.timerFinished && !TickFires(r, later)
  {
  }

  /**
   * The reset branch: the tick after a finish turns the displayed 0 into no
   * countdown, keeps timerFinished, and leaves a state no tick changes.
   */
  lemma ResetAfterFinish(s: TimerState, now: int, later: int, whenever: int)
    requires Inv(s) && TickFires(s, now)
    ensures var r := Tick(Tick(s, now), later);
      r.timeRemaining.None? && r.endTime.None? && r.timerFinished && !IsRunning(r)
      && Tick(r, whenever) == r
  {
  }

  /**
   * timerFinished changes only on cancelTimer or a counting tick, and becomes
   * true only on the tick that calls onFinish.
   */
  lemma TimerFinishedChanges(s: TimerState, e: Event)
    ensures Step(s, e).timerFinished != s.timerFinished ==> e.Cancelled? || (e.Ticked? && Counting(s))
    ensures Step(s, e).timerFinished && !s.timerFinished ==> Fires(s, e)
  {
  }

  /** Ticks while paused on a value other than 0 change nothing and call no onFinish. */
  lemma {:induction false} PausedTicksIdle(s: TimerState, events: seq<Event>)
    requires s.isPaused && s.timeRemaining != Some(0) && AllTicks(events)
    ensures Run(s, events) == s && Finishes(s, events) == 0
    decreases |events|
  {
    if events != [] {
      PausedTick(s, events[0].now);
      PausedTicksIdle(s, events[1..]);
    }
  }

  /**
   * Pausing on a positive display, any number of paused ticks, then resuming
   * at `later`: a tick at that instant shows exactly the value captured by the
   * pause, however long the pause lasted.
   */
  lemma PauseResumeRestores(s: TimerState, waits: seq<Event>, later: int)
    requires s.timeRemaining.Some? && s.timeRemaining.value > 0 && AllTicks(waits)
    ensures var paused := PauseTimer(s);
      var r := Tick(ResumeTimer(Run(paused, waits), later), later);
      Finishes(paused, waits) == 0
      && r.timeRemaining == s.timeRemaining && IsRunning(r)
      && r.endTime == Some(later + s.timeRemaining.value * MillisecondsInSecond)
  {
    var v := s.timeRemaining.value;
    PausedTicksIdle(PauseTimer(s), waits);
    CeilSecondsUnique(v * MillisecondsInSecond, v);
  }
}
