/**
 * The `useTimer` hook of src/hooks/useTimer.ts as an object whose fields are
 * its five pieces of state and whose methods are its callbacks. `Date.now()`
 * is the parameter `now`; the effect body is `Tick(now)`; each call of
 * `onFinish` adds one to the ghost counter `finishes`.
 */
module UseTimer {
  import opened Wrappers
  import opened TimerSteps

  class Timer {
    var timeRemaining: Option<int>
    var timerFinished: bool
    var isPaused: bool
    var endTime: Option<int>
    var pausedTimeRemaining: Option<int>

    /** Calls of startTimer, calls of onFinish, and pauses on the 0 of a finished run. */
    ghost var starts: nat
    ghost var finishes: nat
    ghost var stalePauses: nat

    function State(): TimerState
      reads this
    {
      TimerState(timeRemaining, timerFinished, isPaused, endTime, pausedTimeRemaining)
    }

    /** The field invariant, and onFinish calls paid for by starts and stale pauses. */
    ghost predicate Valid()
      reads this
    {
      Inv(State())
      && finishes + Count(Armed(State())) <= starts + stalePauses
    }

    constructor ()
      ensures Valid() && State() == Idle
      ensures starts == 0 && finishes == 0 && stalePauses == 0
    {
      timeRemaining := None;
      timerFinished := false;
      isPaused := false;
      endTime := None;
      pausedTimeRemaining := None;
      starts, finishes, stalePauses := 0, 0, 0;
      IdleInv();
    }

    method Start(durationInSeconds: int, now: int)
      requires Valid()
      modifies this
      ensures Valid() && State() == StartTimer(old(State()), durationInSeconds, now)
      ensures starts == old(starts) + 1 && finishes == old(finishes)
      ensures stalePauses == old(stalePauses)
    {
      ghost var before := State();
      var targetEndTime := now + durationInSeconds * MillisecondsInSecond;
      endTime := Some(targetEndTime);
      timeRemaining := Some(durationInSeconds);
      isPaused := false;
      pausedTimeRemaining := None;
      starts := starts + 1;
      StepKeepsBudget(before, Started(durationInSeconds, now));
    }

    method Pause()
      requires Valid()
      modifies this
      ensures Valid() && State() == PauseTimer(old(State()))
      ensures starts == old(starts) && finishes == old(finishes)
      ensures stalePauses == old(stalePauses) + Count(StalePause(old(State()), Paused))
      ensures StalePause(old(State()), Paused) ==> pausedTimeRemaining == Some(0)
    {
      ghost var before := State();
      if timeRemaining.Some? {
        pausedTimeRemaining := timeRemaining;
        endTime := None;
      }
      isPaused := true;
      if StalePause(before, Paused) {
        stalePauses := stalePauses + 1;
        StalePauseSavesZero(before);
      }
      StepKeepsBudget(before, Paused);
    }

    method Resume(now: int)
      requires Valid()
      modifies this
      ensures Valid() && State() == ResumeTimer(old(State()), now)
      ensures starts == old(starts) && finishes == old(finishes)
      ensures stalePauses == old(stalePauses)
    {
      ghost var before := State();
      if pausedTimeRemaining.Some? {
        var targetEndTime := now + pausedTimeRemaining.value * MillisecondsInSecond;
        endTime := Some(targetEndTime);
        pausedTimeRemaining := None;
      }
      isPaused := false;
      StepKeepsBudget(before, Resumed(now));
    }

    method Cancel()
      requires Valid()
      modifies this
      ensures Valid() && State() == Idle && !IsRunning(State())
      ensures starts == old(starts) && finishes == old(finishes)
      ensures stalePauses == old(stalePauses)
    {
      ghost var before := State();
      timeRemaining := None;
      isPaused := false;
      timerFinished := false;
      endTime := None;
      pausedTimeRemaining := None;
      StepKeepsBudget(before, Cancelled);
    }

    /** One run of the effect body at time `now`. */
    method Tick(now: int)
      requires Valid()
      modifies this
      ensures Valid() && State() == TimerSteps.Tick(old(State()), now)
      ensures finishes == old(finishes) + Count(TickFires(old(State()), now))
      ensures starts == old(starts) && stalePauses == old(stalePauses)
    {
      ghost var before := State();
      if !isPaused && endTime.Some? {
        timerFinished := false;
        var remainingMs := endTime.value - now;
        var remainingSeconds := CeilSeconds(remainingMs);
        if remainingSeconds <= 0 {
          timeRemaining := Some(0);
          endTime := None;
          timerFinished := true;
          finishes := finishes + 1;
        } else {
          timeRemaining := Some(remainingSeconds);
        }
      } else if timeRemaining == Some(0) {
        timeRemaining := None;
        endTime := None;
      }
      StepKeepsBudget(before, Ticked(now));
    }
  }

  /** A client: pause with 10 s left, wait, resume at the same 10 s, and run out once. */
  method PauseResumeScenario() {
    var t := new Timer();
    t.Start(25, 0);
    t.Tick(15_000);
    assert t.timeRemaining == Some(10) by { CeilSecondsUnique(10_000, 10); }
    t.Pause();
    t.Tick(20_000);
    t.Resume(60_000);
    t.Tick(60_000);
    assert t.timeRemaining == Some(10) by { CeilSecondsUnique(10_000, 10); }
    t.Tick(70_000);
    assert t.timerFinished && t.finishes == 1;
    t.Tick(70_100);
    t.Tick(80_000);
    assert t.timeRemaining.None? && t.finishes == 1;
  }
}
