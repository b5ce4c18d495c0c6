/** The timer widget's state machine: the shared `timer` object, the current
    mode and remaining time, and whether the one-second interval is active.
    The wall clock is the `now` argument (milliseconds) of `Start` and `Tick`. */
module PomodoroTimer {
  import opened Countdown

  /** A mode button click: `Some(mode)` from a button's `data-mode`, `None`
      when the click landed on something without one. */
  datatype Option<T> = None | Some(value: T)

  class Timer {
    const config: Config
    var mode: Mode
    var sessions: nat
    var remaining: Remaining
    /** The end time the running interval counts down to. */
    var endTime: int
    /** The interval is active (the main button offers "stop"). */
    var running: bool

    /** The remaining time is never negative and always reads as its own
        minutes/seconds split (`Split`, which on a non-negative total is the
        Euclidean one written here). */
    ghost predicate Valid()
      reads this
    {
      config.WithinHour() && remaining.total >= 0 &&
      remaining.minutes == (remaining.total / 60) % 60 && remaining.seconds == remaining.total % 60
    }

    function CurrentPhase(): Phase
      reads this
    {
      Phase(mode, sessions)
    }

    /** The widget as loaded: default settings, no sessions, work mode at full
        length, the countdown stopped. */
    constructor ()
      ensures Valid()
      ensures config == Defaults && mode == Pomodoro && sessions == 0 && !running
      ensures remaining == Remaining(1500, 25, 0)
    {
      config := Defaults;
      sessions := 0;
      endTime := 0;
      running := false;
      mode := Pomodoro;
      remaining := Remaining(0, 0, 0);
      new;
      SwitchMode(Pomodoro);
    }

    /** Resets the countdown to the full length of `m`; the session count and
        the interval are left as they are. */
    method SwitchMode(m: Mode)
      modifies this
      ensures mode == m && remaining == FullClock(config, m)
      ensures sessions == old(sessions) && running == old(running) && endTime == old(endTime)
      ensures config.WithinHour() ==> Valid()
    {
      mode := m;
      remaining := FullClock(config, m);
    }

    /** Starts (or resumes) the countdown from the remaining time. Every start
        in work mode counts a session, a resume after a stop included. */
    method Start(now: int)
      requires Valid() && !running
      modifies this
      ensures Valid() && running
      ensures endTime == now + old(remaining.total) * 1000
      ensures CurrentPhase() == Started(old(CurrentPhase()))
      ensures remaining == old(remaining)
    {
      endTime := now + remaining.total * 1000;
      if mode == Pomodoro {
        sessions := sessions + 1;
      }
      running := true;
    }

    /** Freezes the countdown; stopping a stopped timer changes nothing. */
    method Stop()
      requires Valid()
      modifies this
      ensures Valid() && !running
      ensures mode == old(mode) && sessions == old(sessions)
      ensures remaining == old(remaining) && endTime == old(endTime)
      ensures !old(running) ==> unchanged(this)
    {
      running := false;
    }

    /** One firing of the interval. While time is left it only refreshes the
        remaining time; once it has run out it cancels the interval, switches
        to the next mode at full length and starts again. */
    method Tick(now: int)
      requires Valid() && running
      modifies this
      ensures Valid() && running
      ensures now <= old(endTime) - 1000 ==>
                remaining == RemainingTime(old(endTime), now) && remaining.total > 0 &&
                CurrentPhase() == old(CurrentPhase()) && endTime == old(endTime)
      ensures now > old(endTime) - 1000 ==>
                CurrentPhase() == Complete(old(CurrentPhase()), config.longBreakInterval) &&
                remaining == FullClock(config, mode) &&
                endTime == now + config.Minutes(mode) * 60 * 1000
    {
      remaining := RemainingTime(endTime, now);
      if remaining.total <= 0 {
        running := false;
        var next := NextMode(mode, sessions, config.longBreakInterval);
        SwitchMode(next);
        Start(now);
      }
    }

    /** A click on the mode buttons: without a mode nothing happens; with one
        the countdown is reset to that mode and stopped. */
    method HandleMode(m: Option<Mode>)
      requires Valid()
      modifies this
      ensures Valid()
      ensures m.None? ==> unchanged(this)
      ensures m.Some? ==>
                mode == m.value && remaining == FullClock(config, m.value) && !running &&
                sessions == old(sessions) && endTime == old(endTime)
    {
      if m.None? {
        return;
      }
      SwitchMode(m.value);
      Stop();
    }
  }

  /** The default day: one tick into the first work session, then every
      countdown run to its end until the fourth work session is over. Reports
      the clock after the first tick, the state entered after the first and
      after the fourth work session, and whether the timer kept running. */
  method DefaultDay() returns (firstTick: Remaining, afterFirst: Phase, firstBreak: Remaining,
                                afterFourth: Phase, fourthBreak: Remaining, autoRunning: bool)
    ensures firstTick == Remaining(1499, 24, 59)
    ensures afterFirst == Phase(ShortBreak, 1) && firstBreak == Remaining(300, 5, 0)
    ensures afterFourth == Phase(LongBreak, 4) && fourthBreak == Remaining(900, 15, 0)
    ensures autoRunning
  {
    var t := new Timer();
    t.Start(0);
    WholeSecondCountdown(0, 1500, 1);
    t.Tick(1_000);
    firstTick := t.remaining;
    t.Tick(1_500_000);
    afterFirst, firstBreak := t.CurrentPhase(), t.remaining;
    assert t.endTime == 1_800_000;
    t.Tick(1_800_000);
    assert t.CurrentPhase() == Phase(Pomodoro, 2) && t.endTime == 3_300_000;
    t.Tick(3_300_000);
    assert t.CurrentPhase() == Phase(ShortBreak, 2) && t.endTime == 3_600_000;
    t.Tick(3_600_000);
    assert t.CurrentPhase() == Phase(Pomodoro, 3) && t.endTime == 5_100_000;
    t.Tick(5_100_000);
    assert t.CurrentPhase() == Phase(ShortBreak, 3) && t.endTime == 5_400_000;
    t.Tick(5_400_000);
    assert t.CurrentPhase() == Phase(Pomodoro, 4) && t.endTime == 6_900_000;
    t.Tick(6_900_000);
    afterFourth, fourthBreak, autoRunning := t.CurrentPhase(), t.remaining, t.running;
  }

  /** Pausing and resuming one work session counts it twice; a manual switch
      to a break afterwards keeps that count and leaves the timer stopped at
      the break's full length. */
  method PauseResumeThenSwitch() returns (paused: Remaining, resumedSessions: nat,
                                          switched: Phase, switchedClock: Remaining, stillRunning: bool)
    ensures paused == Remaining(1440, 24, 0)
    ensures resumedSessions == 2
    ensures switched == Phase(ShortBreak, 2) && switchedClock == Remaining(300, 5, 0)
    ensures !stillRunning
  {
    var t := new Timer();
    t.Start(0);
    WholeSecondCountdown(0, 1500, 60);
    t.Tick(60_000);
    t.Stop();
    paused := t.remaining;
    t.Start(100_000);
    resumedSessions := t.sessions;
    t.HandleMode(None);
    t.HandleMode(Some(ShortBreak));
    switched, switchedClock, stillRunning := t.CurrentPhase(), t.remaining, t.running;
  }
}
