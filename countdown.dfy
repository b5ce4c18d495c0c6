/** The pure part of the Pomodoro timer: the three modes and their durations,
    the remaining-time record and how it is computed from an end time, the
    record a mode switch resets it to, and the rule that picks the next mode
    when a countdown runs out. */
module Countdown {
  import opened JsMath

  datatype Mode = Pomodoro | ShortBreak | LongBreak

  /** The durations (in minutes) and the long-break interval of the `timer` record. */
  datatype Config = Config(pomodoro: nat, shortBreak: nat, longBreak: nat, longBreakInterval: nat)
  {
    /** `timer[mode]`: the full duration of a mode, in minutes. */
    function Minutes(m: Mode): nat
    {
      match m
      case Pomodoro => pomodoro
      case ShortBreak => shortBreak
      case LongBreak => longBreak
    }

    /** Every duration shows on the clock face without the hour being dropped. */
    predicate WithinHour()
    {
      pomodoro < 60 && shortBreak < 60 && longBreak < 60
    }
  }

  /** The values the timer is created with. */
  const Defaults := Config(25, 5, 15, 4)

  /** `timer.remainingTime`: whole seconds left and their minutes/seconds split. */
  datatype Remaining = Remaining(total: int, minutes: int, seconds: int)

  /** The minutes/seconds split of `getRemainingTime`: minutes are the truncated
      quotient by 60 taken modulo 60, seconds the remainder by 60, both with
      JavaScript's sign-of-dividend remainder. */
  function Split(total: int): (r: Remaining)
    ensures r.total == total
    ensures 0 <= total < 3600 ==>
              0 <= r.minutes < 60 && 0 <= r.seconds < 60 && r.minutes * 60 + r.seconds == total
    ensures total < 0 ==> r.minutes <= 0 && r.seconds <= 0
  {
    Remaining(total, TruncRem(TruncDiv(total, 60), 60), TruncRem(total, 60))
  }

  /** Beyond one hour the split keeps the seconds within the hour: the whole
      hours are dropped from the minutes. */
  lemma SplitDropsHours(total: int)
    requires total >= 0
    ensures 0 <= Split(total).minutes < 60 && 0 <= Split(total).seconds < 60
    ensures total == (total / 3600) * 3600 + Split(total).minutes * 60 + Split(total).seconds
  {
    var m := total / 60;
    assert total == m * 60 + total % 60;
    assert m == (m / 60) * 60 + m % 60;
    assert m / 60 == total / 3600;
  }

  /** On a non-negative total the split is the plain Euclidean one. */
  lemma SplitOfNonNegative(total: int)
    requires total >= 0
    ensures Split(total) == Remaining(total, (total / 60) % 60, total % 60)
  {
  }

  /** `getRemainingTime(endTime)` read at wall-clock time `now` (milliseconds).
      The whole seconds left are the millisecond difference divided by 1000 and
      truncated, so a tick sees the countdown as finished (`total <= 0`) exactly
      when less than one second separates the clock from the end time. */
  function RemainingTime(endTime: int, now: int): (r: Remaining)
    ensures now <= endTime ==> r.total == (endTime - now) / 1000
    ensures r.total <= 0 <==> now > endTime - 1000
    ensures r.total >= 0 ==> r.minutes == (r.total / 60) % 60 && r.seconds == r.total % 60
  {
    var d := endTime - now;
    if d >= 1000 then
      TruncDivMonotone(1000, d, 1000);
      var total := TruncDiv(d, 1000);
      SplitOfNonNegative(total);
      Split(total)
    else
      var total := TruncDiv(d, 1000);
      if total >= 0 then SplitOfNonNegative(total); Split(total) else Split(total)
  }

  /** With a clock of whole-second precision, a countdown of `total` seconds
      started at `start` and read `k` seconds later has exactly `total - k` seconds left. */
  lemma WholeSecondCountdown(start: int, total: int, k: int)
    ensures RemainingTime(start + total * 1000, start + k * 1000).total == total - k
  {
    assert (start + total * 1000) - (start + k * 1000) == (total - k) * 1000;
    TruncDivExact(total - k, 1000);
  }

  /** While the clock moves forward the remaining time never grows. */
  lemma RemainingNonIncreasing(endTime: int, now1: int, now2: int)
    requires now1 <= now2
    ensures RemainingTime(endTime, now2).total <= RemainingTime(endTime, now1).total
  {
    TruncDivMonotone(endTime - now2, endTime - now1, 1000);
  }

  /** Once started, a countdown never shows more than it started with, however
      late the tick; it shows at least one second until the last second begins. */
  lemma CountdownBounded(start: int, total: int, now: int)
    requires start <= now
    ensures RemainingTime(start + total * 1000, now).total <= total
    ensures now <= start + total * 1000 - 1000 ==> RemainingTime(start + total * 1000, now).total >= 1
  {
    WholeSecondCountdown(start, total, 0);
    RemainingNonIncreasing(start + total * 1000, start, now);
  }

  /** The record `switchMode` installs: the full duration in seconds, its
      minutes and zero seconds. For a duration under an hour it reads as its own
      minutes/seconds split, in the Euclidean form `SplitOfNonNegative` gives
      `Split` on a non-negative total (`FullClockIsSplit` states the equality). */
  function FullClock(c: Config, m: Mode): (r: Remaining)
    ensures r.total == c.Minutes(m) * 60 && r.minutes == c.Minutes(m) && r.seconds == 0
    ensures c.Minutes(m) < 60 ==> r.minutes == (r.total / 60) % 60 && r.seconds == r.total % 60
  {
    Remaining(c.Minutes(m) * 60, c.Minutes(m), 0)
  }

  /** The reset record is what the clock itself would show for the same total
      exactly when the duration is under an hour. */
  lemma FullClockIsSplit(c: Config, m: Mode)
    ensures FullClock(c, m) == Split(c.Minutes(m) * 60) <==> c.Minutes(m) < 60
  {
    var d := c.Minutes(m);
    TruncDivExact(d, 60);
    assert Split(d * 60).minutes == d % 60;
  }

  /** The mode that follows a countdown that ran out: after work a long break
      when the session count is a multiple of the interval (a zero interval
      makes JavaScript's remainder NaN, which never equals 0), after any break work. */
  function NextMode(m: Mode, sessions: nat, interval: nat): (r: Mode)
    ensures (r == Pomodoro) <==> (m != Pomodoro)
    ensures r == LongBreak <==> (m == Pomodoro && interval != 0 && sessions % interval == 0)
  {
    match m
    case Pomodoro =>
      if interval != 0 && sessions % interval == 0 then LongBreak else ShortBreak
    case _ => Pomodoro
  }

  /** The part of the timer's state that the mode rotation depends on. */
  datatype Phase = Phase(mode: Mode, sessions: nat)

  /** `startTimer`'s effect on the phase: each start in work mode counts a session. */
  function Started(p: Phase): (q: Phase)
    ensures q.mode == p.mode
    ensures q.sessions == p.sessions + 1 <==> p.mode == Pomodoro
    ensures q.sessions == p.sessions <==> p.mode != Pomodoro
  {
    if p.mode == Pomodoro then Phase(p.mode, p.sessions + 1) else p
  }

  /** A countdown that runs out: switch to the next mode, then start again.
      Work and breaks alternate, a session is counted exactly on the return to
      work, and the break is long exactly when the sessions so far are a
      multiple of the interval. */
  function Complete(p: Phase, interval: nat): (q: Phase)
    ensures (q.mode == Pomodoro) <==> (p.mode != Pomodoro)
    ensures q.sessions == if q.mode == Pomodoro then p.sessions + 1 else p.sessions
    ensures q.mode == LongBreak <==> (p.mode == Pomodoro && interval != 0 && p.sessions % interval == 0)
  {
    Started(Phase(NextMode(p.mode, p.sessions, interval), p.sessions))
  }

  /** The phase after `k` countdowns in a row have run out, without manual intervention. */
  function Completions(p: Phase, interval: nat, k: nat): Phase
  {
    if k == 0 then p else Complete(Completions(p, interval, k - 1), interval)
  }

  /** Uninterrupted, the timer alternates work and breaks; each return to work
      counts one more session, and the break after a work session is long
      exactly when the count is a multiple of the interval. */
  lemma {:induction false} UninterruptedRun(s: nat, interval: nat, k: nat)
    requires interval > 0
    ensures Completions(Phase(Pomodoro, s), interval, 2 * k) == Phase(Pomodoro, s + k)
    ensures Completions(Phase(Pomodoro, s), interval, 2 * k + 1)
         == Phase(if (s + k) % interval == 0 then LongBreak else ShortBreak, s + k)
  {
    if k > 0 {
      UninterruptedRun(s, interval, k - 1);
      assert 2 * k == (2 * (k - 1) + 1) + 1;
    }
  }

  /** With the default settings, once the first work session has started
      (one session counted), the first three breaks are short, the fourth is
      long, and after the fourth break the fifth session starts. */
  lemma DefaultRotation()
    ensures Completions(Phase(Pomodoro, 1), Defaults.longBreakInterval, 1).mode == ShortBreak
    ensures Completions(Phase(Pomodoro, 1), Defaults.longBreakInterval, 3).mode == ShortBreak
    ensures Completions(Phase(Pomodoro, 1), Defaults.longBreakInterval, 5).mode == ShortBreak
    ensures Completions(Phase(Pomodoro, 1), Defaults.longBreakInterval, 7).mode == LongBreak
    ensures Completions(Phase(Pomodoro, 1), Defaults.longBreakInterval, 8) == Phase(Pomodoro, 5)
  {
    UninterruptedRun(1, 4, 0);
    UninterruptedRun(1, 4, 1);
    UninterruptedRun(1, 4, 2);
    UninterruptedRun(1, 4, 3);
    UninterruptedRun(1, 4, 4);
  }
}
