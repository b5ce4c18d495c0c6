# PomoPal timer — a Dafny model

PomoPal's timer widget (`pomopal/src/components/timer.js`) counts down
work sessions ("pomodoro"), short breaks and long breaks. It keeps one
shared `timer` record with the durations (25, 5 and 15 minutes), the
long-break interval (4) and a session counter. It also keeps the current
mode, the remaining time as `{total, minutes, seconds}`, and a one-second
interval that recomputes the remaining time from an absolute end time.
When a countdown runs out, the widget picks the next mode and starts again
on its own. A click on a mode button switches mode and stops the countdown.

The model has three modules:

- `JsMath` (`js_math.dfy`) holds JavaScript's integer arithmetic as the widget
  uses it. `Number.parseInt(a / b, 10)` truncates toward zero, and `%` keeps
  the sign of the dividend. Dafny's `/` and `%` are Euclidean, so both are
  written out.
- `Countdown` (`countdown.dfy`) is the pure part: modes, the settings record,
  `getRemainingTime`, the record `switchMode` installs, the next-mode rule,
  and how the mode and session count evolve when countdowns run out one
  after another.
- `PomodoroTimer` (`pomodoro_timer.dfy`) is the stateful part. A class
  `Timer` has fields `mode`, `sessions`, `remaining`, `endTime` and `running`,
  with the methods `SwitchMode`, `Start`, `Stop`, `Tick` and `HandleMode`.
  Two straight-line client scenarios show what callers can conclude from
  those contracts.

Modelling choices:

- The wall clock (`Date.parse(new Date())`) is the `now` argument of `Start`
  and `Tick`, in milliseconds. Nothing in the model reads a clock.
- `running` stands for "the interval is active". `Start` requires
  `!running`, because the button calls `startTimer` only when its action is
  `start` (line 25). `Tick` requires `running`, because the interval fires
  only while it is set.
- `endTime` is the end time the running interval captured (a local of
  `startTimer` in the source). The initial value before the first start is
  unused, so it is set to 0.
- The object invariant `Valid()` says the remaining time is never negative
  and always equals its own minutes/seconds split. It needs every duration
  under 60 minutes. The defaults meet this. `FullClockIsSplit` shows that
  `switchMode`'s record `{d*60, d, 0}` equals the split of `d*60` exactly
  when `d < 60`.
- Sessions are counted as the code counts them. Every `startTimer` in work
  mode adds one, and this includes a resume after a pause (line 60).
  `PauseResumeThenSwitch` shows one pause and resume counting two sessions.
- A long-break interval of 0 never happens with the defaults. It is still
  modelled as JavaScript evaluates it: `sessions % 0` is NaN, NaN is never
  `=== 0`, so the next break is short.

The model follows the code as written, including these details:

- `switchMode` does not cancel the interval. Its callers do: the tick
  clears it before switching, and `handleMode` stops afterwards.
- Sessions are counted on every start in work mode, not only on entry into
  work mode.
- The tick truncates `(endTime - now) / 1000` toward zero and does not
  clamp the result at zero. A total at or below zero ends the countdown.
  `RemainingTime` states that this happens as soon as less than one second is left.
- The completion sound is chosen after the switch (line 88), so it is the
  sound of the new mode. Sound is not part of the model.

## Model

| member | source | states |
|---|---|---|
| `JsMath.TruncDiv` | pomopal/src/components/timer.js:43 | `parseInt(a / b)` truncates toward zero. The left-over `a - q*b` has the dividend's sign and is smaller than `b`. On a non-negative dividend it equals Euclidean division. |
| `JsMath.TruncRem` | pomopal/src/components/timer.js:44-45 | JavaScript's `%`: the remainder takes the sign of the dividend. Its magnitude is the Euclidean remainder of the absolute value of `a`, and it lies strictly between `-b` and `b`. |
| `Countdown.Split` | pomopal/src/components/timer.js:44-45 | For `0 <= total < 3600`, both minutes and seconds lie in `[0, 60)` and `minutes*60 + seconds == total`. A negative total gives non-positive minutes and seconds. |
| `Countdown.SplitDropsHours` | pomopal/src/components/timer.js:44 | For any non-negative total, the `% 60` on minutes drops whole hours: `total == hours*3600 + minutes*60 + seconds`. |
| `Countdown.SplitOfNonNegative` | pomopal/src/components/timer.js:43-45 | On a non-negative total the truncating split equals the Euclidean `((total/60)%60, total%60)`. |
| `Countdown.RemainingTime` | pomopal/src/components/timer.js:39-52 | For a clock at or before the end time, the total is the whole seconds left, `(endTime - now) / 1000`. A tick sees `total <= 0` if and only if `now > endTime - 1000`, that is, when less than a second remains. A non-negative total reads as its own minutes/seconds split. |
| `Countdown.WholeSecondCountdown` | pomopal/src/components/timer.js:40-57 | With a whole-second clock, a countdown of `T` seconds read `k` seconds after its start shows exactly `T - k`. |
| `Countdown.RemainingNonIncreasing` | pomopal/src/components/timer.js:39-43 | A later clock reading never gives a larger remaining total. |
| `Countdown.CountdownBounded` | pomopal/src/components/timer.js:56-72 | After a start with total `T`, a tick at or after the start shows at most `T`. Until the last second begins it shows at least 1, so the countdown does not end early. |
| `Countdown.FullClock` | pomopal/src/components/timer.js:123-127 | `switchMode` resets the total to `timer[mode] * 60` seconds, with the mode's minutes and zero seconds shown. For a duration under an hour this record reads as its own minutes/seconds split, so a reset keeps the clock consistent with `getRemainingTime`. |
| `Countdown.FullClockIsSplit` | pomopal/src/components/timer.js:120-127 | The reset record `{d*60, d, 0}` equals what `getRemainingTime` would show for `d*60` seconds if and only if `d < 60`. |
| `Countdown.NextMode` | pomopal/src/components/timer.js:76-86 | After a run-out countdown, the next mode is work if and only if the current mode is a break. It is a long break if and only if the current mode is work and `sessions % longBreakInterval === 0`. |
| `Countdown.Started` | pomopal/src/components/timer.js:60 | A start keeps the mode. It adds exactly one session if and only if the mode is work, and otherwise leaves the count unchanged. |
| `Countdown.Complete` | pomopal/src/components/timer.js:72-90 | A run-out countdown followed by the automatic restart: work and breaks alternate, a session is counted if and only if the new mode is work, and the new mode is a long break if and only if the old mode was work and `sessions % longBreakInterval === 0`. |
| `Countdown.UninterruptedRun` | pomopal/src/components/timer.js:72-90 | With no manual intervention, work and breaks alternate. After `2k` run-outs the timer is back in work with `k` more sessions. The `(2k+1)`-th run-out leads to a long break exactly when the session count is a multiple of the interval. |
| `Countdown.DefaultRotation` | pomopal/src/components/timer.js:9-15 | With the default settings, the first three breaks are short and the fourth is long. The fifth work session then starts. |
| `PomodoroTimer.Timer.constructor` | pomopal/src/components/timer.js:160-162 | After load: the default settings, work mode, 0 sessions, `{1500, 25, 0}` remaining, stopped, and the invariant holds. |
| `PomodoroTimer.Timer.SwitchMode` | pomopal/src/components/timer.js:120-127 | The mode is set and the remaining time is reset to the mode's full duration. Sessions, the running state and the end time are unchanged. The invariant holds when the durations fit in an hour. |
| `PomodoroTimer.Timer.Start` | pomopal/src/components/timer.js:54-65 | The timer is running. The end time is `now + total*1000`. Sessions go up by one exactly in work mode. Mode and remaining time are unchanged. |
| `PomodoroTimer.Timer.Stop` | pomopal/src/components/timer.js:95-102 | The timer is not running, and mode, sessions, remaining time and end time are untouched. Stopping a stopped timer changes nothing, so stopping twice equals stopping once. |
| `PomodoroTimer.Timer.Tick` | pomopal/src/components/timer.js:67-92 | Before the last second: only the remaining time changes, to `getRemainingTime(endTime)`, and it stays positive. Otherwise the phase advances by the next-mode rule plus a restart, the countdown resets to the new mode's full length, it runs again, and the new end time is `now + duration`. |
| `PomodoroTimer.Timer.HandleMode` | pomopal/src/components/timer.js:141-148 | With no mode, nothing changes. With a mode, that mode is set at full duration and the timer is stopped, with sessions unchanged. |
| `PomodoroTimer.DefaultDay` | pomopal/src/components/timer.js:54-92 | From load: one second into the first session the clock shows 24:59. Run to completion, the first session leads to a running short break of 300 s with 1 session. The fourth leads to a running long break of 900 s with 4 sessions. |
| `PomodoroTimer.PauseResumeThenSwitch` | pomopal/src/components/timer.js:54-60 | A pause one minute into a session freezes 24:00. Resuming counts a second session. A click without a mode does nothing. A switch to a short break then stops the timer at 300 s and keeps 2 sessions. |

## Left out

- The display: button text, dataset and classes; mode-button highlighting; background colour; the zero-padded clock text and `document.title`. These are presentation only.
- Audio: the button chime and the per-mode completion sound. The automatic restart at line 90 runs only when the `[data-sound="<mode>"]` lookup at line 88 finds an element; the model assumes the page has the sound element of each of the three modes.
- The flash-cards link (`window.open`) and all event-listener wiring, including `DOMContentLoaded`. The constructor stands for the load-time `switchMode('pomodoro')`.
- Scheduling by `setInterval` and `clearInterval`. The model takes one `Tick` call as one firing. The source's invariant that only one interval is active is the `running` flag plus the `!running` requirement on `Start`.
- The real clock. `Tick` uses one reading `now` both to compute the remaining time and to restart. The source reads the clock twice in that tick, and the second read could fall in the next second.
- `data-mode` values other than the three modes. A click without a mode is `None`. An unknown mode string would make `timer[mode]` undefined and is not modelled.
- JavaScript number limits. `parseInt` of a quotient of magnitude at least 10^21 reads only the leading digit of its exponent notation, and integers above 2^53 lose precision. The model uses unbounded integers. Realistic clocks stay far below both limits.
- The button's initial `data-action` comes from the page markup, which is not part of this model. The model assumes it starts as `start`, that is, not running.
- PomodoroTimer.Timer.Tick: the contract does not say that the remaining time is at most the mode's full duration. That holds only if the clock does not move backwards, which the source does not ensure. `CountdownBounded` states it for a clock that does not go back.
