# drinkingbird ActivityMonitor in Dafny

A model of the `ActivityMonitor` class of drinkingbird.py, the keep-alive monitor
that watches pointer, button, scroll and key input. When no input has been recorded
for longer than an idle threshold, it nudges the pointer one pixel and back, at most
once every 30 seconds.

The model has three parts.

- **Activity tracker.** The input callbacks turn one notification into an update of
  `last_activity`, `last_mouse_pos` and the single-use flag `ignore_next_mouse_move`.
  A pointer move counts only when it is at least 3 pixels from the reference point
  `last_mouse_pos`. The reference point moves only when a move is recorded or
  suppressed, so small moves accumulate ("drift").
- **Idle policy.** `get_idle_time`, `is_idle` and `should_auto_move` are side-effect-free
  decisions over the fields and the current time.
- **Movement actuator.** `move_mouse_slightly` arms the flag, moves the pointer to
  `p + (1, 1)`, arms the flag again, moves it back to `p` and records
  `last_auto_move`.

Files:

- `ActivitySpec.dfy`: module `ActivitySpec`. It holds the monitor's fields as a
  `Monitor` datatype and every handler, decision and actuator step as a function.
  It also has `Replay` (deliver a trace of notifications) and `Ticks` (the status loop
  with no user input, where each synthetic move's two pointer writes are delivered back
  to `on_mouse_move` right after they are made).
- `ActivityProperties.dfy`: module `ActivityProperties`, the lemmas about those functions.
- `DrinkingBird.dfy`: module `DrinkingBird`, the class `ActivityMonitor` with the
  source's fields. Its methods update those fields in place under `modifies`. Each
  callback, `MoveMouseSlightly` and `StatusTick` is proved to leave `Snapshot()`
  equal to the matching `ActivitySpec` function of the old snapshot, so the lemmas
  about that function apply to the object. `DisplayStatus` has no such function:
  it is proved against `Ticks` for the moves and the policy fields, and states the
  flag and the reference point directly. The platform's mouse controller is a `PointerController` object with an
  assignable `position`.

Modelling choices:

- The wall clock `datetime.now()` is an explicit `now` argument, in integer
  microseconds. That is the resolution of Python's `timedelta`, so every timedelta
  comparison in the source is exact. The default threshold of 3 minutes is
  `3 * Minute`, and the cooldown is `AutoMoveCooldown` (30 seconds).
- The source tests `sqrt(dx² + dy²) >= 3`. The model tests `dx*dx + dy*dy >= 3*3` on
  integer coordinates. `EuclideanTest` proves that the model's filter decides as the square-root test does.
- The threshold is a constructor argument and is not validated. Zero and negative
  values are allowed, as in the source.
- The listeners call the handlers from background threads. The model takes those
  calls as a sequential interleaving. `SyntheticMoveDelivered` is the actuator with
  each pointer write delivered as one `on_mouse_move` right after the write. The
  class method `MoveMouseSlightly` runs with no callback in between. The lemmas
  cover three cases: prompt delivery, delivery after the call returns, and no
  delivery at all. `SyntheticMoveThenNotifications` runs the second case on the
  object itself.
- `Tick` is not the object's `StatusTick`: `StatusTick` leaves the flag armed and the
  reference point alone, while `Tick` also delivers both pointer writes, which clear
  the flag and set the reference point to the pointer. `TickMatchesStatusTick` proves
  that the two run the actuator at the same times and agree on everything the idle
  policy reads. `DisplayStatus`, the object's status loop, is proved to make the same
  moves as `Ticks`, so `ThreeMinuteScenario` holds for the object too
  (`IdleMonitorMovesOnce`).

drinkingbird.py has no working-hours window and no command-line options. The movement
threshold (3) and the cooldown (30 s) are constants. The idle threshold is not
checked to be positive. `last_activity` comes from the wall clock, so it only moves
forward when the clock does. `ActivityOnlyAdvances` states this under an explicit
chronological-order assumption.

## Model

| member | source | states |
|---|---|---|
| `ActivitySpec.Initial` | drinkingbird.py:19-28 | a new monitor is active now, its reference point is the pointer's position, the flag is clear and no synthetic move has happened |
| `ActivitySpec.SquaredDistance` | drinkingbird.py:39-40 | the squared distance is a natural number and is zero exactly when the two points coincide |
| `ActivitySpec.IsIntentionalMove` | drinkingbird.py:39-43 | a move that counts goes somewhere else; on integer coordinates a move counts exactly when it covers 3 pixels or more along at least one axis, so one within 2 pixels on both axes never counts |
| `ActivitySpec.UpdateActivity` | drinkingbird.py:60-62 | the last activity becomes now and no other field changes |
| `ActivitySpec.OnMouseMove` | drinkingbird.py:30-45 | a move never changes the threshold or the synthetic-move record, always leaves the flag clear, and leaves the last activity either unchanged or equal to now |
| `ActivitySpec.OnMouseClick` | drinkingbird.py:47-50 | a click changes nothing except possibly the last activity |
| `ActivitySpec.OnMouseScroll` | drinkingbird.py:52-54 | a scroll changes nothing except the last activity |
| `ActivitySpec.OnKeyPress` | drinkingbird.py:56-58 | a key press changes nothing except the last activity |
| `ActivitySpec.IdleTime` | drinkingbird.py:64-66 | the idle time added to the last activity gives now, and it is non-negative exactly when the last activity is not in the future |
| `ActivitySpec.IsIdle` | drinkingbird.py:68-70 | the monitor is idle exactly when now is strictly past the last activity plus the threshold; with a non-negative threshold, only after the last activity |
| `ActivitySpec.ShouldAutoMove` | drinkingbird.py:72-82 | a move is due only when idle and when no synthetic move happened or 30 s have passed since it; when idle with no earlier synthetic move, one is due |
| `ActivitySpec.SyntheticPositions` | drinkingbird.py:91-99 | the actuator writes two positions, the last one is the original position, and each step is below the movement threshold in both directions |
| `ActivitySpec.MoveMouseSlightly` | drinkingbird.py:84-102 | the actuator leaves the flag armed, records the synthetic move at now, and touches neither the last activity nor the reference point |
| `ActivitySpec.SyntheticMoveDelivered` | drinkingbird.py:84-102 | when each pointer write is delivered to `on_mouse_move` right after it is made: the last activity and the threshold are kept, the flag ends clear and the move is recorded at now |
| `ActivitySpec.Handle` | drinkingbird.py:136-145 | whichever callback a notification reaches, the threshold and the synthetic-move record are unchanged and the last activity is either kept or set to now |
| `ActivitySpec.Replay` | drinkingbird.py:136-145 | delivering a trace of notifications keeps the threshold and the synthetic-move record, and leaves the last activity either unchanged or equal to the time of one of the notifications |
| `ActivitySpec.Tick` | drinkingbird.py:119-122 | a tick moves the pointer at now exactly when a move is due and otherwise not at all, and never changes the last activity or the threshold |
| `ActivitySpec.Ticks` | drinkingbird.py:108-124 | a series of ticks keeps the last activity and the threshold, makes no more moves than there are ticks, and moves only at tick times |
| `ActivityProperties.EuclideanTest` | drinkingbird.py:40-43 | for the non-negative square root r of the squared distance between two points, the model's filter counts the move exactly when r >= 3 |
| `ActivityProperties.SuppressedMoveIsConsumed` | drinkingbird.py:33-36 | with the flag set, a move clears the flag, sets the reference point to the move's position and records no activity |
| `ActivityProperties.IntentionalMoveRecordsActivity` | drinkingbird.py:39-45 | with the flag clear, a move at least 3 pixels from the reference point sets the last activity to now and the reference point to the new position |
| `ActivityProperties.SmallMoveChangesNothing` | drinkingbird.py:39-45 | with the flag clear, a move below the threshold leaves the whole state, including the stale reference point, unchanged |
| `ActivityProperties.ThresholdExamples` | drinkingbird.py:26 | a 3-pixel axis move and a (2, 3) move count; a (2, 2) diagonal move, about 2.83 pixels, does not |
| `ActivityProperties.ClickRecordsOnlyPress` | drinkingbird.py:47-50 | a press sets the last activity to now; a release changes nothing |
| `ActivityProperties.ScrollAndKeyRecordActivity` | drinkingbird.py:52-58 | a scroll and a key press each set the last activity to now and change nothing else |
| `ActivityProperties.OnlyMoveConsumesFlag` | drinkingbird.py:30-58 | after any notification the flag is set exactly when it was set before and the notification was not a pointer move |
| `ActivityProperties.RecordedActivityResetsIdleTime` | drinkingbird.py:60-66 | after a recorded activity the idle time is zero, and with a non-negative threshold the monitor is not idle |
| `ActivityProperties.SmallMovesKeepReference` | drinkingbird.py:39-45 | any trace of sub-threshold moves, measured from the reference point, leaves the monitor exactly as it was |
| `ActivityProperties.DriftAccumulates` | drinkingbird.py:39-45 | after sub-threshold moves, the first move at least 3 pixels from the stale reference point records activity at its time and becomes the new reference point |
| `ActivityProperties.ReplayAppend` | drinkingbird.py:136-149 | delivering two traces in turn is the same as delivering their concatenation |
| `ActivityProperties.DriftExample` | drinkingbird.py:39-45 | from a reference point at the origin, one-pixel steps to (1, 0), (2, 0) and (3, 0) record activity only on the third step, at its time, although no step is 3 pixels from the one before |
| `ActivityProperties.ActivityOnlyAdvances` | drinkingbird.py:30-62 | with a clock that does not run backwards, the last activity never decreases and never exceeds the last notification's time; the threshold and the synthetic-move record stay unchanged |
| `ActivityProperties.IdleIsStrict` | drinkingbird.py:68-70 | idle time equal to the threshold is not idle; one microsecond more is idle |
| `ActivityProperties.IdleStaysIdle` | drinkingbird.py:64-70 | with no recorded activity, idle at some time means idle at every later time, and the idle time does not decrease |
| `ActivityProperties.ShouldAutoMoveCases` | drinkingbird.py:72-82 | no move is due when not idle; a move is due when idle with no earlier move; otherwise a move is due exactly when 30 seconds have passed since the last one |
| `ActivityProperties.CooldownGatesMoves` | drinkingbird.py:78-82 | no move is due while less than 30 s have passed since a synthetic move at t, idle or not |
| `ActivityProperties.NegativeThresholdIsIdleAtOnce` | drinkingbird.py:19-21 | the constructor accepts a negative threshold, and such a monitor is idle and due for a move at once |
| `ActivityProperties.SyntheticMoveLeavesActivityUnchanged` | drinkingbird.py:84-102 | when each pointer write is delivered right after it is made: the last activity is unchanged, the flag ends clear, the reference point is the pointer and the move is recorded |
| `ActivityProperties.LateNotificationsRecordNothing` | drinkingbird.py:84-102 | when both notifications arrive after the actuator returns, nothing is recorded; the flag ends clear and the reference point is left at the nudged position |
| `ActivityProperties.DroppedNotificationSwallowsRealMove` | drinkingbird.py:33-36 | a real move that would count is swallowed if no notification consumed the actuator's flag |
| `ActivityProperties.AutoMoveRepeatsAfterCooldown` | drinkingbird.py:72-102 | after a synthetic move at t while idle, with no other input, a move is due at a later time exactly when 30 seconds have passed |
| `ActivityProperties.QuietTicks` | drinkingbird.py:119-124 | ticks at which no move is due change nothing and move nothing |
| `ActivityProperties.TicksAppend` | drinkingbird.py:108-124 | running two series of ticks in turn is the same as running their concatenation |
| `ActivityProperties.TicksMovesAscending` | drinkingbird.py:108-124 | at most one move per tick: when the tick times strictly increase, so do the move times |
| `ActivityProperties.TicksSnoc` | drinkingbird.py:108-124 | ticking through one more time extends the run by exactly that tick's state and moves |
| `ActivityProperties.PolicyReadsOnlyTimes` | drinkingbird.py:64-82 | two states with the same threshold, last activity and last synthetic move have the same idle time, idleness and move decision |
| `ActivityProperties.TickMatchesStatusTick` | drinkingbird.py:84-122 | a tick with delivered writes moves at the same times as the object's status tick and leaves the same threshold, last activity and synthetic-move record; it differs only in clearing the flag and setting the reference point to the pointer |
| `ActivityProperties.StatusTickFollowsTick` | drinkingbird.py:119-122 | a status tick on a state with the same policy fields as a `Tick`'s start decides the same, moves at the same time and again ends with the same policy fields |
| `ActivityProperties.ThreeMinuteScenario` | drinkingbird.py:106-124 | with a 3-minute threshold and no input, ticking once a second for 210 s moves the pointer once, at 181 s |
| `DrinkingBird.PointerController.constructor` | drinkingbird.py:23-25 | a new controller reports the position it was created with |
| `DrinkingBird.ActivityMonitor.constructor` | drinkingbird.py:19-28 | the new object's snapshot is `Initial` with the given threshold, the current time and the controller's position |
| `DrinkingBird.ActivityMonitor.OnMouseMove` | drinkingbird.py:30-45 | the fields are updated in place exactly as `ActivitySpec.OnMouseMove` says |
| `DrinkingBird.ActivityMonitor.OnMouseClick` | drinkingbird.py:47-50 | only a press sets the last activity to now, in place |
| `DrinkingBird.ActivityMonitor.OnMouseScroll` | drinkingbird.py:52-54 | the last activity is set to now in place; nothing else changes |
| `DrinkingBird.ActivityMonitor.OnKeyPress` | drinkingbird.py:56-58 | the last activity is set to now in place; nothing else changes |
| `DrinkingBird.ActivityMonitor.UpdateActivity` | drinkingbird.py:60-62 | the last activity is set to now in place; nothing else changes |
| `DrinkingBird.ActivityMonitor.GetIdleTime` | drinkingbird.py:64-66 | the idle time added to the object's last activity gives now |
| `DrinkingBird.ActivityMonitor.IsIdle` | drinkingbird.py:68-70 | the object is idle exactly when its idle time is strictly greater than its threshold |
| `DrinkingBird.ActivityMonitor.ShouldAutoMove` | drinkingbird.py:72-82 | a move is due exactly when the object is idle and either it has made no synthetic move or 30 s have passed since the last one |
| `DrinkingBird.ActivityMonitor.MoveMouseSlightly` | drinkingbird.py:84-102 | the controller receives the nudged position and then the original position and ends where it started; the flag is armed, the move is recorded, and the last activity is unchanged |
| `DrinkingBird.ActivityMonitor.StatusTick` | drinkingbird.py:119-122 | the actuator runs exactly when a move is due, and otherwise nothing changes |
| `DrinkingBird.ActivityMonitor.DisplayStatus` | drinkingbird.py:108-124 | running the status loop on the object over a series of tick times moves the pointer at exactly the times `Ticks` moves it, leaves the same threshold, last activity and synthetic-move record, leaves the reference point unchanged and the flag armed exactly when it was armed before or a move happened, and leaves the pointer where it was |
| `DrinkingBird.IdleMonitorMovesOnce` | drinkingbird.py:106-124 | on the object: a monitor with the default 3-minute threshold, left alone and ticked once a second for 210 s, runs the actuator once, at 181 s |
| `DrinkingBird.SyntheticMoveThenNotifications` | drinkingbird.py:84-102 | on the object: after the actuator, the two notifications for its writes, delivered to `OnMouseMove`, record no activity; the flag ends clear, the move is recorded and the pointer ends where it started |

## Left out

- The pynput listeners and the `mouse.Controller` are foreign library code. Notifications are method calls, and the controller is a `PointerController` object passed to the constructor instead of being created inside it.
- The listener threads and their unlocked access to shared fields are left out. The model delivers notifications in one sequential order and does not model torn reads or races.
- `time.sleep` and `datetime.now()` are replaced by the `now` argument. The 0.1 s pause inside the actuator is not modelled: both synthetic notifications and the recorded move time use the same `now`. `should_auto_move` reads the clock twice, once through `is_idle` (drinkingbird.py:66) and once for the cooldown (drinkingbird.py:81); the model uses one `now` for both, so it does not capture the clock advancing between the two reads.
- The `display_status` loop, the `running` flag, `KeyboardInterrupt` handling, `start_monitoring` and all printing and `strftime` formatting are left out; they are I/O and lifecycle glue. One loop iteration is `StatusTick`, and a finite series of iterations at given times is `DisplayStatus`; the loop's end on `running` becoming false or on an interrupt is not modelled.
- ActivityProperties.ThreeMinuteScenario: assumes ticks exactly one second apart. The real loop drifts by the time each iteration takes.
- DrinkingBird.IdleMonitorMovesOnce: assumes ticks exactly one second apart, as `ThreeMinuteScenario` does.
- `main` is left out: the `os.geteuid` permission note, the `ImportError` handling and the exit codes are process plumbing.
- The floating-point `** 0.5` and the fractional-minute threshold are left out. The threshold is given directly in integer microseconds, and the distance test uses integer squares.
- The `button` argument of `on_mouse_click` and the `key` argument of `on_key_press` are pynput objects that the handlers ignore. They are not parameters of the model.
