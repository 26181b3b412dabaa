# Power Nap timer — Dafny model

Power Nap is a desktop countdown that shuts the computer down when the time runs
out. This project models its timer logic apart from the window:

- **TimeFields** (`time_fields.dfy`): splitting the remaining seconds into the
  hours, minutes and seconds fields, the up/down arrow buttons of one field
  (hours stop at 23 and 0, minutes and seconds wrap modulo 60), and recombining
  the fields into a total clamped to five hours (18000 s) with a warning.
- **NapTimer** (`nap_timer.dfy`): the state `(running, paused, remaining)` as an
  immutable record, and pure transitions for the Start, Pause and "+ 10 min"
  buttons, the arrow edits, one pass of the countdown loop (`Tick`), and the
  enablement of the Start and Pause buttons. Dialogs and the shutdown command are
  a `Signal` attached to each transition.
- **Session** (`session.dfy`): sequences of presses and loop passes, the state
  invariant over all of them, the bound "at most one shutdown per Start", exact
  countdown lengths, pause/resume without loss, and the countdown loop written as
  a method.
- **SleepWindow** (`sleep_window.dfy`): one loop pass split, as written, into the
  guard check and the decrement that follows the one-second sleep, and what a
  press inside that sleep leads to.

Modelling choices:

- The displayed fields are not stored. Every change of `remaining_seconds` in the
  source is followed by `update_time_fields` (main.py lines 61, 262, 297, 309). So
  when every read of a field succeeds, the fields equal `SecondsToHms(remaining)`,
  and an edit reads them that way. The case where a read fails is under
  "## Left out".
- The loop of `run_timer` becomes a step function. While the guard
  `running and remaining > 0` holds, a paused timer is unchanged and an unpaused
  one loses a second. A pass on a running timer whose guard fails issues the
  shutdown and resets both flags; `remaining` is kept. A timer that is not
  running has no loop thread, so a pass leaves it unchanged. The decrement to 0
  and the shutdown are separate passes, as button presses can interleave there.
- Manual edits clamp to 18000 s, but "+ 10 min" does not clamp. This asymmetry
  is modelled as written (`Add10PassesCap`).
- `start_timer` tests `remaining == 0` exactly, as the source does.
- The loop guard at main.py:303 does not read the pause flag, so a paused timer
  whose time is edited down to 0 shuts down at the next loop check
  (`PausedEditToZeroShutsDown`).
- Python's `//` and `%` by a positive constant agree with Dafny's Euclidean
  operators, so `(m - 1) % 60` carries over as written.

## Model

| member | source | states |
|---|---|---|
| TimeFields.SecondsToHms | main.py:264-269 | the hours, minutes and seconds recombine to the total; minutes and seconds lie in [0, 60); hours are non-negative for a non-negative total |
| TimeFields.HmsRoundTrip | main.py:264-269 | in-range fields are exactly the split of their own total, so the split is a bijection onto normal fields |
| TimeFields.Increment | main.py:216-229 | only the named field changes; hours go up by one below 23 and become exactly 23 from 23 or above; minutes and seconds go up by one and 59 wraps to 0; in-range fields stay in range |
| TimeFields.Decrement | main.py:232-245 | only the named field changes; hours go down by one above 0 and become exactly 0 from 0 or below; minutes and seconds go down by one and 0 wraps to 59; in-range fields stay in range |
| TimeFields.DecrementUndoesIncrement | main.py:221-245 | the down arrow undoes the up arrow on any in-range field, except hours at 23 or above |
| TimeFields.IncrementUndoesDecrement | main.py:221-245 | the up arrow undoes the down arrow on any in-range field, except hours at 0 or above 23 |
| TimeFields.PressesShift | main.py:223-226 | n up presses on minutes or seconds add n modulo 60 to that field and leave the others alone |
| TimeFields.SixtyPressesWrap | main.py:223-226 | sixty up presses on minutes or seconds return to the starting fields |
| TimeFields.Sync | main.py:248-261 | the new total never exceeds 18000 s; the warning is shown exactly when the fields exceed 18000 s; the total equals the fields' sum when within the cap and exactly 18000 otherwise |
| TimeFields.CapDisplaysFiveHours | main.py:254-260 | the clamped total is displayed as 05:00:00, the fields the source writes on clamping |
| TimeFields.EditSeconds | main.py:216-262 | a press followed by the recombination yields a total in [0, 18000] for a non-negative start; it equals the pressed fields' sum when that is at most 18000, else 18000 with the warning |
| NapTimer.InitialValid | main.py:34-37 | the launch state is idle, valid, and shows 02:00:00 |
| NapTimer.Start | main.py:271-285 | a zero time is refused with the information dialog and nothing changes; an idle timer starts running unpaused; a paused timer resumes; a running unpaused timer is unchanged; the time is never changed; validity is kept |
| NapTimer.Pause | main.py:287-292 | the state changes exactly when the timer is running and not paused, and then it becomes paused; time and running flag are kept; validity is kept |
| NapTimer.Add10 | main.py:294-299 | the time grows by exactly 600 s with no cap; both flags are unchanged; validity is kept |
| NapTimer.Edit | main.py:216-262 | an arrow press leaves both flags unchanged and sets the time to the pressed fields' sum if at most 18000, else to 18000 with the warning; the time stays in [0, 18000] |
| NapTimer.EditShowsPressedFields | main.py:248-262 | after an edit, refreshing the fields from the new total shows the pressed fields, or 05:00:00 when the warning fired |
| NapTimer.Tick | main.py:301-316 | the shutdown fires exactly when the timer is running with no time left, and then both flags reset; a paused timer with time left is unchanged; a running unpaused timer with time left loses exactly one second; a timer that is not running is unchanged; validity is kept |
| NapTimer.UpdateButtons | main.py:318-328 | exactly one of Start and Pause is enabled; Pause is enabled exactly when the timer is running and not paused |
| NapTimer.ButtonsMatchEffects | main.py:271-328 | Pause is enabled exactly when pressing it changes the state; with time left, Start is enabled exactly when pressing it changes the state |
| NapTimer.PauseThenResume | main.py:282-290 | pausing then pressing Start gives back the same running timer |
| NapTimer.Add10PassesCap | main.py:294-297 | "+ 10 min" from 4:55:00 gives 5:05:00, above the cap manual edits keep |
| NapTimer.PausedEditToZeroShutsDown | main.py:303-312 | a paused timer edited from one second down to zero fires the shutdown at the next loop check |
| Session.Apply | main.py:271-316 | every action keeps validity; only a loop pass on a running timer fires the shutdown, and it stops the timer; only Start makes an idle timer run |
| Session.ReplayKeepsValid | main.py:271-316 | after any sequence of presses and loop passes the time is non-negative and a paused timer is running |
| Session.ShutdownOncePerStart | main.py:276-281 | shutdowns fired plus one if still running never exceed Start presses plus one if running at the outset |
| Session.FromLaunchShutdownsBounded | main.py:301-316 | from launch, the shutdown fires at most once per Start press |
| Session.CountdownReachesZero | main.py:303-309 | k uninterrupted passes from n (k at most n) leave the timer running unpaused with n - k seconds and fire nothing |
| Session.IdlePassesInert | main.py:301-303 | loop passes over a timer that is not running change nothing and fire nothing |
| Session.CountdownFiresOnce | main.py:301-316 | an uninterrupted countdown from n takes n decrementing passes, then one pass fires the shutdown and leaves the timer idle at 0; further passes fire nothing, so it fires exactly once |
| Session.PausedPassesFrozen | main.py:303-306 | loop passes over a paused timer with time left change nothing and fire nothing |
| Session.PauseResumeKeepsTime | main.py:282-308 | Pause, any number of loop passes, then Start restores the timer exactly: no second lost or added |
| Session.RunTimer | main.py:301-316 | the loop run without interference from a running unpaused timer makes exactly `remaining` decrementing passes, then fires the shutdown and ends idle at 0, agreeing with replaying the passes |
| SleepWindow.GoesToSleep | main.py:303-307 | the guard holds and the timer is not paused, so the thread sleeps before decrementing; these are exactly the states from which an atomic pass takes time |
| SleepWindow.Wake | main.py:307-308 | the decrement after the sleep; with no press during the sleep, check then decrement is exactly one atomic pass |
| SleepWindow.EditDuringSleepReachesZero | main.py:232-262 | with one second left the thread goes to sleep, and a down press on the seconds during that sleep sets the time to zero |
| SleepWindow.WakeAtZeroGoesNegative | main.py:303-316 | for a running timer set to zero during the sleep, the decrement leaves -1 seconds, and the next check fires the shutdown and goes idle with -1 kept |
| SleepWindow.MinusOneShown | main.py:264-269 | -1 seconds is displayed as -1:59:59 |
| SleepWindow.NegativeTimeRestartsAndShutsDown | main.py:271-281 | Start accepts an idle timer with negative time, since it refuses exactly zero, and the next pass fires the shutdown again |
| SleepWindow.PauseDuringSleepLosesSecond | main.py:303-308 | a Pause during the sleep still loses that second, and in the last second the shutdown still fires |

## Left out

- Window, menu, toolbar, status bar, help window, icon and image loading with their fallbacks (main.py:12-206): presentation only.
- Status-bar texts and dialog wording: dialogs are the `Signal` values `ZeroRejected` and `CapWarning`; status strings are not modelled.
- Two-digit formatting (main.py:208-214, 227-229, 243-245) and parsing (main.py:218-220, 234-236, 250-252) of the fields: the model works on the integers. The fields are `tk.IntVar`s holding the formatted text (main.py:146-150), and `IntVar.get` parses that text through Tcl, not through Python's `int`.
- TimeFields.Increment, TimeFields.Decrement, TimeFields.Sync, NapTimer.Edit: the model assumes every read of a field succeeds. Under Tcl 8.x a leading zero means octal, so a field shown as 08 or 09 cannot be read, and an arrow press then raises at its first read before the time changes. For example, minutes ▲ from 00:07:00 writes "08" (main.py:228), then the read in the sync (main.py:251) raises. `remaining_seconds` stays 420 while the field shows 08, and later presses fail the same way until the display is refreshed from `remaining_seconds`. The model instead gives 480.
- The background thread, `time.sleep` and the unsynchronised sharing of state between the window and the thread: replaced by the discrete `Tick` step, with presses and passes interleaved one at a time.
- `shutdown_computer` and its `os.system` call (main.py:330-335): a foreign call, modelled only as the `ShutdownFired` signal.
- `on_quit` and window destruction (main.py:337-342): they end the program and do not touch the timer state.
- Session.RunTimer: requires an unpaused timer, because an uninterrupted loop over a paused timer never ends; pauses inside a run are covered by `Session.PausedPassesFrozen` and `Session.PauseResumeKeepsTime` instead.
- Session.ReplayKeepsValid, Session.PauseResumeKeepsTime: hold only for atomic loop passes. In the code a pass checks the guard, sleeps one second, then decrements without checking again (main.py:303-308), and nearly every press lands in that sleep. There, an edit to 0 leads to -1 seconds, and an idle timer with negative time is restarted by Start and shuts down at once. A Pause also still loses the second it interrupts. `SleepWindow` proves these cases; the trace model does not include them.
