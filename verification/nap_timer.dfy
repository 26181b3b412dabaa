/**
 The Power Nap timer as an immutable record and pure transitions: the Start,
 Pause and "+ 10 min" buttons, the arrow-button edits, one pass of the
 countdown loop, and the enablement of the Start and Pause buttons.

 The hours/minutes/seconds fields on screen are not part of the record: every
 change of the remaining time is followed by a refresh of those fields from it,
 so, whenever every read of a field succeeds (see README, ## Left out), they
 equal `SecondsToHms(remaining)` and are derived here on demand.
 */
module NapTimer {
  import opened TimeFields

  /** Timer state: is a countdown in progress, is it paused, and how many seconds remain. */
  datatype Timer = Timer(running: bool, paused: bool, remaining: int) {

    /** What every transition keeps: time is never negative, and only a running timer is paused. */
    predicate Valid() {
      remaining >= 0 && (paused ==> running)
    }

    /** Neither running nor paused. */
    predicate Idle() {
      !running && !paused
    }
  }

  /** What a transition shows or does besides changing the state. */
  datatype Signal =
    | Quiet           // no dialog, no shutdown
    | ZeroRejected    // "Set a time greater than 0." information dialog
    | CapWarning      // "Maximum allowed time is 5 hours." warning dialog
    | ShutdownFired   // the operating-system shutdown command was issued

  datatype Outcome = Outcome(timer: Timer, signal: Signal)

  /** State at launch: idle, two hours on the clock. */
  const Initial: Timer := Timer(false, false, 2 * 3600)

  lemma InitialValid()
    ensures Initial.Valid() && Initial.Idle()
    ensures SecondsToHms(Initial.remaining) == Fields(2, 0, 0)
  {
  }

  /** The Start button: refuses a zero time, starts an idle timer, resumes a paused one. */
  function Start(t: Timer): (r: Outcome)
    ensures r.timer.remaining == t.remaining
    ensures r.signal == ZeroRejected <==> t.remaining == 0
    ensures r.signal != ZeroRejected ==> r.signal == Quiet
    ensures t.remaining == 0 ==> r.timer == t
    ensures t.remaining != 0 && !t.running ==> r.timer.running && !r.timer.paused
    ensures t.remaining != 0 && t.paused ==> r.timer.running && !r.timer.paused
    ensures t.running && !t.paused ==> r.timer == t
    ensures t.Valid() ==> r.timer.Valid()
  {
    if t.remaining == 0 then Outcome(t, ZeroRejected)
    else if !t.running then Outcome(t.(running := true, paused := false), Quiet)
    else if t.paused then Outcome(t.(paused := false), Quiet)
    else Outcome(t, Quiet)
  }

  /** The Pause button: pauses a running, unpaused timer and does nothing otherwise. */
  function Pause(t: Timer): (r: Outcome)
    ensures r.signal == Quiet
    ensures r.timer.remaining == t.remaining && r.timer.running == t.running
    ensures r.timer != t <==> t.running && !t.paused
    ensures t.running ==> r.timer.paused
    ensures t.Valid() ==> r.timer.Valid()
  {
    if t.running && !t.paused then Outcome(t.(paused := true), Quiet) else Outcome(t, Quiet)
  }

  /** The "+ 10 min" button: adds 600 seconds in any state, without the five-hour cap. */
  function Add10(t: Timer): (r: Outcome)
    ensures r.signal == Quiet
    ensures r.timer.remaining - t.remaining == 600
    ensures r.timer.running == t.running && r.timer.paused == t.paused
    ensures t.Valid() ==> r.timer.Valid()
  {
    Outcome(t.(remaining := t.remaining + 600), Quiet)
  }

  /**
   An arrow button on one field: the fields shown for the remaining time are
   edited and recombined, clamping to five hours with a warning. The running and
   paused flags are untouched, so an edit may also happen during a countdown.
   */
  function Edit(t: Timer, d: Direction, u: Unit): (r: Outcome)
    ensures r.timer.running == t.running && r.timer.paused == t.paused
    ensures r.timer.remaining <= MaxSeconds
    ensures t.remaining >= 0 ==> 0 <= r.timer.remaining
    ensures var p := Press(SecondsToHms(t.remaining), d, u);
            (p.Total() <= MaxSeconds ==> r.timer.remaining == p.Total() && r.signal == Quiet)
            && (p.Total() > MaxSeconds ==> r.timer.remaining == MaxSeconds && r.signal == CapWarning)
    ensures t.Valid() ==> r.timer.Valid()
  {
    var s := EditSeconds(t.remaining, d, u);
    Outcome(t.(remaining := s.total), if s.capped then CapWarning else Quiet)
  }

  /**
   After an edit the fields shown are the fields as pressed, or 05:00:00 when the
   warning fired: refreshing the display from the new total changes nothing else.
   */
  lemma EditShowsPressedFields(t: Timer, d: Direction, u: Unit)
    requires t.remaining >= 0
    ensures var p := Press(SecondsToHms(t.remaining), d, u);
            var shown := SecondsToHms(Edit(t, d, u).timer.remaining);
            (p.Total() <= MaxSeconds ==> shown == p) && (p.Total() > MaxSeconds ==> shown == Fields(5, 0, 0))
  {
    var p := Press(SecondsToHms(t.remaining), d, u);
    if p.Total() <= MaxSeconds {
      HmsRoundTrip(p);
    } else {
      CapDisplaysFiveHours();
    }
  }

  /**
   One pass of the countdown loop. While the loop guard (running, time left)
   holds, a paused timer is left alone and an unpaused one loses one second.
   When the guard fails on a running timer, the shutdown command is issued and
   the timer returns to idle. A timer that is not running has no loop.
   */
  function Tick(t: Timer): (r: Outcome)
    ensures r.signal == ShutdownFired <==> t.running && t.remaining <= 0
    ensures r.signal != ShutdownFired ==> r.signal == Quiet
    ensures r.signal == ShutdownFired ==> r.timer.Idle() && r.timer.remaining == t.remaining
    ensures t.paused && t.remaining > 0 ==> r.timer == t
    ensures t.running && !t.paused && t.remaining > 0 ==>
              r.timer.remaining == t.remaining - 1 && r.timer.running && !r.timer.paused
    ensures !t.running ==> r.timer == t
    ensures t.Valid() ==> r.timer.Valid()
  {
    if !t.running then Outcome(t, Quiet)
    else if t.remaining > 0 then
      if t.paused then Outcome(t, Quiet)
      else Outcome(t.(remaining := t.remaining - 1), Quiet)
    else Outcome(Timer(false, false, t.remaining), ShutdownFired)
  }

  /** Which of the Start and Pause buttons is enabled. */
  datatype Buttons = Buttons(start: bool, pause: bool)

  /** Button enablement for a state: Pause while counting down, Start otherwise. */
  function UpdateButtons(t: Timer): (b: Buttons)
    ensures b.start != b.pause
    ensures b.pause <==> t.running && !t.paused
  {
    if t.running && !t.paused then Buttons(false, true)
    else if t.running && t.paused then Buttons(true, false)
    else Buttons(true, false)
  }

  /**
   The enabled button is the one that does something: Pause is enabled exactly
   when pressing it changes the state, and, with time on the clock, Start is
   enabled exactly when pressing it changes the state.
   */
  lemma ButtonsMatchEffects(t: Timer)
    requires t.Valid()
    ensures UpdateButtons(t).pause <==> Pause(t).timer != t
    ensures t.remaining > 0 ==> (UpdateButtons(t).start <==> Start(t).timer != t)
  {
  }

  /** Pausing and then resuming gives back the running timer exactly: no second is lost or added. */
  lemma PauseThenResume(t: Timer)
    requires t.running && !t.paused && t.remaining > 0
    ensures Start(Pause(t).timer).timer == t
  {
  }

  /** "+ 10 min" from 4:55:00 shows 5:05:00, above the cap that manual edits keep. */
  lemma Add10PassesCap()
    ensures var r := Add10(Timer(false, false, 4 * 3600 + 55 * 60)).timer.remaining;
            r > MaxSeconds && SecondsToHms(r) == Fields(5, 5, 0)
  {
  }

  /**
   The loop guard does not consult the pause flag: a paused timer whose time is
   edited down to zero fires the shutdown at the next pass of the loop.
   */
  lemma PausedEditToZeroShutsDown()
    ensures var e := Edit(Timer(true, true, 1), Down, Seconds);
            e.timer == Timer(true, true, 0) && Tick(e.timer).signal == ShutdownFired
  {
    PausedEditOneSecondDown();
  }

  /**
   The down arrow on the seconds of a paused 00:00:01 sets the time to zero. This
   only splits the proof of `PausedEditToZeroShutsDown`, which states the same
   fact together with the shutdown: checked on its own the edit stays cheap.
   */
  lemma PausedEditOneSecondDown()
    ensures Edit(Timer(true, true, 1), Down, Seconds).timer == Timer(true, true, 0)
  {
  }
}
