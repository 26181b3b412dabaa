/**
 One pass of the countdown loop as written in two halves: the loop guard and
 pause check, then a one-second sleep, then an unconditional decrement. Button
 presses land inside that sleep, between the check and the decrement. `Tick`
 performs both halves at once; this module shows what the gap between them lets
 happen.
 */
module SleepWindow {
  import opened TimeFields
  import opened NapTimer

  /**
   The first half of a pass: the guard holds and the timer is not paused, so the
   thread sleeps and then decrements. These are exactly the states an atomic pass
   takes time from.
   */
  predicate GoesToSleep(t: Timer)
    ensures GoesToSleep(t) <==> Tick(t).timer.remaining < t.remaining
  {
    t.running && t.remaining > 0 && !t.paused
  }

  /**
   The second half of a pass: the decrement, performed whatever happened during
   the sleep. Without a press during the sleep, the two halves are exactly one
   atomic pass.
   */
  function Wake(t: Timer): (r: Timer)
    ensures GoesToSleep(t) ==> Tick(t) == Outcome(r, Quiet)
  {
    t.(remaining := t.remaining - 1)
  }

  /** The thread goes to sleep with one second left, and a down press on the seconds sets the time to zero. */
  lemma EditDuringSleepReachesZero()
    ensures GoesToSleep(Timer(true, false, 1))
    ensures Edit(Timer(true, false, 1), Down, Seconds).timer == Timer(true, false, 0)
  {
    RunningEditOneSecondDown();
  }

  /**
   The down arrow on the seconds of a running 00:00:01 sets the time to zero. This
   only splits the proof of `EditDuringSleepReachesZero`, which states the same
   fact together with the sleep: checked on its own the edit stays cheap.
   */
  lemma RunningEditOneSecondDown()
    ensures Edit(Timer(true, false, 1), Down, Seconds).timer == Timer(true, false, 0)
  {
  }

  /**
   When the time was set to zero during the sleep, the decrement leaves -1
   seconds, and the next check fires the shutdown with the time still -1.
   */
  lemma WakeAtZeroGoesNegative(t: Timer)
    requires t.running && t.remaining == 0
    ensures Wake(t).remaining == -1
    ensures Tick(Wake(t)) == Outcome(Timer(false, false, -1), ShutdownFired)
  {
  }

  /** The display of that time: -1 seconds is shown as -1:59:59. */
  lemma MinusOneShown()
    ensures SecondsToHms(-1) == Fields(-1, 59, 59)
  {
  }

  /**
   Start only refuses a time of exactly zero, so an idle timer left with a
   negative time starts, and its first pass fires the shutdown again.
   */
  lemma NegativeTimeRestartsAndShutsDown(t: Timer)
    requires !t.running && t.remaining < 0
    ensures Start(t).signal == Quiet && Start(t).timer.running
    ensures Tick(Start(t).timer).signal == ShutdownFired
  {
  }

  /**
   A Pause pressed during the sleep does not stop the decrement: the paused timer
   still loses that second, and in the last second the shutdown still fires.
   */
  lemma PauseDuringSleepLosesSecond(t: Timer)
    requires GoesToSleep(t)
    ensures var w := Wake(Pause(t).timer);
            w.paused && w.remaining == t.remaining - 1
    ensures t.remaining == 1 ==> Tick(Wake(Pause(t).timer)).signal == ShutdownFired
  {
  }
}
