/**
 Sequences of button presses and countdown-loop passes applied to the Power Nap
 timer: the state invariant over any such sequence, the bound on how often the
 shutdown fires, uninterrupted countdowns, and the countdown loop as a method.
 */
module Session {
  import opened TimeFields
  import opened NapTimer

  /** Everything that can change the timer: a button press or one pass of the countdown loop. */
  datatype Action =
    | PressStart
    | PressPause
    | PressAdd10
    | PressArrow(d: Direction, u: Unit)
    | LoopPass

  /** The transition an action performs. */
  function Apply(t: Timer, a: Action): (r: Outcome)
    ensures t.Valid() ==> r.timer.Valid()
    ensures r.signal == ShutdownFired ==> a == LoopPass && t.running && !r.timer.running
    ensures !t.running && r.timer.running ==> a == PressStart
  {
    match a
    case PressStart => Start(t)
    case PressPause => Pause(t)
    case PressAdd10 => Add10(t)
    case PressArrow(d, u) => Edit(t, d, u)
    case LoopPass => Tick(t)
  }

  /** The state after performing the actions in order. */
  function Replay(t: Timer, acts: seq<Action>): Timer
    decreases |acts|
  {
    if acts == [] then t else Replay(Apply(t, acts[0]).timer, acts[1..])
  }

  /** How many times the shutdown command is issued while performing the actions. */
  function Shutdowns(t: Timer, acts: seq<Action>): nat
    decreases |acts|
  {
    if acts == [] then 0
    else
      var o := Apply(t, acts[0]);
      (if o.signal == ShutdownFired then 1 else 0) + Shutdowns(o.timer, acts[1..])
  }

  /** How many presses of the Start button the actions contain. */
  function Starts(acts: seq<Action>): nat
    decreases |acts|
  {
    if acts == [] then 0 else (if acts[0] == PressStart then 1 else 0) + Starts(acts[1..])
  }

  function Flag(b: bool): nat {
    if b then 1 else 0
  }

  /** `n` consecutive passes of the countdown loop. */
  function Passes(n: nat): (p: seq<Action>)
    ensures |p| == n
  {
    seq(n, _ => LoopPass)
  }

  /** Whatever happens, the timer stays valid: no negative time, no pause without a run. */
  lemma {:induction false} ReplayKeepsValid(t: Timer, acts: seq<Action>)
    requires t.Valid()
    ensures Replay(t, acts).Valid()
    decreases |acts|
  {
    if acts != [] {
      ReplayKeepsValid(Apply(t, acts[0]).timer, acts[1..]);
    }
  }

  /**
   Each shutdown consumes a run, and only Start begins one: the shutdowns fired,
   plus one if the timer is still running, never exceed the Start presses plus
   one if it was running to begin with.
   */
  lemma {:induction false} ShutdownOncePerStart(t: Timer, acts: seq<Action>)
    ensures Shutdowns(t, acts) + Flag(Replay(t, acts).running) <= Starts(acts) + Flag(t.running)
    decreases |acts|
  {
    if acts != [] {
      ShutdownOncePerStart(Apply(t, acts[0]).timer, acts[1..]);
    }
  }

  /** From launch, the shutdown fires at most once per press of Start. */
  lemma FromLaunchShutdownsBounded(acts: seq<Action>)
    ensures Shutdowns(Initial, acts) <= Starts(acts)
  {
    ShutdownOncePerStart(Initial, acts);
  }

  /** Running both halves of a split sequence is running the whole sequence. */
  lemma {:induction false} ReplayAppend(t: Timer, a: seq<Action>, b: seq<Action>)
    ensures Replay(t, a + b) == Replay(Replay(t, a), b)
    ensures Shutdowns(t, a + b) == Shutdowns(t, a) + Shutdowns(Replay(t, a), b)
    decreases |a|
  {
    if a != [] {
      assert (a + b)[0] == a[0];
      assert (a + b)[1..] == a[1..] + b;
      ReplayAppend(Apply(t, a[0]).timer, a[1..], b);
    } else {
      assert a + b == b;
    }
  }

  lemma PassesUnfold(n: nat)
    requires n > 0
    ensures Passes(n)[0] == LoopPass && Passes(n)[1..] == Passes(n - 1)
  {
  }

  lemma PassesSnoc(n: nat)
    ensures Passes(n) + [LoopPass] == Passes(n + 1)
  {
  }

  /** An uninterrupted countdown from n loses exactly one second per pass and fires nothing on the way. */
  lemma {:induction false} CountdownReachesZero(n: nat, k: nat)
    requires k <= n
    ensures Replay(Timer(true, false, n), Passes(k)) == Timer(true, false, n - k)
    ensures Shutdowns(Timer(true, false, n), Passes(k)) == 0
    decreases k
  {
    if k > 0 {
      PassesUnfold(k);
      CountdownReachesZero(n - 1, k - 1);
    }
  }

  /** Loop passes over an idle timer change nothing and fire nothing. */
  lemma {:induction false} IdlePassesInert(t: Timer, k: nat)
    requires !t.running
    ensures Replay(t, Passes(k)) == t
    ensures Shutdowns(t, Passes(k)) == 0
    decreases k
  {
    if k > 0 {
      PassesUnfold(k);
      IdlePassesInert(t, k - 1);
    }
  }

  /**
   An uninterrupted countdown from n takes n decrementing passes, then one pass
   that fires the shutdown and returns to idle; any further passes fire nothing.
   */
  lemma CountdownFiresOnce(n: nat, extra: nat)
    ensures Replay(Timer(true, false, n), Passes(n + 1 + extra)) == Timer(false, false, 0)
    ensures Shutdowns(Timer(true, false, n), Passes(n + 1 + extra)) == 1
  {
    var t := Timer(true, false, n);
    assert Passes(n + 1 + extra) == Passes(n) + Passes(1 + extra);
    ReplayAppend(t, Passes(n), Passes(1 + extra));
    CountdownReachesZero(n, n);
    PassesUnfold(1 + extra);
    IdlePassesInert(Timer(false, false, 0), extra);
  }

  /** Loop passes over a paused timer with time left change nothing and fire nothing. */
  lemma {:induction false} PausedPassesFrozen(t: Timer, k: nat)
    requires t.paused && t.remaining > 0
    ensures Replay(t, Passes(k)) == t
    ensures Shutdowns(t, Passes(k)) == 0
    decreases k
  {
    if k > 0 {
      PassesUnfold(k);
      PausedPassesFrozen(t, k - 1);
    }
  }

  /** Pause, any number of loop passes, then Start: the countdown resumes where it stopped. */
  lemma PauseResumeKeepsTime(t: Timer, k: nat)
    requires t.running && !t.paused && t.remaining > 0
    ensures Replay(t, [PressPause] + Passes(k) + [PressStart]) == t
    ensures Shutdowns(t, [PressPause] + Passes(k) + [PressStart]) == 0
  {
    var p := Pause(t).timer;
    ReplayAppend(t, [PressPause] + Passes(k), [PressStart]);
    ReplayAppend(t, [PressPause], Passes(k));
    PausedPassesFrozen(p, k);
  }

  /**
   The countdown loop run without interference: it decrements once per pass
   while time is left, then issues the shutdown and returns the timer to idle.
   */
  method RunTimer(t: Timer) returns (passes: nat, r: Outcome)
    requires t.running && !t.paused && t.remaining >= 0
    ensures passes == t.remaining
    ensures r.signal == ShutdownFired && r.timer == Timer(false, false, 0)
    ensures r.timer == Replay(t, Passes(passes + 1))
  {
    var cur := t;
    passes := 0;
    while cur.running && cur.remaining > 0
      invariant passes <= t.remaining
      invariant cur == Timer(true, false, t.remaining - passes)
      invariant cur == Replay(t, Passes(passes))
      decreases cur.remaining
    {
      ReplayAppend(t, Passes(passes), [LoopPass]);
      PassesSnoc(passes);
      cur := Tick(cur).timer;
      passes := passes + 1;
    }
    ReplayAppend(t, Passes(passes), [LoopPass]);
    PassesSnoc(passes);
    r := Tick(cur);
  }
}
