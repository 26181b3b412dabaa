/**
 Time arithmetic of the Power Nap timer: splitting a number of seconds into the
 three displayed fields (hours, minutes, seconds), the arrow-button edits of one
 field, and recombining the fields into a total clamped to five hours.

 Python's `//` and `%` with a positive divisor round towards minus infinity and
 give a non-negative remainder; Dafny's Euclidean `/` and `%` agree with them for
 a positive divisor, so the source's expressions carry over unchanged.
 */
module TimeFields {

  /** Longest time a manual edit may set: five hours. */
  const MaxSeconds: int := 5 * 3600

  /** Largest value the hours field reaches by pressing its up arrow. */
  const MaxHours: int := 23

  /** The three display fields of the timer. */
  datatype Unit = Hours | Minutes | Seconds

  /** Direction of an arrow button. */
  datatype Direction = Up | Down

  /** Values of the hours, minutes and seconds fields. */
  datatype Fields = Fields(hours: int, minutes: int, seconds: int) {

    /** Number of seconds the three fields denote together. */
    function Total(): int {
      hours * 3600 + minutes * 60 + seconds
    }

    /** Minutes and seconds inside a clock face, hours non-negative. */
    predicate Normal() {
      0 <= hours && 0 <= minutes < 60 && 0 <= seconds < 60
    }
  }

  /** Splits a number of seconds into hours, minutes and seconds. */
  function SecondsToHms(total: int): (f: Fields)
    ensures f.Total() == total
    ensures 0 <= f.minutes < 60 && 0 <= f.seconds < 60
    ensures total >= 0 ==> f.Normal()
  {
    SplitFacts(total);
    Fields(total / 3600, (total % 3600) / 60, total % 60)
  }

  /** The quotients and remainders the split uses recombine to the total. */
  lemma SplitFacts(total: int)
    ensures (total / 3600) * 3600 + ((total % 3600) / 60) * 60 + total % 60 == total
  {
    var h, rest := total / 3600, total % 3600;
    var m, s := rest / 60, rest % 60;
    assert total == h * 3600 + rest;
    assert rest == m * 60 + s;
    assert total == (total / 60) * 60 + total % 60;
    UniqueSplit60(h * 60 + m, s, total / 60, total % 60);
  }

  /** Normal fields are exactly what `SecondsToHms` produces for their total. */
  lemma HmsRoundTrip(f: Fields)
    requires f.Normal()
    ensures SecondsToHms(f.Total()) == f
  {
    var t := f.Total();
    var r := SecondsToHms(t);
    // Both split t with minutes and seconds in range: the seconds agree
    // modulo 60, then the whole minutes agree modulo 60, then the hours.
    assert (r.hours * 60 + r.minutes) * 60 + r.seconds == (f.hours * 60 + f.minutes) * 60 + f.seconds;
    UniqueSplit60(r.hours * 60 + r.minutes, r.seconds, f.hours * 60 + f.minutes, f.seconds);
    UniqueSplit60(r.hours, r.minutes, f.hours, f.minutes);
  }

  /** A quotient and a remainder in [0, 60) are determined by the number they compose. */
  lemma UniqueSplit60(q1: int, r1: int, q2: int, r2: int)
    requires 0 <= r1 < 60 && 0 <= r2 < 60
    requires q1 * 60 + r1 == q2 * 60 + r2
    ensures q1 == q2 && r1 == r2
  {
  }

  /** The up arrow of one field: hours stop at 23, minutes and seconds wrap. */
  function Increment(f: Fields, u: Unit): (r: Fields)
    ensures u != Hours ==> r.hours == f.hours
    ensures u != Minutes ==> r.minutes == f.minutes
    ensures u != Seconds ==> r.seconds == f.seconds
    ensures u == Hours ==> r.hours <= MaxHours && (f.hours < MaxHours ==> r.hours == f.hours + 1)
    ensures u == Hours && f.hours >= MaxHours ==> r.hours == MaxHours
    ensures u == Minutes && 0 <= f.minutes < 60 ==>
              r.minutes == if f.minutes == 59 then 0 else f.minutes + 1
    ensures u == Seconds && 0 <= f.seconds < 60 ==>
              r.seconds == if f.seconds == 59 then 0 else f.seconds + 1
    ensures f.Normal() ==> r.Normal()
  {
    match u
    case Hours => f.(hours := if f.hours + 1 <= MaxHours then f.hours + 1 else MaxHours)
    case Minutes => f.(minutes := (f.minutes + 1) % 60)
    case Seconds => f.(seconds := (f.seconds + 1) % 60)
  }

  /** The down arrow of one field: hours stop at 0, minutes and seconds wrap. */
  function Decrement(f: Fields, u: Unit): (r: Fields)
    ensures u != Hours ==> r.hours == f.hours
    ensures u != Minutes ==> r.minutes == f.minutes
    ensures u != Seconds ==> r.seconds == f.seconds
    ensures u == Hours ==> r.hours >= 0 && (f.hours > 0 ==> r.hours == f.hours - 1)
    ensures u == Hours && f.hours <= 0 ==> r.hours == 0
    ensures u == Minutes && 0 <= f.minutes < 60 ==>
              r.minutes == if f.minutes == 0 then 59 else f.minutes - 1
    ensures u == Seconds && 0 <= f.seconds < 60 ==>
              r.seconds == if f.seconds == 0 then 59 else f.seconds - 1
    ensures f.Normal() ==> r.Normal()
  {
    match u
    case Hours => f.(hours := if f.hours - 1 >= 0 then f.hours - 1 else 0)
    case Minutes => f.(minutes := (f.minutes - 1) % 60)
    case Seconds => f.(seconds := (f.seconds - 1) % 60)
  }

  /** One arrow press on one field. */
  function Press(f: Fields, d: Direction, u: Unit): Fields {
    match d
    case Up => Increment(f, u)
    case Down => Decrement(f, u)
  }

  /** The down arrow undoes the up arrow, except on the hours field at its cap. */
  lemma DecrementUndoesIncrement(f: Fields, u: Unit)
    requires f.Normal()
    requires u == Hours ==> f.hours < MaxHours
    ensures Decrement(Increment(f, u), u) == f
  {
  }

  /** The up arrow undoes the down arrow, except on the hours field at zero. */
  lemma IncrementUndoesDecrement(f: Fields, u: Unit)
    requires f.Normal()
    requires u == Hours ==> 0 < f.hours <= MaxHours
    ensures Increment(Decrement(f, u), u) == f
  {
  }

  /** Sixty presses of the up arrow on minutes or seconds come back to the start. */
  lemma SixtyPressesWrap(f: Fields, u: Unit)
    requires f.Normal() && u != Hours
    ensures Presses(f, u, 60) == f
  {
    PressesShift(f, u, 60);
  }

  /** The result of pressing the up arrow of `u` n times. */
  function Presses(f: Fields, u: Unit, n: nat): Fields
    decreases n
  {
    if n == 0 then f else Presses(Increment(f, u), u, n - 1)
  }

  /** n presses of a wrapping field add n to it modulo 60 and leave the other fields alone. */
  lemma {:induction false} PressesShift(f: Fields, u: Unit, n: nat)
    requires f.Normal() && u != Hours
    ensures u == Minutes ==> Presses(f, u, n) == f.(minutes := (f.minutes + n) % 60)
    ensures u == Seconds ==> Presses(f, u, n) == f.(seconds := (f.seconds + n) % 60)
    decreases n
  {
    if n > 0 {
      var g := Increment(f, u);
      PressesShift(g, u, n - 1);
      if u == Minutes {
        assert (g.minutes + (n - 1)) % 60 == (f.minutes + n) % 60 by {
          AddMod60(f.minutes, n);
        }
      } else {
        assert (g.seconds + (n - 1)) % 60 == (f.seconds + n) % 60 by {
          AddMod60(f.seconds, n);
        }
      }
    }
  }

  /** Reducing after one step of a sum modulo 60 does not change the final residue. */
  lemma AddMod60(x: int, n: nat)
    requires 0 <= x < 60 && n > 0
    ensures ((x + 1) % 60 + (n - 1)) % 60 == (x + n) % 60
  {
    if x == 59 {
      assert (x + 1) % 60 == 0;
      assert x + n == 60 + (n - 1);
    }
  }

  /** Outcome of recombining the fields: the new total, and whether the warning was shown. */
  datatype Synced = Synced(total: int, capped: bool)

  /** Recombines the fields into seconds, clamping anything above five hours to five hours. */
  function Sync(f: Fields): (r: Synced)
    ensures r.total <= MaxSeconds
    ensures r.capped <==> f.Total() > MaxSeconds
    ensures !r.capped ==> r.total == f.Total()
    ensures r.capped ==> r.total == MaxSeconds
    ensures f.Normal() ==> 0 <= r.total
  {
    var total := f.Total();
    if total > MaxSeconds then Synced(MaxSeconds, true) else Synced(total, false)
  }

  /** The clamped total is displayed as 05:00:00, the fields the source writes on clamping. */
  lemma CapDisplaysFiveHours()
    ensures SecondsToHms(MaxSeconds) == Fields(5, 0, 0)
  {
  }

  /** A manual edit: read the fields shown for `remaining`, press one arrow, recombine. */
  function EditSeconds(remaining: int, d: Direction, u: Unit): (r: Synced)
    ensures r.total <= MaxSeconds
    ensures remaining >= 0 ==> 0 <= r.total
    ensures var p := Press(SecondsToHms(remaining), d, u);
            (p.Total() <= MaxSeconds ==> r.total == p.Total() && !r.capped)
            && (p.Total() > MaxSeconds ==> r.total == MaxSeconds && r.capped)
  {
    Sync(Press(SecondsToHms(remaining), d, u))
  }
}
