/** The flash-deal countdown on the catalog page. A timer calls `Tick` every
    10 ms; the field the page calls `milliseconds` therefore counts hundredths
    of a second and runs from 99 down to 0. */
module FlashDeal {
  datatype TimeLeft = TimeLeft(hours: nat, minutes: nat, seconds: nat, milliseconds: nat)

  const Start := TimeLeft(11, 16, 9, 52)
  const Expired := TimeLeft(0, 0, 0, 0)

  /** Every field but the hours stays below its carry limit. */
  predicate InRange(t: TimeLeft) {
    t.minutes < 60 && t.seconds < 60 && t.milliseconds < 100
  }

  /** The time left, in hundredths of a second. */
  function Total(t: TimeLeft): nat {
    ((t.hours * 60 + t.minutes) * 60 + t.seconds) * 100 + t.milliseconds
  }

  /** One timer step: decrement the lowest non-zero field and reset the
      fields below it to their maximum; an expired clock stays expired. */
  function Tick(prev: TimeLeft): (next: TimeLeft)
    ensures InRange(prev) ==> InRange(next)
    ensures prev == Expired ==> next == prev
    ensures prev != Expired ==> Total(next) + 1 == Total(prev)
  {
    if prev.milliseconds > 0 then prev.(milliseconds := prev.milliseconds - 1)
    else if prev.seconds > 0 then prev.(seconds := prev.seconds - 1, milliseconds := 99)
    else if prev.minutes > 0 then prev.(minutes := prev.minutes - 1, seconds := 59, milliseconds := 99)
    else if prev.hours > 0 then prev.(hours := prev.hours - 1, minutes := 59, seconds := 59, milliseconds := 99)
    else prev
  }

  /** The clock after `n` timer steps. */
  function Ticks(t: TimeLeft, n: nat): TimeLeft
    decreases n
  {
    if n == 0 then t else Ticks(Tick(t), n - 1)
  }

  lemma TotalZero(t: TimeLeft)
    ensures Total(t) == 0 <==> t == Expired
  {
  }

  /** Each step takes exactly one hundredth off until the clock reaches zero. */
  lemma {:induction false} TicksCountDown(t: TimeLeft, n: nat)
    ensures Total(Ticks(t, n)) == if n <= Total(t) then Total(t) - n else 0
    decreases n
  {
    if n > 0 {
      var next := Tick(t);
      TicksCountDown(next, n - 1);
      if t == Expired {
        assert next == t;
      } else {
        assert Total(next) == Total(t) - 1;
      }
    }
  }

  /** The fields stay in range however many steps are taken. */
  lemma {:induction false} TicksStayInRange(t: TimeLeft, n: nat)
    requires InRange(t)
    ensures InRange(Ticks(t, n))
    decreases n
  {
    if n > 0 {
      TicksStayInRange(Tick(t), n - 1);
    }
  }

  /** The clock reads all zeros after exactly `Total(t)` steps, not before,
      and stays there. */
  lemma ExpiresAfterTotal(t: TimeLeft, n: nat)
    ensures Ticks(t, n) == Expired <==> n >= Total(t)
  {
    TicksCountDown(t, n);
    TotalZero(Ticks(t, n));
  }

  /** The initial clock is in range and expires after 11 h 16 min 9.52 s. */
  lemma StartExpires()
    ensures InRange(Start) && Total(Start) == 4056952
    ensures Ticks(Start, 4056952) == Expired
  {
    ExpiresAfterTotal(Start, 4056952);
  }
}
