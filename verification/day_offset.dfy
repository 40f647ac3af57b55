/** Day-offset arithmetic: the whole number of days between two instants,
    computed as the source does, by a real division truncated toward zero. */
module DayOffset {

  const SECONDS_PER_DAY: int := 60 * 60 * 24

  /** Seconds from the start of a day to its last minute, 23:59. */
  const LAST_MINUTE_SECONDS: int := 23 * 60 * 60 + 59 * 60

  /** Minutes in a day; a minute of the day is in [0, MINUTES_PER_DAY). */
  const MINUTES_PER_DAY: int := 24 * 60

  function Abs(x: int): nat {
    if x < 0 then -x else x
  }

  /** Integer division truncated toward zero, as `int(a / b)` does for a
      positive divisor. Dafny's own `/` is Euclidean and floors negatives. */
  function TruncDiv(a: int, b: int): (q: int)
    requires b > 0
    ensures a >= 0 ==> 0 <= q && q * b <= a < q * b + b
    ensures a < 0 ==> q <= 0 && q * b - b < a <= q * b
  {
    if a >= 0 then a / b else -((-a) / b)
  }

  /** The quotient is the only integer meeting the truncation bounds. */
  lemma TruncDivUnique(a: int, b: int, q: int)
    requires b > 0
    requires a >= 0 ==> q * b <= a < q * b + b
    requires a < 0 ==> q * b - b < a <= q * b
    ensures TruncDiv(a, b) == q
  {
    var t := TruncDiv(a, b);
    assert (t + 1) * b == t * b + b;
    assert (q + 1) * b == q * b + b;
    if t < q {
      MulMonotone(t + 1, q, b);
    } else if t > q {
      MulMonotone(q + 1, t, b);
    }
  }

  lemma MulMonotone(x: int, y: int, b: int)
    requires x <= y && b > 0
    ensures x * b <= y * b
  {
    assert y * b - x * b == (y - x) * b;
  }

  /** Whole days from `older` to `recent`: positive when `recent` is later. */
  function DaysDifference(recent: int, older: int): (d: int)
    ensures -SECONDS_PER_DAY < recent - older < SECONDS_PER_DAY ==> d == 0
    ensures recent >= older ==> d >= 0
    ensures recent <= older ==> d <= 0
    ensures Abs(d) * SECONDS_PER_DAY <= Abs(recent - older) < Abs(d) * SECONDS_PER_DAY + SECONDS_PER_DAY
  {
    TruncDiv(recent - older, SECONDS_PER_DAY)
  }

  /** Truncation is odd: swapping the two instants only flips the sign. */
  lemma DaysDifferenceAntisymmetric(a: int, b: int)
    ensures DaysDifference(a, b) == -DaysDifference(b, a)
  {
    var d := DaysDifference(b, a);
    if a - b >= 0 {
      TruncDivUnique(a - b, SECONDS_PER_DAY, -d);
    } else {
      TruncDivUnique(a - b, SECONDS_PER_DAY, -d);
    }
  }

  /** Truncation agrees with Dafny's floor division for non-negative
      differences, and is one more than it for negative non-multiples. */
  lemma TruncationVersusFloor(recent: int, older: int)
    ensures recent - older >= 0 ==> DaysDifference(recent, older) == (recent - older) / SECONDS_PER_DAY
    ensures recent - older < 0 && (recent - older) % SECONDS_PER_DAY != 0 ==>
              DaysDifference(recent, older) == (recent - older) / SECONDS_PER_DAY + 1
    ensures recent - older < 0 && (recent - older) % SECONDS_PER_DAY == 0 ==>
              DaysDifference(recent, older) == (recent - older) / SECONDS_PER_DAY
  {
    var a := recent - older;
    var f := a / SECONDS_PER_DAY;
    assert a == f * SECONDS_PER_DAY + a % SECONDS_PER_DAY;
    if a >= 0 {
      TruncDivUnique(a, SECONDS_PER_DAY, f);
    } else if a % SECONDS_PER_DAY != 0 {
      assert (f + 1) * SECONDS_PER_DAY == f * SECONDS_PER_DAY + SECONDS_PER_DAY;
      TruncDivUnique(a, SECONDS_PER_DAY, f + 1);
    } else {
      TruncDivUnique(a, SECONDS_PER_DAY, f);
    }
  }

  /** Later events never get an earlier day: the offset is monotone in the
      event instant for a fixed reference instant. */
  lemma DaysDifferenceMonotone(t1: int, t2: int, epoch: int)
    requires t1 <= t2
    ensures DaysDifference(t1, epoch) <= DaysDifference(t2, epoch)
  {
    var d1, d2 := DaysDifference(t1, epoch), DaysDifference(t2, epoch);
    if d1 > d2 {
      var a1, a2 := t1 - epoch, t2 - epoch;
      if a2 >= 0 {
        MulMonotone(d2 + 1, d1, SECONDS_PER_DAY);
      } else if a1 < 0 {
        MulMonotone(d2 + 1, d1, SECONDS_PER_DAY);
      }
    }
  }

  /** The epoch instant for a day starting at `dayStart`: that day at 23:59. */
  function EpochOfDay(dayStart: int): int {
    dayStart + LAST_MINUTE_SECONDS
  }

  /** The instant of minute `minute` (0 = 00:00, 1439 = 23:59) of the day
      `k` days after the day starting at `dayStart`. */
  function MinuteOf(dayStart: int, k: int, minute: int): int {
    dayStart + k * SECONDS_PER_DAY + 60 * minute
  }

  /** The day offset of every minute of every calendar day relative to an epoch
      normalised to 23:59. Days on or before the epoch day map to their calendar
      distance; days after it map one lower, except at 23:59 itself. */
  lemma CalendarDayOffset(dayStart: int, k: int, minute: int)
    requires 0 <= minute < MINUTES_PER_DAY
    ensures DaysDifference(MinuteOf(dayStart, k, minute), EpochOfDay(dayStart)) ==
              if k <= 0 || minute == MINUTES_PER_DAY - 1 then k else k - 1
  {
    var a := MinuteOf(dayStart, k, minute) - EpochOfDay(dayStart);
    assert a == k * SECONDS_PER_DAY + 60 * minute - LAST_MINUTE_SECONDS;
    if k <= 0 {
      if k == 0 {
        TruncDivUnique(a, SECONDS_PER_DAY, 0);
      } else {
        assert a < 0;
        TruncDivUnique(a, SECONDS_PER_DAY, k);
      }
    } else if minute == MINUTES_PER_DAY - 1 {
      TruncDivUnique(a, SECONDS_PER_DAY, k);
    } else {
      assert (k - 1) * SECONDS_PER_DAY == k * SECONDS_PER_DAY - SECONDS_PER_DAY;
      TruncDivUnique(a, SECONDS_PER_DAY, k - 1);
    }
  }

  /** Every minute of the epoch's own calendar day is day 0. */
  lemma {:induction false} EpochDayIsDayZero(dayStart: int, minute: int)
    requires 0 <= minute < MINUTES_PER_DAY
    ensures DaysDifference(dayStart + 60 * minute, EpochOfDay(dayStart)) == 0
  {
    CalendarDayOffset(dayStart, 0, minute);
  }

}
