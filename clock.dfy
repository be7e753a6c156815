/** The calendar accessors the heatmap uses on a bucket timestamp
    (`dt.dayofweek`, `dt.hour`), on timestamps written as whole seconds
    since 1970-01-01 00:00:00 in the view's own local time. That day was
    a Thursday. Dafny's `/` and `%` on `int` are Euclidean, which for a
    positive divisor is the floor division pandas uses for instants before
    the epoch as well. */
module Clock {

  const SecondsPerMinute: int := 60
  const SecondsPerHour: int := 3600
  const SecondsPerDay: int := 86400

  /** pandas `dt.dayofweek`: Monday = 0, ..., Sunday = 6. */
  function DayOfWeek(t: int): (d: int)
    ensures 0 <= d < 7
  {
    (t / SecondsPerDay + 3) % 7
  }

  /** The heatmap's weekday, `(dayofweek + 1) % 7`: Sunday = 0, ..., Saturday = 6. */
  function Weekday(t: int): (w: int)
    ensures 0 <= w < 7
  {
    (DayOfWeek(t) + 1) % 7
  }

  /** pandas `dt.hour`. */
  function Hour(t: int): (h: int)
    ensures 0 <= h < 24
  {
    (t / SecondsPerHour) % 24
  }

  /** The shifted numbering: Sunday becomes 0, Saturday 6, and every other day moves up by one. */
  lemma WeekdayShift(t: int)
    ensures Weekday(t) == 0 <==> DayOfWeek(t) == 6
    ensures Weekday(t) == 6 <==> DayOfWeek(t) == 5
    ensures DayOfWeek(t) < 6 ==> Weekday(t) == DayOfWeek(t) + 1
  {
  }

  /** `Hour` is the hour of the day: the seconds since that day's midnight, in whole hours. */
  lemma HourOfDay(t: int)
    ensures Hour(t) == (t % SecondsPerDay) / SecondsPerHour
  {
  }

  /** Whole days and whole hours advance by one and by 24 when a day is added. */
  lemma AddOneDay(t: int)
    ensures (t + SecondsPerDay) / SecondsPerDay == t / SecondsPerDay + 1
    ensures (t + SecondsPerDay) / SecondsPerHour == t / SecondsPerHour + 24
  {
    var q, r := t / SecondsPerDay, t % SecondsPerDay;
    assert t + SecondsPerDay == SecondsPerDay * (q + 1) + r;
    var p, s := t / SecondsPerHour, t % SecondsPerHour;
    assert t + SecondsPerDay == SecondsPerHour * (p + 24) + s;
  }

  /** One day later is the next weekday, wrapping from Saturday to Sunday; the hour is unchanged. */
  lemma NextDay(t: int)
    ensures Weekday(t + SecondsPerDay) == (Weekday(t) + 1) % 7
    ensures Hour(t + SecondsPerDay) == Hour(t)
  {
    AddOneDay(t);
    var m := DayOfWeek(t);
    var a := (t / SecondsPerDay + 3) / 7;
    assert t / SecondsPerDay + 3 == 7 * a + m;
    assert t / SecondsPerDay + 4 == 7 * a + (m + 1);
    assert DayOfWeek(t + SecondsPerDay) == (m + 1) % 7;
  }

  /** One hour later is the next hour of the day, wrapping from 23 to 0. */
  lemma NextHour(t: int)
    ensures Hour(t + SecondsPerHour) == (Hour(t) + 1) % 24
  {
    assert (t + SecondsPerHour) / SecondsPerHour == t / SecondsPerHour + 1;
  }

  /** Calendar anchors: 1970-01-01 was a Thursday, 2024-01-06 a Saturday and 2024-01-07 a Sunday. */
  lemma CalendarAnchors()
    ensures DayOfWeek(0) == 3 && Weekday(0) == 4
    ensures Weekday(19728 * SecondsPerDay) == 6
    ensures Weekday(19729 * SecondsPerDay) == 0
    ensures Hour(19729 * SecondsPerDay + 13 * SecondsPerHour + 59 * SecondsPerMinute) == 13
  {
  }
}
