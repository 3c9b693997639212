/** Datetimes are naive timestamps counted in seconds; a calendar day is the
    number of whole days since the epoch. `datetime.date()` is `DayOf` and
    `datetime.combine(day, time.min)` is `StartOfDay`. */
module Dates {

  const SecondsPerDay: int := 86400

  /** The calendar day a timestamp falls on (floor division, so timestamps
      before the epoch fall on negative days as `date()` would give). */
  function DayOf(ts: int): (day: int)
    ensures StartOfDay(day) <= ts < StartOfDay(day) + SecondsPerDay
  {
    ts / SecondsPerDay
  }

  /** The timestamp of 00:00:00 on `day`. */
  function StartOfDay(day: int): (ts: int)
    ensures ts % SecondsPerDay == 0
  {
    day * SecondsPerDay
  }

  /** Normalising a day to its midnight and reading the day back is the
      identity, so a stored signature date denotes exactly its day. */
  lemma DayOfStartOfDay(day: int)
    ensures DayOf(StartOfDay(day)) == day
  {
  }

  /** Two days normalise to the same midnight only when they are the same day. */
  lemma StartOfDayInjective(d1: int, d2: int)
    ensures StartOfDay(d1) == StartOfDay(d2) <==> d1 == d2
  {
    DayOfStartOfDay(d1);
    DayOfStartOfDay(d2);
  }

  /** Later timestamps never fall on earlier days. */
  lemma DayOfMonotone(t1: int, t2: int)
    requires t1 <= t2
    ensures DayOf(t1) <= DayOf(t2)
  {
  }
}
