/** `DayTimeCalendarService`: combining the day picked on the calendar with
    the time picked in the time select, clamped to the configured bounds. */
module DayTimeCalendar {
  import opened Wrappers
  import opened Dates

  /** The date of `day` with the time of day of `time`: the source formats
      `day` as `YYYYMMDD` and `time` as `HH:mm:ss` and parses the joined
      text back. An invalid value formats as "Invalid Date", which does not
      parse, so the result is invalid when either input is. */
  function Combine(day: Moment, time: Moment): (r: Moment)
    ensures r.Valid? <==> day.Valid? && time.Valid?
    ensures r.Valid? ==> r.at.date == day.at.date && r.at.secs == time.at.secs
  {
    if day.Valid? && time.Valid? then Valid(DateTime(day.at.date, time.at.secs)) else Invalid
  }

  /** Combining keeps the date from the first argument and the time from the
      second, so re-combining with either part again changes nothing. */
  lemma CombineAbsorbs(day: Moment, time: Moment, other: Moment)
    requires day.Valid? && time.Valid? && other.Valid?
    ensures Combine(Combine(day, time), time) == Combine(day, time)
    ensures Combine(day, Combine(other, time)) == Combine(day, time)
    ensures Combine(Combine(day, other), time) == Combine(day, time)
  {
  }

  /** A valid combination equals its date part on the day and its time part
      to the second within the day. */
  lemma CombineSplitsBack(t: DateTime)
    ensures Combine(Valid(t), Valid(t)) == Valid(t)
  {
  }

  /** `updateDay`: the picked day at the current value's time of day (now's
      when nothing is selected), raised to `min` when it is earlier, then
      lowered to `max` when it is later. The result is the merged value or
      one of the bounds; an invalid merge compares with nothing and is
      returned as it is, and an invalid bound never replaces a valid merge. */
  function UpdateDay(current: Option<Moment>, day: Moment, now: DateTime,
                     min: Option<Moment>, max: Option<Moment>): (r: Moment)
    ensures var merged := Combine(day, current.GetOr(Valid(now)));
            r == merged || (min.Some? && r == min.value) || (max.Some? && r == max.value)
    ensures var merged := Combine(day, current.GetOr(Valid(now)));
            && (r.Valid? <==> merged.Valid?)
            && (merged.Invalid? ==> r == merged)
  {
    var time := current.GetOr(Valid(now));
    var updated := Combine(day, time);
    var updated := if min.Some? && IsAfter(min.value, updated, Second) then min.value else updated;
    if max.Some? && IsBefore(max.value, updated, Second) then max.value else updated
  }

  /** Within the bounds the picked day keeps the current time of day. */
  lemma UpdateDayInsideBounds(current: Option<Moment>, day: DateTime, now: DateTime,
                              min: Option<Moment>, max: Option<Moment>)
    requires current.None? || current.value.Valid?
    requires var merged := Combine(Valid(day), current.GetOr(Valid(now)));
             && (min.None? || !IsAfter(min.value, merged, Second))
             && (max.None? || !IsBefore(max.value, merged, Second))
    ensures var r := UpdateDay(current, Valid(day), now, min, max);
            && r.Valid? && r.at.date == day.date
            && r.at.secs == (if current.Some? then current.value.at.secs else now.secs)
  {
  }

  /** With a valid `max`, the result of `updateDay` is never after it; with a
      valid `min` and no `max`, never before it; with valid bounds in order,
      it lies between them. */
  lemma UpdateDayRespectsBounds(current: Option<Moment>, day: DateTime, now: DateTime,
                                min: Option<Moment>, max: Option<Moment>)
    requires current.None? || current.value.Valid?
    ensures var r := UpdateDay(current, Valid(day), now, min, max);
            && (max.Some? && max.value.Valid? ==> r.Valid? && Key(r.at, Second) <= Key(max.value.at, Second))
            && (min.Some? && min.value.Valid? && max.None? ==> r.Valid? && Key(min.value.at, Second) <= Key(r.at, Second))
            && (min.Some? && min.value.Valid? && max.Some? && max.value.Valid?
                && Key(min.value.at, Second) <= Key(max.value.at, Second) ==>
                  Key(min.value.at, Second) <= Key(r.at, Second) <= Key(max.value.at, Second))
  {
  }

  /** The clamp to `max` runs last, so when the bounds cross and the picked
      value is earlier than `min`, the result is `max`. */
  lemma UpdateDayMaxWins(current: Option<Moment>, day: DateTime, now: DateTime, lo: DateTime, hi: DateTime)
    requires current.None? || current.value.Valid?
    requires Key(hi, Second) < Key(lo, Second)
    requires Key(Combine(Valid(day), current.GetOr(Valid(now))).at, Second) < Key(lo, Second)
    ensures UpdateDay(current, Valid(day), now, Some(Valid(lo)), Some(Valid(hi))) == Valid(hi)
  {
  }

  /** `updateTime`: the current value's date (today's when nothing is
      selected) at the time of day of `time`. */
  function UpdateTime(current: Option<Moment>, time: Moment, today: DateTime): (r: Moment)
    ensures var day := current.GetOr(Valid(today));
            && (r.Valid? <==> day.Valid? && time.Valid?)
            && (r.Valid? ==> r.at.date == day.at.date && r.at.secs == time.at.secs)
  {
    Combine(current.GetOr(Valid(today)), time)
  }

  /** Setting the same time twice is setting it once. */
  lemma UpdateTimeIsIdempotent(current: Option<Moment>, time: Moment, today: DateTime, later: DateTime)
    requires time.Valid?
    requires current.None? || current.value.Valid?
    ensures UpdateTime(Some(UpdateTime(current, time, today)), time, later) == UpdateTime(current, time, today)
  {
  }

  /** Setting a time and then the day keeps both: the day comes from the
      picked day and the time of day from the earlier update (no bounds). */
  lemma DayAndTimeCompose(current: Option<Moment>, time: DateTime, day: DateTime, today: DateTime, now: DateTime)
    requires current.None? || current.value.Valid?
    ensures UpdateDay(Some(UpdateTime(current, Valid(time), today)), Valid(day), now, None, None)
            == Valid(DateTime(day.date, time.secs))
  {
  }
}
