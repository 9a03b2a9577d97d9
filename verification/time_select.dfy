/** `TimeSelectService`: stepping a time up and down by hours, minutes or
    seconds, switching between AM and PM, the guards that hide a step which
    would leave the configured bounds, and the display format. */
module TimeSelect {
  import opened Wrappers
  import opened Dates
  import opened Utils
  import opened Strings

  /** `TimeUnit`. */
  datatype TimeUnit = Hours | Minutes | Seconds

  /** `FIRST_PM_HOUR`. */
  const FirstPmHour: int := 12

  /** The resolved `ITimeSelectConfigInternal`. `min` and `max` bound the
      whole date-time; `minTime` and `maxTime` bound the time of day. */
  datatype TimeConfig = TimeConfig(
    hours12Format: string,
    hours24Format: string,
    meridiemFormat: string,
    minutesFormat: string,
    minutesInterval: int,
    secondsFormat: string,
    secondsInterval: int,
    showSeconds: bool,
    showTwentyFourHours: bool,
    timeSeparator: string,
    locale: string,
    min: Option<Moment>,
    max: Option<Moment>,
    minTime: Option<Moment>,
    maxTime: Option<Moment>)

  /** `ITimeSelectConfig` as the caller hands it: every field may be
      undefined. */
  datatype RawTimeConfig = RawTimeConfig(
    hours12Format: Option<string>,
    hours24Format: Option<string>,
    meridiemFormat: Option<string>,
    minutesFormat: Option<string>,
    minutesInterval: Option<int>,
    secondsFormat: Option<string>,
    secondsInterval: Option<int>,
    showSeconds: Option<bool>,
    showTwentyFourHours: Option<bool>,
    timeSeparator: Option<string>,
    locale: Option<string>,
    min: Option<Moment>,
    max: Option<Moment>,
    minTime: Option<Moment>,
    maxTime: Option<Moment>)

  /** `onlyTime` applied to a possibly undefined value. */
  function OnlyTimeOf(m: Option<Moment>): (r: Option<Moment>)
    ensures r.Some? <==> m.Some?
    ensures m.Some? ==> r.value.Valid? == m.value.Valid?
    ensures m.Some? && m.value.Valid? ==> r.value.at.secs == m.value.at.secs
  {
    if m.Some? then Some(OnlyTime(m.value)) else None
  }

  /** Projecting onto the time of day twice is projecting once. */
  lemma OnlyTimeIsIdempotent(m: Option<Moment>)
    ensures OnlyTimeOf(OnlyTimeOf(m)) == OnlyTimeOf(m)
  {
  }

  /** `getConfig`: the caller's defined fields over `DEFAULT_CONFIG`, with
      `minTime` and `maxTime` replaced by their time-of-day projections. */
  function GetConfig(raw: RawTimeConfig, activeLocale: string): (c: TimeConfig)
    ensures c.hours12Format == raw.hours12Format.GetOr("hh")
    ensures c.hours24Format == raw.hours24Format.GetOr("HH")
    ensures c.meridiemFormat == raw.meridiemFormat.GetOr("A")
    ensures c.minutesFormat == raw.minutesFormat.GetOr("mm")
    ensures c.minutesInterval == raw.minutesInterval.GetOr(1)
    ensures c.secondsFormat == raw.secondsFormat.GetOr("ss")
    ensures c.secondsInterval == raw.secondsInterval.GetOr(1)
    ensures c.showSeconds == raw.showSeconds.GetOr(false)
    ensures c.showTwentyFourHours == raw.showTwentyFourHours.GetOr(false)
    ensures c.timeSeparator == raw.timeSeparator.GetOr(":")
    ensures c.locale == raw.locale.GetOr(activeLocale)
    ensures c.min == raw.min && c.max == raw.max
    ensures c.minTime.Some? <==> raw.minTime.Some?
    ensures c.maxTime.Some? <==> raw.maxTime.Some?
    ensures raw.minTime.Some? && raw.minTime.value.Valid? ==>
              c.minTime.value.Valid? && c.minTime.value.at.secs == raw.minTime.value.at.secs
              && c.minTime.value.at.date == TimeOnlyDate
    ensures raw.maxTime.Some? && raw.maxTime.value.Valid? ==>
              c.maxTime.value.Valid? && c.maxTime.value.at.secs == raw.maxTime.value.at.secs
              && c.maxTime.value.at.date == TimeOnlyDate
  {
    TimeConfig(
      raw.hours12Format.GetOr("hh"),
      raw.hours24Format.GetOr("HH"),
      raw.meridiemFormat.GetOr("A"),
      raw.minutesFormat.GetOr("mm"),
      raw.minutesInterval.GetOr(1),
      raw.secondsFormat.GetOr("ss"),
      raw.secondsInterval.GetOr(1),
      raw.showSeconds.GetOr(false),
      raw.showTwentyFourHours.GetOr(false),
      raw.timeSeparator.GetOr(":"),
      raw.locale.GetOr(activeLocale),
      raw.min,
      raw.max,
      OnlyTimeOf(raw.minTime),
      OnlyTimeOf(raw.maxTime))
  }

  /** A resolved configuration handed back as a caller's configuration. */
  function AsRaw(c: TimeConfig): RawTimeConfig {
    RawTimeConfig(
      Some(c.hours12Format), Some(c.hours24Format), Some(c.meridiemFormat), Some(c.minutesFormat),
      Some(c.minutesInterval), Some(c.secondsFormat), Some(c.secondsInterval), Some(c.showSeconds),
      Some(c.showTwentyFourHours), Some(c.timeSeparator), Some(c.locale), c.min, c.max,
      c.minTime, c.maxTime)
  }

  /** Resolving a resolved configuration again changes nothing. */
  lemma GetConfigIsIdempotent(raw: RawTimeConfig, activeLocale: string, otherLocale: string)
    ensures GetConfig(AsRaw(GetConfig(raw, activeLocale)), otherLocale) == GetConfig(raw, activeLocale)
  {
    OnlyTimeIsIdempotent(raw.minTime);
    OnlyTimeIsIdempotent(raw.maxTime);
  }

  // ---------------------------------------------------------------------------
  // Format

  /** `getTimeFormat`: hours (12- or 24-hour), separator, minutes, then
      separator and seconds when seconds are shown, then a space and the
      meridiem in 12-hour mode. */
  function GetTimeFormat(c: TimeConfig): (r: string)
    ensures var hm := (if c.showTwentyFourHours then c.hours24Format else c.hours12Format)
                      + c.timeSeparator + c.minutesFormat;
            && (c.showSeconds && c.showTwentyFourHours ==> r == hm + c.timeSeparator + c.secondsFormat)
            && (c.showSeconds && !c.showTwentyFourHours ==>
                  r == hm + c.timeSeparator + c.secondsFormat + " " + c.meridiemFormat)
            && (!c.showSeconds && c.showTwentyFourHours ==> r == hm)
            && (!c.showSeconds && !c.showTwentyFourHours ==> r == hm + " " + c.meridiemFormat)
  {
    (if c.showTwentyFourHours then c.hours24Format else c.hours12Format)
    + c.timeSeparator + c.minutesFormat
    + (if c.showSeconds then c.timeSeparator + c.secondsFormat else "")
    + (if c.showTwentyFourHours then "" else " " + c.meridiemFormat)
  }

  /** The clock part of a time format: hours, minutes and, when shown,
      seconds, joined by the separator. It holds no space and splits back
      into its fields. */
  lemma ClockTokens(hours: string, minutes: string, seconds: string, showSeconds: bool, sep: char)
    requires sep != ' '
    requires sep !in hours && ' ' !in hours && sep !in minutes && ' ' !in minutes
    requires sep !in seconds && ' ' !in seconds
    ensures var fields := [hours, minutes] + (if showSeconds then [seconds] else []);
            && ' ' !in Join(fields, [sep])
            && Join(fields, [sep]) == hours + [sep] + minutes + (if showSeconds then [sep] + seconds else [])
            && Split(Join(fields, [sep]), sep) == fields
  {
    var fields := [hours, minutes] + (if showSeconds then [seconds] else []);
    if showSeconds {
      assert fields[1..] == [minutes, seconds];
      assert fields[1..][1..] == [seconds];
      assert Join(fields[1..][1..], [sep]) == seconds;
      assert Join(fields[1..], [sep]) == minutes + [sep] + seconds;
    } else {
      assert fields[1..] == [minutes];
      assert Join(fields[1..], [sep]) == minutes;
    }
    SplitJoin(fields, sep);
  }

  /** The tokens of the format read back from it: with a one-character
      separator and space-free tokens, the format splits at the space into
      the clock part and, exactly in 12-hour mode, the meridiem token; the
      clock part splits at the separator into hours, minutes and, exactly
      when seconds are shown, seconds. */
  lemma TimeFormatTokens(c: TimeConfig, sep: char)
    requires c.timeSeparator == [sep] && sep != ' '
    requires var tokens := [c.hours12Format, c.hours24Format, c.minutesFormat, c.secondsFormat, c.meridiemFormat];
             forall i | 0 <= i < |tokens| :: sep !in tokens[i] && ' ' !in tokens[i]
    ensures var hours := if c.showTwentyFourHours then c.hours24Format else c.hours12Format;
            var fields := [hours, c.minutesFormat] + (if c.showSeconds then [c.secondsFormat] else []);
            var clock := Join(fields, [sep]);
            && Split(GetTimeFormat(c), ' ') == [clock] + (if c.showTwentyFourHours then [] else [c.meridiemFormat])
            && Split(clock, sep) == fields
  {
    var tokens := [c.hours12Format, c.hours24Format, c.minutesFormat, c.secondsFormat, c.meridiemFormat];
    assert sep !in tokens[0] && ' ' !in tokens[0] && sep !in tokens[1] && ' ' !in tokens[1];
    assert sep !in tokens[2] && ' ' !in tokens[2] && sep !in tokens[3] && ' ' !in tokens[3];
    assert ' ' !in tokens[4];
    var hours := if c.showTwentyFourHours then c.hours24Format else c.hours12Format;
    var fields := [hours, c.minutesFormat] + (if c.showSeconds then [c.secondsFormat] else []);
    ClockTokens(hours, c.minutesFormat, c.secondsFormat, c.showSeconds, sep);
    var clock := Join(fields, [sep]);
    var parts := [clock] + (if c.showTwentyFourHours then [] else [c.meridiemFormat]);
    if c.showTwentyFourHours {
      assert Join(parts, [' ']) == clock == GetTimeFormat(c);
    } else {
      assert parts[1..] == [c.meridiemFormat];
      assert Join(parts, [' ']) == clock + [' '] + c.meridiemFormat == GetTimeFormat(c);
    }
    SplitJoin(parts, ' ');
  }

  /** The default configuration formats as `hh:mm A`; with seconds and
      24-hour display it formats as `HH:mm:ss`. */
  lemma DefaultTimeFormats(locale: string)
    ensures var none := RawTimeConfig(None, None, None, None, None, None, None, None, None, None, None,
                                      None, None, None, None);
            && GetTimeFormat(GetConfig(none, locale)) == "hh:mm A"
            && GetTimeFormat(GetConfig(none.(showSeconds := Some(true), showTwentyFourHours := Some(true)), locale))
               == "HH:mm:ss"
  {
  }

  // ---------------------------------------------------------------------------
  // Stepping

  /** The step of `unit` in seconds: one hour, `minutesInterval` minutes or
      `secondsInterval` seconds. */
  function StepSeconds(c: TimeConfig, unit: TimeUnit): (n: int)
    ensures unit == Hours ==> n == SecondsPerHour
    ensures unit == Minutes ==> n == c.minutesInterval * SecondsPerMinute
    ensures unit == Seconds ==> n == c.secondsInterval
  {
    match unit
    case Hours => SecondsPerHour
    case Minutes => c.minutesInterval * SecondsPerMinute
    case Seconds => c.secondsInterval
  }

  /** `increase`: the time one step of `unit` later. */
  function Increase(c: TimeConfig, t: DateTime, unit: TimeUnit): (r: DateTime)
    ensures Key(r, Second) == Key(t, Second) + StepSeconds(c, unit)
  {
    AddSeconds(t, StepSeconds(c, unit))
  }

  /** `decrease`: the time one step of `unit` earlier. */
  function Decrease(c: TimeConfig, t: DateTime, unit: TimeUnit): (r: DateTime)
    ensures Key(r, Second) == Key(t, Second) - StepSeconds(c, unit)
  {
    AddSeconds(t, -StepSeconds(c, unit))
  }

  /** A step up and a step down of the same unit cancel, in either order. */
  lemma StepsCancel(c: TimeConfig, t: DateTime, unit: TimeUnit)
    ensures Decrease(c, Increase(c, t, unit), unit) == t
    ensures Increase(c, Decrease(c, t, unit), unit) == t
  {
    SameSecondIsEqual(Decrease(c, Increase(c, t, unit), unit), t);
    SameSecondIsEqual(Increase(c, Decrease(c, t, unit), unit), t);
  }

  /** The hour of the day, `time.hour()`. */
  function HourOf(t: DateTime): (h: int)
    ensures 0 <= h < 24
  {
    t.secs / SecondsPerHour
  }

  /** `toggleMeridiem`: twelve hours later before noon, twelve hours earlier
      from noon on. The calendar day is kept and the hour moves by twelve. */
  function ToggleMeridiem(t: DateTime): (r: DateTime)
    ensures r.date == t.date
    ensures HourOf(t) < FirstPmHour ==> r.secs == t.secs + 12 * SecondsPerHour
    ensures HourOf(t) >= FirstPmHour ==> r.secs == t.secs - 12 * SecondsPerHour
    ensures HourOf(r) == (HourOf(t) + 12) % 24
  {
    if HourOf(t) < FirstPmHour then AddSeconds(t, 12 * SecondsPerHour)
    else AddSeconds(t, -12 * SecondsPerHour)
  }

  /** Toggling twice gives back the time. */
  lemma ToggleMeridiemIsInvolution(t: DateTime)
    ensures ToggleMeridiem(ToggleMeridiem(t)) == t
  {
  }

  // ---------------------------------------------------------------------------
  // Guards

  /** dayjs `a.isSameOrBefore(b)`, compared to the second. */
  predicate SameOrBefore(a: Moment, b: Moment) {
    IsSame(a, b, Second) || IsBefore(a, b, Second)
  }

  /** dayjs `a.isSameOrAfter(b)`, compared to the second. */
  predicate SameOrAfter(a: Moment, b: Moment) {
    IsSame(a, b, Second) || IsAfter(a, b, Second)
  }

  /** `newTime` is no earlier than `min` and its time of day no earlier than
      `minTime`, each where set. */
  predicate RespectsLower(c: TimeConfig, newTime: DateTime) {
    (c.min.None? || SameOrBefore(c.min.value, Valid(newTime)))
    && (c.minTime.None? || SameOrBefore(c.minTime.value, OnlyTime(Valid(newTime))))
  }

  /** `newTime` is no later than `max` and its time of day no later than
      `maxTime`, each where set. */
  predicate RespectsUpper(c: TimeConfig, newTime: DateTime) {
    (c.max.None? || SameOrAfter(c.max.value, Valid(newTime)))
    && (c.maxTime.None? || SameOrAfter(c.maxTime.value, OnlyTime(Valid(newTime))))
  }

  /** The time-of-day bounds sit on the date `onlyTime` projects onto, as
      `getConfig` leaves them. */
  predicate TimeBoundsProjected(c: TimeConfig) {
    ProjectedBound(c.minTime) && ProjectedBound(c.maxTime)
  }

  predicate ProjectedBound(b: Option<Moment>) {
    b.Some? && b.value.Valid? ==> b.value.at.date == TimeOnlyDate
  }

  /** `getConfig` leaves the time-of-day bounds projected. */
  lemma GetConfigProjectsTimeBounds(raw: RawTimeConfig, activeLocale: string)
    ensures TimeBoundsProjected(GetConfig(raw, activeLocale))
  {
  }

  /** The lower bounds in numbers: a valid `min` at or before `newTime`, a
      valid `minTime` at or before its time of day. */
  lemma RespectsLowerMeans(c: TimeConfig, newTime: DateTime)
    requires ProjectedBound(c.minTime)
    ensures RespectsLower(c, newTime) <==>
              (c.min.None? || (c.min.value.Valid? && Key(c.min.value.at, Second) <= Key(newTime, Second)))
              && (c.minTime.None? || (c.minTime.value.Valid? && c.minTime.value.at.secs <= newTime.secs))
  {
    if c.minTime.Some? && c.minTime.value.Valid? {
      MinTimeCompares(c.minTime.value, newTime);
    }
  }

  /** The upper bounds in numbers: a valid `max` at or after `newTime`, a
      valid `maxTime` at or after its time of day. */
  lemma RespectsUpperMeans(c: TimeConfig, newTime: DateTime)
    requires ProjectedBound(c.maxTime)
    ensures RespectsUpper(c, newTime) <==>
              (c.max.None? || (c.max.value.Valid? && Key(c.max.value.at, Second) >= Key(newTime, Second)))
              && (c.maxTime.None? || (c.maxTime.value.Valid? && c.maxTime.value.at.secs >= newTime.secs))
  {
    if c.maxTime.Some? && c.maxTime.value.Valid? {
      MinTimeCompares(c.maxTime.value, newTime);
    }
  }

  /** Comparing a bound to a time's `onlyTime` projection at the second. */
  lemma MinTimeCompares(b: Moment, t: DateTime)
    requires b.Valid?
    ensures SameOrBefore(b, OnlyTime(Valid(t))) <==> Key(b.at, Second) <= DayNumber(TimeOnlyDate) * SecondsPerDay + t.secs
    ensures SameOrAfter(b, OnlyTime(Valid(t))) <==> Key(b.at, Second) >= DayNumber(TimeOnlyDate) * SecondsPerDay + t.secs
  {
  }

  /** `shouldShowDecrease`: shown when no lower bound is set; otherwise
      exactly when the decreased time keeps to the lower bounds. */
  function ShouldShowDecrease(c: TimeConfig, t: DateTime, unit: TimeUnit): (r: bool)
    ensures c.min.None? && c.minTime.None? ==> r
    ensures r <==> RespectsLower(c, Decrease(c, t, unit))
  {
    if c.min.None? && c.minTime.None? then true
    else RespectsLower(c, Decrease(c, t, unit))
  }

  /** `shouldShowIncrease`: shown when no upper bound is set; otherwise
      exactly when the increased time keeps to the upper bounds. */
  function ShouldShowIncrease(c: TimeConfig, t: DateTime, unit: TimeUnit): (r: bool)
    ensures c.max.None? && c.maxTime.None? ==> r
    ensures r <==> RespectsUpper(c, Increase(c, t, unit))
  {
    if c.max.None? && c.maxTime.None? then true
    else RespectsUpper(c, Increase(c, t, unit))
  }

  /** `shouldShowToggleMeridiem`: shown when no bound at all is set;
      otherwise exactly when the toggled time keeps to all four bounds. */
  function ShouldShowToggleMeridiem(c: TimeConfig, t: DateTime): (r: bool)
    ensures c.min.None? && c.max.None? && c.minTime.None? && c.maxTime.None? ==> r
    ensures r <==> RespectsLower(c, ToggleMeridiem(t)) && RespectsUpper(c, ToggleMeridiem(t))
  {
    if c.min.None? && c.max.None? && c.minTime.None? && c.maxTime.None? then true
    else
      var newTime := ToggleMeridiem(t);
      RespectsUpper(c, newTime) && RespectsLower(c, newTime)
  }

  /** With a valid `min` as the only lower bound, stepping down is offered
      exactly when the step does not pass below `min`. */
  lemma DecreaseGuardIsExact(c: TimeConfig, t: DateTime, unit: TimeUnit)
    requires c.min.Some? && c.min.value.Valid? && c.minTime.None?
    ensures ShouldShowDecrease(c, t, unit)
            <==> Key(c.min.value.at, Second) <= Key(t, Second) - StepSeconds(c, unit)
  {
    RespectsLowerMeans(c, Decrease(c, t, unit));
  }

  /** With a valid `max` as the only upper bound, stepping up is offered
      exactly when the step does not pass above `max`. */
  lemma IncreaseGuardIsExact(c: TimeConfig, t: DateTime, unit: TimeUnit)
    requires c.max.Some? && c.max.value.Valid? && c.maxTime.None?
    ensures ShouldShowIncrease(c, t, unit)
            <==> Key(t, Second) + StepSeconds(c, unit) <= Key(c.max.value.at, Second)
  {
    RespectsUpperMeans(c, Increase(c, t, unit));
  }

  /** A time-of-day bound judges the toggled time by its hour alone: with
      only valid `minTime` and `maxTime` set, toggling is offered exactly
      when the toggled time of day lies between them. */
  lemma ToggleGuardOnTimesOfDay(c: TimeConfig, t: DateTime)
    requires TimeBoundsProjected(c)
    requires c.min.None? && c.max.None?
    requires c.minTime.Some? && c.minTime.value.Valid? && c.maxTime.Some? && c.maxTime.value.Valid?
    ensures ShouldShowToggleMeridiem(c, t)
            <==> c.minTime.value.at.secs <= ToggleMeridiem(t).secs <= c.maxTime.value.at.secs
  {
    RespectsLowerMeans(c, ToggleMeridiem(t));
    RespectsUpperMeans(c, ToggleMeridiem(t));
  }
}
