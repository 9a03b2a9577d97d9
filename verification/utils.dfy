/** The value normaliser and shared helpers of `UtilsService`: classifying the
    four shapes a picker value can take, converting them to and from the
    canonical sequence of dates, toggling a cell in a selection, the
    `' | '`-separated display string, and the small comparison helpers the
    calendars share. */
module Utils {
  import opened Wrappers
  import opened Dates
  import opened Strings

  /** `SingleCalendarValue`: a formatted string or a dayjs value. */
  datatype SingleValue = SingleText(text: string) | SingleDate(moment: Moment)

  /** `CalendarValue`: what a caller hands a picker. `Missing` stands for
      `null`/`undefined`. An empty array carries no element type at run time;
      `Texts([])` and `Many([])` both stand for it. */
  datatype CalendarValue =
    | Text(text: string)
    | Texts(texts: seq<string>)
    | One(moment: Moment)
    | Many(moments: seq<Moment>)
    | Missing

  /** `ECalendarValue`: the shape of a value. */
  datatype ValueKind = StringKind | StringArrKind | DateKind | DateArrKind

  /** `CalendarMode`. */
  datatype CalendarMode = DayMode | DayTimeMode | TimeMode | MonthMode | YearMode

  /** The separator the display string puts between dates. */
  const DatesSeparator: string := " | "

  /** JavaScript's `xs[i]`: the element, or `undefined` past either end. */
  function ElementAt<T>(xs: seq<T>, i: int): (r: Option<T>)
    ensures r.Some? <==> 0 <= i < |xs|
    ensures r.Some? ==> r.value == xs[i]
  {
    if 0 <= i < |xs| then Some(xs[i]) else None
  }

  /** `convertToDayjs`: nothing for an absent or empty value, a loose parse
      for a string, the date itself for a date. */
  function ConvertToDayjs(v: Option<SingleValue>, codec: Codec, format: string): (r: Option<Moment>)
    ensures r.None? <==> v.None? || v.value == SingleText("")
    ensures v.Some? && v.value.SingleDate? ==> r == Some(v.value.moment)
    ensures v.Some? && v.value.SingleText? && v.value.text != "" ==>
              r == Some(ToMoment(codec.parseLoose(v.value.text, format)))
  {
    match v
    case None => None
    case Some(SingleText(s)) => if s == "" then None else Some(ToMoment(codec.parseLoose(s, format)))
    case Some(SingleDate(m)) => Some(m)
  }

  // ---------------------------------------------------------------------------
  // Value normalisation

  /** `getInputType`: arrays are classified by their first element (an empty
      array counts as a date array), scalars by their own type, and a missing
      value by the selection mode. */
  function GetInputType(value: CalendarValue, allowMultiSelect: bool): (r: ValueKind)
    ensures r == StringKind <==> value.Text?
    ensures r == StringArrKind <==> value.Texts? && |value.texts| > 0
    ensures r == DateKind <==> value.One? || (value.Missing? && !allowMultiSelect)
    ensures r == DateArrKind <==>
              value.Many? || (value.Texts? && |value.texts| == 0) || (value.Missing? && allowMultiSelect)
  {
    match value
    case Texts(xs) => if |xs| == 0 then DateArrKind else StringArrKind
    case Many(_) => DateArrKind
    case Text(_) => StringKind
    case One(_) => DateKind
    case Missing => if allowMultiSelect then DateArrKind else DateKind
  }

  /** `dayjs(s, format, true)`: a failed strict parse is an invalid date. */
  function ParseStrict(codec: Codec, s: string, format: string): (m: Moment)
    ensures m.Valid? <==> codec.parseStrict(s, format).Some?
  {
    ToMoment(codec.parseStrict(s, format))
  }

  /** `convertToDayjsArray`: the canonical sequence of dates for any shape. */
  function ConvertToDayjsArray(codec: Codec, value: CalendarValue, allowMultiSelect: bool, format: string)
    : (r: seq<Moment>)
    ensures value.Text? && value.text == "" ==> r == []
    ensures value.Text? && value.text != "" ==> r == [ParseStrict(codec, value.text, format)]
    ensures value.Texts? ==>
              var kept := NonEmpty(value.texts);
              |r| == |kept| && forall i | 0 <= i < |r| :: r[i] == ParseStrict(codec, kept[i], format)
    ensures value.One? ==> r == [value.moment]
    ensures value.Many? ==> r == value.moments
    ensures value.Missing? ==> r == []
  {
    match GetInputType(value, allowMultiSelect)
    case StringKind =>
      if value.text == "" then [] else [ParseStrict(codec, value.text, format)]
    case StringArrKind =>
      var kept := NonEmpty(value.texts);
      seq(|kept|, i requires 0 <= i < |kept| => ParseStrict(codec, kept[i], format))
    case DateKind =>
      if value.One? then [value.moment] else []
    case DateArrKind =>
      if value.Many? then value.moments else []
  }

  /** `convertFromDayjsArray`: the canonical sequence in the requested shape.
      A single-valued shape takes the first date, or is missing when there is
      none. */
  function ConvertFromDayjsArray(codec: Codec, format: string, value: seq<Moment>, convertTo: ValueKind)
    : (r: CalendarValue)
    ensures convertTo == StringKind ==>
              (|value| == 0 ==> r == Missing) && (|value| > 0 ==> r == Text(Format(codec, value[0], format)))
    ensures convertTo == StringArrKind ==>
              r.Texts? && |r.texts| == |value|
              && forall i | 0 <= i < |value| :: r.texts[i] == Format(codec, value[i], format)
    ensures convertTo == DateKind ==>
              (|value| == 0 ==> r == Missing) && (|value| > 0 ==> r == One(value[0]))
    ensures convertTo == DateArrKind ==> r == Many(value)
  {
    match convertTo
    case StringKind => if |value| == 0 then Missing else Text(Format(codec, value[0], format))
    case StringArrKind => Texts(seq(|value|, i requires 0 <= i < |value| => Format(codec, value[i], format)))
    case DateKind => if |value| == 0 then Missing else One(value[0])
    case DateArrKind => Many(value)
  }

  /** Converting a selection to strings and back restores it, for a format
      that reads back what it writes; a single date survives every shape and
      any selection survives both array shapes. */
  lemma ConvertRoundTrip(codec: Codec, format: string, value: seq<Moment>, kind: ValueKind, allowMultiSelect: bool)
    requires RoundTrips(codec, format)
    requires codec.parseStrict(InvalidDateText, format).None?
    requires |value| <= 1 || kind == StringArrKind || kind == DateArrKind
    ensures ConvertToDayjsArray(codec, ConvertFromDayjsArray(codec, format, value, kind), allowMultiSelect, format)
            == value
  {
    var out := ConvertFromDayjsArray(codec, format, value, kind);
    var back := ConvertToDayjsArray(codec, out, allowMultiSelect, format);
    match kind
    case StringKind =>
      if |value| == 1 {
        FormatParsesBack(codec, format, value[0]);
      }
    case StringArrKind =>
      assert forall i | 0 <= i < |value| :: out.texts[i] != "" by {
        forall i | 0 <= i < |value| ensures out.texts[i] != "" {
          FormatParsesBack(codec, format, value[i]);
        }
      }
      assert NonEmpty(out.texts) == out.texts;
      forall i | 0 <= i < |value| ensures back[i] == value[i] {
        FormatParsesBack(codec, format, value[i]);
      }
    case DateKind =>
    case DateArrKind =>
  }

  /** Strict parsing reads back a formatted date, valid or not. */
  lemma FormatParsesBack(codec: Codec, format: string, m: Moment)
    requires RoundTrips(codec, format)
    requires codec.parseStrict(InvalidDateText, format).None?
    ensures Format(codec, m, format) != ""
    ensures ParseStrict(codec, Format(codec, m, format), format) == m
  {
    if m.Valid? {
      assert codec.parseStrict(codec.render(m.at, format), format) == Some(m.at);
    }
  }

  // ---------------------------------------------------------------------------
  // The display string

  /** Each date formatted with `format`, in order. */
  function FormatAll(codec: Codec, ms: seq<Moment>, format: string): (r: seq<string>)
    ensures |r| == |ms|
    ensures forall i | 0 <= i < |ms| :: r[i] == Format(codec, ms[i], format)
  {
    seq(|ms|, i requires 0 <= i < |ms| => Format(codec, ms[i], format))
  }

  /** Each text read loosely with `format` (`convertToDayjs`) and formatted
      back with it, in order. */
  function ReformatAll(codec: Codec, xs: seq<string>, format: string): (r: seq<string>)
    ensures |r| == |xs|
    ensures forall i | 0 <= i < |xs| :: r[i] == Format(codec, ToMoment(codec.parseLoose(xs[i], format)), format)
  {
    seq(|xs|, i requires 0 <= i < |xs| => Format(codec, ToMoment(codec.parseLoose(xs[i], format)), format))
  }

  /** `convertToString`: the value's dates formatted and joined by `' | '`,
      empty strings dropped. A string array holding an empty string makes the
      source read `format` of `null`, which throws. */
  function ConvertToString(codec: Codec, value: CalendarValue, format: string): (r: Result<string>)
    ensures r.Err? <==> value.Texts? && exists i | 0 <= i < |value.texts| :: value.texts[i] == ""
    ensures value.Missing? ==> r == Ok("")
    ensures value.Text? ==> r == Ok(value.text)
    ensures value.One? ==> r == Ok(Format(codec, value.moment, format))
    ensures value.Many? ==> r == Ok(Join(NonEmpty(FormatAll(codec, value.moments, format)), DatesSeparator))
    ensures value.Texts? && r.Ok? ==>
              r == Ok(Join(NonEmpty(ReformatAll(codec, value.texts, format)), DatesSeparator))
  {
    match value
    case Text(s) => Ok(Join(NonEmpty([s]), DatesSeparator))
    case Texts(xs) =>
      if exists i | 0 <= i < |xs| :: xs[i] == "" then Err("Cannot read properties of null (reading 'format')")
      else Ok(Join(NonEmpty(ReformatAll(codec, xs, format)), DatesSeparator))
    case One(m) => Ok(Join(NonEmpty([Format(codec, m, format)]), DatesSeparator))
    case Many(ms) => Ok(Join(NonEmpty(FormatAll(codec, ms, format)), DatesSeparator))
    case Missing => Ok("")
  }

  /** `datesStringToStringArray`: the trimmed, non-empty pieces between `'|'`. */
  function DatesStringToStringArray(value: string): (r: seq<string>)
    ensures forall i | 0 <= i < |r| :: r[i] != "" && IsTrimmed(r[i]) && '|' !in r[i]
  {
    NonEmpty(TrimAll(Split(value, '|')))
  }

  /** `xs.map(x => x.trim())`. */
  function TrimAll(xs: seq<string>): (r: seq<string>)
    ensures |r| == |xs|
    ensures forall i | 0 <= i < |xs| :: r[i] == Trim(xs[i]) && IsTrimmed(r[i])
    ensures forall i | 0 <= i < |xs| :: '|' !in xs[i] ==> '|' !in r[i]
  {
    forall i | 0 <= i < |xs| && '|' !in xs[i] ensures '|' !in Trim(xs[i]) {
      TrimKeepsAbsent(xs[i], '|');
    }
    seq(|xs|, i requires 0 <= i < |xs| => Trim(xs[i]))
  }

  /** An entry the display string can carry unchanged: non-empty, trimmed and
      free of the separator. */
  predicate IsDisplayEntry(s: string) {
    s != "" && IsTrimmed(s) && '|' !in s
  }

  /** Splitting a joined display string gives the entries back. */
  lemma DisplayStringRoundTrip(xs: seq<string>)
    requires forall i | 0 <= i < |xs| :: IsDisplayEntry(xs[i])
    ensures DatesStringToStringArray(Join(xs, DatesSeparator)) == xs
  {
    if |xs| == 0 {
      EmptyDisplayString();
    } else {
      JoinedPiecesTrim(xs);
    }
  }

  lemma JoinedPiecesTrim(xs: seq<string>)
    requires |xs| >= 1
    requires forall i | 0 <= i < |xs| :: IsDisplayEntry(xs[i])
    ensures TrimAll(Split(Join(xs, DatesSeparator), '|')) == xs
  {
    var joined := Join(xs, DatesSeparator);
    assert joined == "" + joined;
    SplitPaddedJoin(xs, "", joined);
  }

  lemma EmptyDisplayString()
    ensures DatesStringToStringArray("") == []
  {
    assert Split("", '|') == [""];
    assert Trim("") == "";
    assert TrimAll([""]) == [""];
  }

  predicate AllWhitespace(p: string) {
    forall k | 0 <= k < |p| :: IsWhitespace(p[k])
  }

  /** The pieces of `s = p + Join(xs, " | ")` trim back to `xs`, for a
      white-space prefix `p`. */
  lemma {:induction false} SplitPaddedJoin(xs: seq<string>, p: string, s: string)
    requires |xs| >= 1
    requires forall i | 0 <= i < |xs| :: IsDisplayEntry(xs[i])
    requires AllWhitespace(p) && '|' !in p
    requires s == p + Join(xs, DatesSeparator)
    ensures |Split(s, '|')| == |xs|
    ensures forall i | 0 <= i < |xs| :: Trim(Split(s, '|')[i]) == xs[i]
    decreases |xs|
  {
    var x := xs[0];
    if |xs| == 1 {
      assert s == p + x;
      SplitWithoutSeparator(p + x, '|');
      TrimPadded(p, x, "");
      assert p + x + "" == p + x;
    } else {
      var rest := Join(xs[1..], DatesSeparator);
      assert s == (p + x + " ") + ['|'] + (" " + rest);
      assert '|' !in p + x + " ";
      SplitAtFirst(p + x + " ", '|', " " + rest);
      SplitPaddedJoin(xs[1..], " ", " " + rest);
      TrimPadded(p, x, " ");
    }
  }

  /** Trimming removes white-space padding around a trimmed entry. */
  lemma TrimPadded(p: string, x: string, q: string)
    requires AllWhitespace(p) && AllWhitespace(q)
    requires x != "" && IsTrimmed(x)
    ensures Trim(p + x + q) == x
  {
    assert TrimStart(p + x + q) == x + q by {
      assert p + x + q == p + (x + q);
      TrimStartSkips(p, x + q);
      assert (x + q)[0] == x[0];
    }
    assert TrimEnd(x + q) == x by {
      TrimEndSkips(x, q);
    }
    TrimIsBothEnds(p + x + q);
  }

  lemma {:induction false} TrimStartSkips(p: string, s: string)
    requires AllWhitespace(p)
    ensures TrimStart(p + s) == TrimStart(s)
    decreases |p|
  {
    if |p| > 0 {
      assert (p + s)[1..] == p[1..] + s;
      TrimStartSkips(p[1..], s);
    } else {
      assert p + s == s;
    }
  }

  lemma {:induction false} TrimEndSkips(s: string, q: string)
    requires AllWhitespace(q)
    ensures TrimEnd(s + q) == TrimEnd(s)
    decreases |q|
  {
    if |q| > 0 {
      assert (s + q)[..|s + q| - 1] == s + q[..|q| - 1];
      TrimEndSkips(s, q[..|q| - 1]);
    } else {
      assert s + q == s;
    }
  }

  /** What the picker shows reads back as the formatted dates, when each
      formatted date is a display entry. */
  lemma DisplayOfDates(codec: Codec, ms: seq<Moment>, format: string)
    requires forall i | 0 <= i < |ms| :: IsDisplayEntry(Format(codec, ms[i], format))
    ensures ConvertToString(codec, Many(ms), format).Ok?
    ensures DatesStringToStringArray(ConvertToString(codec, Many(ms), format).value)
            == FormatAll(codec, ms, format)
  {
    var formatted := FormatAll(codec, ms, format);
    assert NonEmpty(formatted) == formatted;
    DisplayStringRoundTrip(formatted);
  }

  /** The same for a string array: the display string of non-empty texts
      reads back as the texts re-formatted, when each is a display entry. */
  lemma DisplayOfTexts(codec: Codec, xs: seq<string>, format: string)
    requires forall i | 0 <= i < |xs| :: xs[i] != ""
    requires forall i | 0 <= i < |xs| ::
               IsDisplayEntry(Format(codec, ToMoment(codec.parseLoose(xs[i], format)), format))
    ensures ConvertToString(codec, Texts(xs), format).Ok?
    ensures DatesStringToStringArray(ConvertToString(codec, Texts(xs), format).value)
            == ReformatAll(codec, xs, format)
  {
    var formatted := ReformatAll(codec, xs, format);
    assert NonEmpty(formatted) == formatted;
    DisplayStringRoundTrip(formatted);
  }

  // ---------------------------------------------------------------------------
  // Selection

  /** The elements of `xs` not equal to `d` at granularity `g`, in order. */
  function Unselect(xs: seq<Moment>, d: Moment, g: Granularity): (r: seq<Moment>)
    ensures |r| <= |xs|
    ensures forall i | 0 <= i < |r| :: !IsSame(r[i], d, g)
    decreases |xs|
  {
    if |xs| == 0 then []
    else
      var rest := Unselect(xs[1..], d, g);
      if IsSame(xs[0], d, g) then rest else [xs[0]] + rest
  }

  /** Unselecting keeps every other date as often as it occurred. */
  lemma {:induction false} UnselectKeepsOthers(xs: seq<Moment>, d: Moment, g: Granularity)
    ensures forall x | !IsSame(x, d, g) :: multiset(Unselect(xs, d, g))[x] == multiset(xs)[x]
    decreases |xs|
  {
    if |xs| > 0 {
      UnselectKeepsOthers(xs[1..], d, g);
      assert xs == [xs[0]] + xs[1..];
    }
  }

  /** `updateSelected`: clicking a cell adds it when it is not selected and
      removes every date equal to it at `granularity` when it is; in
      single-select mode the selection becomes that date or nothing. */
  function UpdateSelected(isMultiple: bool, current: seq<Moment>, date: DateTime, isSelected: bool,
                          granularity: Granularity): (r: seq<Moment>)
    ensures isMultiple && !isSelected ==> r == current + [Valid(date)]
    ensures isMultiple && isSelected ==>
              r == Unselect(current, Valid(date), granularity)
              && (forall i | 0 <= i < |r| :: !IsSame(r[i], Valid(date), granularity))
              && forall x | !IsSame(x, Valid(date), granularity) :: multiset(r)[x] == multiset(current)[x]
    ensures !isMultiple ==> r == (if isSelected then [] else [Valid(date)])
  {
    if isMultiple then
      if !isSelected then current + [Valid(date)]
      else
        UnselectKeepsOthers(current, Valid(date), granularity);
        Unselect(current, Valid(date), granularity)
    else
      if !isSelected then [Valid(date)] else []
  }

  /** Unselecting a single date keeps it exactly when it differs from `d`. */
  lemma UnselectSingleton(x: Moment, d: Moment, g: Granularity)
    ensures Unselect([x], d, g) == (if IsSame(x, d, g) then [] else [x])
  {
    assert [x][1..] == [];
  }

  /** Unselecting distributes over concatenation; with `UnselectSingleton`
      this pins `Unselect` down as the order-keeping `filter`. */
  lemma {:induction false} UnselectAppend(xs: seq<Moment>, ys: seq<Moment>, d: Moment, g: Granularity)
    ensures Unselect(xs + ys, d, g) == Unselect(xs, d, g) + Unselect(ys, d, g)
    decreases |xs|
  {
    if |xs| > 0 {
      assert (xs + ys)[0] == xs[0];
      assert (xs + ys)[1..] == xs[1..] + ys;
      UnselectAppend(xs[1..], ys, d, g);
      var rest := Unselect(xs[1..], d, g);
      if IsSame(xs[0], d, g) {
        assert Unselect(xs + ys, d, g) == rest + Unselect(ys, d, g);
      } else {
        assert Unselect(xs + ys, d, g) == [xs[0]] + (rest + Unselect(ys, d, g));
      }
    } else {
      assert xs + ys == ys;
    }
  }

  lemma {:induction false} UnselectKeepsUnrelated(xs: seq<Moment>, d: Moment, g: Granularity)
    requires forall i | 0 <= i < |xs| :: !IsSame(xs[i], d, g)
    ensures Unselect(xs, d, g) == xs
    decreases |xs|
  {
    if |xs| > 0 {
      UnselectKeepsUnrelated(xs[1..], d, g);
    }
  }

  /** In multi-select mode, clicking an unselected cell twice restores the
      selection, provided no selected date matched it. */
  lemma ToggleTwice(current: seq<Moment>, date: DateTime, g: Granularity)
    requires forall i | 0 <= i < |current| :: !IsSame(current[i], Valid(date), g)
    ensures UpdateSelected(true, UpdateSelected(true, current, date, false, g), date, true, g) == current
  {
    UnselectAppend(current, [Valid(date)], Valid(date), g);
    UnselectKeepsUnrelated(current, Valid(date), g);
    assert Unselect([Valid(date)], Valid(date), g) == [];
  }

  // ---------------------------------------------------------------------------
  // Comparison helpers

  /** The date `onlyTime` projects onto: a fixed date, where the source uses
      the date at the moment of each call (see `Utils.OnlyTime` under
      "Left out" in the README). */
  const TimeOnlyDate: Date := Civil(1970, 1, 1)

  /** `onlyTime`: the time of day of `m`, placed on a fixed date. */
  function OnlyTime(m: Moment): (r: Moment)
    ensures r.Valid? <==> m.Valid?
    ensures m.Valid? ==> r.at.secs == m.at.secs
  {
    match m
    case Valid(t) => Valid(DateTime(TimeOnlyDate, t.secs))
    case Invalid => Invalid
  }

  /** Comparing `onlyTime` projections compares times of day. */
  lemma OnlyTimeCompares(a: Moment, b: Moment)
    requires a.Valid? && b.Valid?
    ensures IsSame(OnlyTime(a), OnlyTime(b), Second) <==> a.at.secs == b.at.secs
    ensures IsBefore(OnlyTime(a), OnlyTime(b), Second) <==> a.at.secs < b.at.secs
    ensures IsAfter(OnlyTime(a), OnlyTime(b), Second) <==> a.at.secs > b.at.secs
  {
  }

  /** `granularityFromType`: time and day-time pickers compare to the second,
      the others at their own unit. */
  function GranularityFromType(mode: CalendarMode): (g: Granularity)
    ensures mode == TimeMode || mode == DayTimeMode <==> g == Second
    ensures mode == DayMode <==> g == Day
    ensures mode == MonthMode <==> g == Month
    ensures mode == YearMode <==> g == Year
  {
    match mode
    case TimeMode => Second
    case DayTimeMode => Second
    case DayMode => Day
    case MonthMode => Month
    case YearMode => Year
  }

  /** `isDateInRange`: `date` lies between `from` and `to`, both inclusive, at
      day granularity. */
  function IsDateInRange(date: Moment, from: Moment, to: Moment): (r: bool)
    ensures r ==> date.Valid? && from.Valid? && to.Valid?
    ensures date.Valid? && from.Valid? && to.Valid? ==>
              (r <==> !Precedes(date.at.date, from.at.date) && !Precedes(to.at.date, date.at.date))
  {
    var r := (IsAfter(date, from, Day) || IsSame(date, from, Day)) && (IsBefore(date, to, Day) || IsSame(date, to, Day));
    if date.Valid? && from.Valid? && to.Valid? then
      DayOrderIsCalendarOrder(date.at.date, from.at.date);
      DayOrderIsCalendarOrder(to.at.date, date.at.date);
      r
    else
      r
  }

  /** Day numbers order dates as the calendar does. */
  lemma DayOrderIsCalendarOrder(a: Date, b: Date)
    ensures DayNumber(a) < DayNumber(b) <==> Precedes(a, b)
  {
    if Precedes(a, b) {
      DayNumberMonotone(a, b);
    } else if a != b {
      DayNumberMonotone(b, a);
    }
  }

  /** The min/max bounds every resolved calendar configuration carries. */
  datatype Bounds = Bounds(min: Option<Moment>, max: Option<Moment>)

  /** A bound that appeared or moved to another day. */
  predicate BoundChanged(prev: Option<Moment>, cur: Option<Moment>) {
    cur.Some? && (prev.None? || !IsSame(prev.value, cur.value, Day))
  }

  /** `shouldResetCurrentView`: the view must move when a min or max bound
      appears or changes day; removing a bound, or a missing configuration,
      never resets it. */
  function ShouldResetCurrentView(prevConf: Option<Bounds>, currentConf: Option<Bounds>): (r: bool)
    ensures r <==> prevConf.Some? && currentConf.Some?
                   && (BoundChanged(prevConf.value.min, currentConf.value.min)
                       || BoundChanged(prevConf.value.max, currentConf.value.max))
  {
    if prevConf.Some? && currentConf.Some? then
      var prev, cur := prevConf.value, currentConf.value;
      if prev.min.None? && cur.min.Some? then true
      else if prev.min.Some? && cur.min.Some? && !IsSame(prev.min.value, cur.min.value, Day) then true
      else if prev.max.None? && cur.max.Some? then true
      else if prev.max.Some? && cur.max.Some? && !IsSame(prev.max.value, cur.max.value, Day) then true
      else false
    else false
  }

  /** Removing bounds, or keeping them on the same day, never resets the view. */
  lemma RemovingBoundsKeepsView(prev: Bounds, cur: Bounds)
    requires cur.min.None? || (prev.min.Some? && IsSame(prev.min.value, cur.min.value, Day))
    requires cur.max.None? || (prev.max.Some? && IsSame(prev.max.value, cur.max.value, Day))
    ensures !ShouldResetCurrentView(Some(prev), Some(cur))
  {
  }

  // ---------------------------------------------------------------------------
  // Default display date

  /** `getDefaultDisplayDate` as written: the current view if any, else a
      future min date, else the selected date, else now. In multi-select mode
      the source reads `selected[selected.length]`, one past the end, so the
      selection is never used there. */
  function GetDefaultDisplayDate(current: Option<Moment>, selected: seq<Moment>, allowMultiSelect: bool,
                                 minDate: Option<Moment>, now: DateTime): (r: Moment)
    ensures current.Some? ==> r == current.value
    ensures current.None? && minDate.Some? && IsAfter(minDate.value, Valid(now), Second) ==> r == minDate.value
    ensures r == Valid(now) || Some(r) == current || Some(r) == minDate || (|selected| > 0 && r == selected[0])
  {
    if current.Some? then current.value
    else if minDate.Some? && IsAfter(minDate.value, Valid(now), Second) then minDate.value
    else if allowMultiSelect then
      var last := ElementAt(selected, |selected|);
      if last.Some? then last.value else Valid(now)
    else if |selected| > 0 then selected[0]
    else Valid(now)
  }

  /** The out-of-bounds read: with several dates selected in multi-select mode
      and nothing else to go by, the default display date is now, not the last
      selected date. */
  lemma DefaultDisplayIgnoresMultiSelection(selected: seq<Moment>, now: DateTime)
    requires |selected| > 0
    ensures GetDefaultDisplayDate(None, selected, true, None, now) == Valid(now)
  {
  }

  /** `getDefaultDisplayDate` as evidently intended: in multi-select mode the
      last selected date is shown. */
  function GetDefaultDisplayDateIntended(current: Option<Moment>, selected: seq<Moment>, allowMultiSelect: bool,
                                         minDate: Option<Moment>, now: DateTime): (r: Moment)
    ensures current.Some? ==> r == current.value
    ensures current.None? && minDate.Some? && IsAfter(minDate.value, Valid(now), Second) ==> r == minDate.value
    ensures current.None? && !(minDate.Some? && IsAfter(minDate.value, Valid(now), Second)) && |selected| > 0 ==>
              r == (if allowMultiSelect then selected[|selected| - 1] else selected[0])
    ensures current.None? && !(minDate.Some? && IsAfter(minDate.value, Valid(now), Second)) && |selected| == 0 ==>
              r == Valid(now)
  {
    if current.Some? then current.value
    else if minDate.Some? && IsAfter(minDate.value, Valid(now), Second) then minDate.value
    else if allowMultiSelect then
      var last := ElementAt(selected, |selected| - 1);
      if last.Some? then last.value else Valid(now)
    else if |selected| > 0 then selected[0]
    else Valid(now)
  }

  /** The two definitions differ exactly in multi-select mode with a
      selection and nothing earlier to go by. */
  lemma DefaultDisplayFixAgreesElsewhere(current: Option<Moment>, selected: seq<Moment>, allowMultiSelect: bool,
                                         minDate: Option<Moment>, now: DateTime)
    requires !allowMultiSelect || |selected| == 0 || current.Some?
             || (minDate.Some? && IsAfter(minDate.value, Valid(now), Second))
    ensures GetDefaultDisplayDate(current, selected, allowMultiSelect, minDate, now)
            == GetDefaultDisplayDateIntended(current, selected, allowMultiSelect, minDate, now)
  {
  }
}
