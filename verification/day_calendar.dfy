/** `DayCalendarService`: the 6×7 month board aligned to a configurable first
    day of the week, the weekday maps, the disabling rule, the navigation
    guards and the configuration merge. */
module DayCalendar {
  import opened Wrappers
  import opened Dates
  import opened Utils

  // ---------------------------------------------------------------------------
  // Week days

  /** `WeekDays`: `'su'` .. `'sa'`. */
  datatype WeekDay = Su | Mo | Tu | We | Th | Fr | Sa

  /** `DAYS`, in dayjs's `day()` order. */
  const Days: seq<WeekDay> := [Su, Mo, Tu, We, Th, Fr, Sa]

  /** `DAYS.indexOf(d)`: the dayjs weekday number of `d`. */
  function IndexOfDay(d: WeekDay): (i: nat)
    ensures i < 7 && Days[i] == d
  {
    match d
    case Su => 0
    case Mo => 1
    case Tu => 2
    case We => 3
    case Th => 4
    case Fr => 5
    case Sa => 6
  }

  /** `DAYS.slice(k, 7).concat(DAYS.slice(0, k))` for `k` the index of the
      first day: the week as the board's columns show it. */
  function Rotated(first: WeekDay): (r: seq<WeekDay>)
    ensures |r| == 7
    ensures forall i | 0 <= i < 7 :: r[i] == Days[(IndexOfDay(first) + i) % 7]
  {
    var k := IndexOfDay(first);
    Days[k..7] + Days[..k]
  }

  /** The `reduce` that writes `map[xs[i]] = i` for the first `n` elements. */
  function DayToIndex(xs: seq<WeekDay>, n: nat): map<WeekDay, int>
    requires n <= |xs|
  {
    if n == 0 then map[] else DayToIndex(xs, n - 1)[xs[n - 1] := n - 1]
  }

  /** The `reduce` that writes `map[i] = xs[i]` for the first `n` elements. */
  function IndexToDay(xs: seq<WeekDay>, n: nat): map<int, WeekDay>
    requires n <= |xs|
  {
    if n == 0 then map[] else IndexToDay(xs, n - 1)[n - 1 := xs[n - 1]]
  }

  /** For distinct elements, the first `n` land at their own positions. */
  lemma {:induction false} DayToIndexPositions(xs: seq<WeekDay>, n: nat)
    requires n <= |xs|
    requires forall i, j | 0 <= i < j < |xs| :: xs[i] != xs[j]
    ensures forall j | 0 <= j < n :: xs[j] in DayToIndex(xs, n) && DayToIndex(xs, n)[xs[j]] == j
  {
    if n > 0 {
      DayToIndexPositions(xs, n - 1);
    }
  }

  lemma {:induction false} IndexToDayPositions(xs: seq<WeekDay>, n: nat)
    requires n <= |xs|
    ensures forall j :: j in IndexToDay(xs, n) <==> 0 <= j < n
    ensures forall j | 0 <= j < n :: IndexToDay(xs, n)[j] == xs[j]
  {
    if n > 0 {
      IndexToDayPositions(xs, n - 1);
    }
  }

  lemma RotatedIsDistinct(first: WeekDay)
    ensures forall i, j | 0 <= i < j < 7 :: Rotated(first)[i] != Rotated(first)[j]
  {
    var r := Rotated(first);
    forall i, j | 0 <= i < j < 7 ensures r[i] != r[j] {
      var a, b := (IndexOfDay(first) + i) % 7, (IndexOfDay(first) + j) % 7;
      assert a != b;
      assert Days[a] != Days[b];
    }
  }

  /** Residues modulo 7: stepping forward from `a` by `(b - a) % 7` reaches `b`. */
  lemma StepBack(b: int, a: int)
    requires 0 <= a < 7 && 0 <= b < 7
    ensures 0 <= (b - a) % 7 < 7
    ensures (a + (b - a) % 7) % 7 == b
    ensures (b - (b - a) % 7) % 7 == a
  {
    if b >= a {
      assert (b - a) % 7 == b - a;
    } else {
      assert (b - a) % 7 == b - a + 7;
    }
  }

  /** Numbers less than 7 apart have different residues modulo 7. */
  lemma DistinctResidues(x: int, y: int)
    requires 0 < y - x < 7
    ensures x % 7 != y % 7
  {
    assert y == x + (y - x);
  }

  /** `m` gives every week day a column 0..6, week day `(a + i) mod 7` in
      column `i`. */
  ghost predicate ColumnOfDay(a: int, m: map<WeekDay, int>) {
    forall d: WeekDay :: d in m && 0 <= m[d] < 7 && IndexOfDay(d) == (a + m[d]) % 7
  }

  /** `n` is defined on exactly the columns 0..6 and shows week day
      `(a + i) mod 7` in column `i`. */
  ghost predicate DayOfColumn(a: int, n: map<int, WeekDay>) {
    && (forall i: int :: i in n <==> 0 <= i < 7)
    && (forall i | 0 <= i < 7 :: IndexOfDay(n[i]) == (a + i) % 7)
  }

  /** `generateDaysMap`: the column each week day is shown in, the first day
      of the week in column 0. */
  function GenerateDaysMap(first: WeekDay): (m: map<WeekDay, int>)
    ensures ColumnOfDay(IndexOfDay(first), m)
    ensures m[first] == 0
  {
    forall d: WeekDay ensures d in DayToIndex(Rotated(first), 7)
                              && 0 <= DayToIndex(Rotated(first), 7)[d] < 7
                              && IndexOfDay(d) == (IndexOfDay(first) + DayToIndex(Rotated(first), 7)[d]) % 7 {
      DaysMapEntry(first, d);
    }
    DaysMapEntry(first, first);
    DayToIndex(Rotated(first), 7)
  }

  lemma DaysMapEntry(first: WeekDay, d: WeekDay)
    ensures d in DayToIndex(Rotated(first), 7)
    ensures DayToIndex(Rotated(first), 7)[d] == (IndexOfDay(d) - IndexOfDay(first)) % 7
    ensures IndexOfDay(d) == (IndexOfDay(first) + (IndexOfDay(d) - IndexOfDay(first)) % 7) % 7
  {
    var xs := Rotated(first);
    RotatedIsDistinct(first);
    DayToIndexPositions(xs, 7);
    var j := (IndexOfDay(d) - IndexOfDay(first)) % 7;
    StepBack(IndexOfDay(d), IndexOfDay(first));
    assert xs[j] == Days[IndexOfDay(d)] == d;
  }

  /** `generateDaysIndexMap`: the week day shown in each column. */
  function GenerateDaysIndexMap(first: WeekDay): (m: map<int, WeekDay>)
    ensures DayOfColumn(IndexOfDay(first), m)
  {
    IndexToDayPositions(Rotated(first), 7);
    IndexToDay(Rotated(first), 7)
  }

  /** The two maps are inverse bijections between the week days and the
      columns 0..6. */
  lemma DaysMapsAreInverse(first: WeekDay)
    ensures forall d: WeekDay :: GenerateDaysMap(first)[d] in GenerateDaysIndexMap(first)
                                 && GenerateDaysIndexMap(first)[GenerateDaysMap(first)[d]] == d
    ensures forall i | 0 <= i < 7 :: GenerateDaysIndexMap(first)[i] in GenerateDaysMap(first)
                                     && GenerateDaysMap(first)[GenerateDaysIndexMap(first)[i]] == i
  {
    forall d: WeekDay ensures GenerateDaysMap(first)[d] in GenerateDaysIndexMap(first)
                              && GenerateDaysIndexMap(first)[GenerateDaysMap(first)[d]] == d {
      InverseAtDay(first, d);
    }
    forall i | 0 <= i < 7 ensures GenerateDaysIndexMap(first)[i] in GenerateDaysMap(first)
                                  && GenerateDaysMap(first)[GenerateDaysIndexMap(first)[i]] == i {
      InverseAtColumn(first, i);
    }
  }

  lemma InverseAtDay(first: WeekDay, d: WeekDay)
    ensures GenerateDaysMap(first)[d] in GenerateDaysIndexMap(first)
    ensures GenerateDaysIndexMap(first)[GenerateDaysMap(first)[d]] == d
  {
    DayRoundTrip(IndexOfDay(first), GenerateDaysMap(first), GenerateDaysIndexMap(first), d);
  }

  lemma InverseAtColumn(first: WeekDay, i: int)
    requires 0 <= i < 7
    ensures GenerateDaysIndexMap(first)[i] in GenerateDaysMap(first)
    ensures GenerateDaysMap(first)[GenerateDaysIndexMap(first)[i]] == i
  {
    ColumnRoundTrip(IndexOfDay(first), GenerateDaysMap(first), GenerateDaysIndexMap(first), i);
  }


  lemma DayRoundTrip(a: int, m: map<WeekDay, int>, n: map<int, WeekDay>, d: WeekDay)
    requires ColumnOfDay(a, m) && DayOfColumn(a, n)
    ensures m[d] in n && n[m[d]] == d
  {
    var e := n[m[d]];
    assert IndexOfDay(e) == IndexOfDay(d);
    assert e == Days[IndexOfDay(e)];
  }

  lemma ColumnRoundTrip(a: int, m: map<WeekDay, int>, n: map<int, WeekDay>, i: int)
    requires ColumnOfDay(a, m) && DayOfColumn(a, n) && 0 <= i < 7
    ensures n[i] in m && m[n[i]] == i
  {
    var d := n[i];
    assert IndexOfDay(d) == (a + i) % 7;
    assert IndexOfDay(d) == (a + m[d]) % 7;
    ResidueInjective(a, i, m[d]);
  }

  lemma ResidueInjective(a: int, i: int, j: int)
    requires 0 <= i < 7 && 0 <= j < 7 && (a + i) % 7 == (a + j) % 7
    ensures i == j
  {
    if j < i {
      DistinctResidues(a + j, a + i);
    } else if i < j {
      DistinctResidues(a + i, a + j);
    }
  }

  // ---------------------------------------------------------------------------
  // Configuration

  /** The resolved `IDayCalendarConfigInternal` fields the services read. */
  datatype DayConfig = DayConfig(
    showNearMonthDays: bool,
    showWeekNumbers: bool,
    firstDayOfWeek: WeekDay,
    weekDayFormat: string,
    format: string,
    allowMultiSelect: bool,
    monthFormat: string,
    enableMonthSelector: bool,
    locale: string,
    dayBtnFormat: string,
    unSelectOnClick: bool,
    min: Option<Moment>,
    max: Option<Moment>)

  /** The caller's callbacks, kept apart from the data so that configurations
      compare by value. */
  datatype DayHooks = DayHooks(
    isDayDisabled: Option<Moment -> bool>,
    monthFormatter: Option<Moment -> string>,
    dayBtnFormatter: Option<Moment -> string>)

  /** `IDayCalendarConfig` as the caller hands it: every field may be
      undefined. */
  datatype RawDayConfig = RawDayConfig(
    showNearMonthDays: Option<bool>,
    showWeekNumbers: Option<bool>,
    firstDayOfWeek: Option<WeekDay>,
    weekDayFormat: Option<string>,
    format: Option<string>,
    allowMultiSelect: Option<bool>,
    monthFormat: Option<string>,
    enableMonthSelector: Option<bool>,
    locale: Option<string>,
    dayBtnFormat: Option<string>,
    unSelectOnClick: Option<bool>,
    min: Option<SingleValue>,
    max: Option<SingleValue>)

  /** `getConfig`: the caller's defined fields over `DEFAULT_CONFIG`, then
      `min` and `max` converted with the merged format. The default locale is
      the one dayjs has active when the service is built. */
  function GetConfig(raw: RawDayConfig, codec: Codec, activeLocale: string): (c: DayConfig)
    ensures c.showNearMonthDays == raw.showNearMonthDays.GetOr(true)
    ensures c.showWeekNumbers == raw.showWeekNumbers.GetOr(false)
    ensures c.firstDayOfWeek == raw.firstDayOfWeek.GetOr(Su)
    ensures c.weekDayFormat == raw.weekDayFormat.GetOr("ddd")
    ensures c.format == raw.format.GetOr("DD-MM-YYYY")
    ensures c.allowMultiSelect == raw.allowMultiSelect.GetOr(false)
    ensures c.monthFormat == raw.monthFormat.GetOr("MMM, YYYY")
    ensures c.enableMonthSelector == raw.enableMonthSelector.GetOr(true)
    ensures c.locale == raw.locale.GetOr(activeLocale)
    ensures c.dayBtnFormat == raw.dayBtnFormat.GetOr("DD")
    ensures c.unSelectOnClick == raw.unSelectOnClick.GetOr(true)
    ensures c.min == ConvertToDayjs(raw.min, codec, c.format)
    ensures c.max == ConvertToDayjs(raw.max, codec, c.format)
  {
    var format := raw.format.GetOr("DD-MM-YYYY");
    DayConfig(
      raw.showNearMonthDays.GetOr(true),
      raw.showWeekNumbers.GetOr(false),
      raw.firstDayOfWeek.GetOr(Su),
      raw.weekDayFormat.GetOr("ddd"),
      format,
      raw.allowMultiSelect.GetOr(false),
      raw.monthFormat.GetOr("MMM, YYYY"),
      raw.enableMonthSelector.GetOr(true),
      raw.locale.GetOr(activeLocale),
      raw.dayBtnFormat.GetOr("DD"),
      raw.unSelectOnClick.GetOr(true),
      ConvertToDayjs(raw.min, codec, format),
      ConvertToDayjs(raw.max, codec, format))
  }

  /** A resolved configuration handed back as a caller's configuration. */
  function AsRaw(c: DayConfig): RawDayConfig {
    RawDayConfig(
      Some(c.showNearMonthDays), Some(c.showWeekNumbers), Some(c.firstDayOfWeek), Some(c.weekDayFormat),
      Some(c.format), Some(c.allowMultiSelect), Some(c.monthFormat), Some(c.enableMonthSelector),
      Some(c.locale), Some(c.dayBtnFormat), Some(c.unSelectOnClick),
      if c.min.Some? then Some(SingleDate(c.min.value)) else None,
      if c.max.Some? then Some(SingleDate(c.max.value)) else None)
  }

  /** Resolving is idempotent: a resolved configuration has no undefined
      field left for the defaults to fill. */
  lemma GetConfigIsIdempotent(raw: RawDayConfig, codec: Codec, activeLocale: string, otherLocale: string)
    ensures GetConfig(AsRaw(GetConfig(raw, codec, activeLocale)), codec, otherLocale)
            == GetConfig(raw, codec, activeLocale)
  {
  }

  // ---------------------------------------------------------------------------
  // Disabling and navigation

  /** `isDateDisabled`: the caller's callback decides when there is one;
      otherwise a day before `min` or after `max` is disabled, the bounds
      themselves enabled. */
  function IsDateDisabled(date: Moment, config: DayConfig, hooks: DayHooks): (r: bool)
    ensures hooks.isDayDisabled.Some? ==> r == hooks.isDayDisabled.value(date)
    ensures hooks.isDayDisabled.None? ==>
              (r <==> (config.min.Some? && IsBefore(date, config.min.value, Day))
                      || (config.max.Some? && IsAfter(date, config.max.value, Day)))
  {
    if hooks.isDayDisabled.Some? then hooks.isDayDisabled.value(date)
    else if config.min.Some? && IsBefore(date, config.min.value, Day) then true
    else config.max.Some? && IsAfter(date, config.max.value, Day)
  }

  /** Without a callback, a valid day between valid bounds is enabled exactly
      when `isDateInRange` accepts it. */
  lemma EnabledIsInRange(date: Moment, config: DayConfig, hooks: DayHooks)
    requires hooks.isDayDisabled.None?
    requires date.Valid? && config.min.Some? && config.min.value.Valid?
    requires config.max.Some? && config.max.value.Valid?
    ensures !IsDateDisabled(date, config, hooks) <==> IsDateInRange(date, config.min.value, config.max.value)
  {
    DayOrderIsCalendarOrder(date.at.date, config.min.value.at.date);
    DayOrderIsCalendarOrder(config.max.value.at.date, date.at.date);
  }

  /** `shouldShowLeft`: the previous month is reachable when there is no
      minimum or the minimum's month is before the view's. */
  function ShouldShowLeft(min: Option<Moment>, view: Moment): (r: bool)
    ensures r <==> min.None? || IsBefore(min.value, view, Month)
  {
    if min.Some? then IsBefore(min.value, view, Month) else true
  }

  /** `shouldShowRight`: the mirror image with the maximum. */
  function ShouldShowRight(max: Option<Moment>, view: Moment): (r: bool)
    ensures r <==> max.None? || IsAfter(max.value, view, Month)
  {
    if max.Some? then IsAfter(max.value, view, Month) else true
  }

  /** When the left arrow is hidden by a valid minimum, every day of every
      earlier month is disabled (absent a callback). */
  lemma HiddenLeftMeansEarlierMonthsDisabled(config: DayConfig, hooks: DayHooks, view: DateTime, d: DateTime)
    requires hooks.isDayDisabled.None? && config.min.Some? && config.min.value.Valid?
    requires !ShouldShowLeft(config.min, Valid(view))
    requires MonthIndex(d.date) < MonthIndex(view.date)
    ensures IsDateDisabled(Valid(d), config, hooks)
  {
    MonthOrderRefinesDayOrder(d.date, config.min.value.at.date);
  }

  /** When the right arrow is hidden by a valid maximum, every day of every
      later month is disabled (absent a callback). */
  lemma HiddenRightMeansLaterMonthsDisabled(config: DayConfig, hooks: DayHooks, view: DateTime, d: DateTime)
    requires hooks.isDayDisabled.None? && config.max.Some? && config.max.value.Valid?
    requires !ShouldShowRight(config.max, Valid(view))
    requires MonthIndex(d.date) > MonthIndex(view.date)
    ensures IsDateDisabled(Valid(d), config, hooks)
  {
    MonthOrderRefinesDayOrder(config.max.value.at.date, d.date);
  }

  // ---------------------------------------------------------------------------
  // Labels

  /** `getHeaderLabel`: the caller's month formatter when there is one, else
      the month formatted with `monthFormat`. */
  function GetHeaderLabel(codec: Codec, config: DayConfig, hooks: DayHooks, month: Moment): (r: string)
    ensures hooks.monthFormatter.Some? ==> r == hooks.monthFormatter.value(month)
    ensures hooks.monthFormatter.None? ==> r == Format(codec, month, config.monthFormat)
  {
    if hooks.monthFormatter.Some? then hooks.monthFormatter.value(month)
    else Format(codec, month, config.monthFormat)
  }

  /** `getDayBtnText`: the caller's button formatter when there is one, else
      the day formatted with `dayBtnFormat`. */
  function GetDayBtnText(codec: Codec, config: DayConfig, hooks: DayHooks, day: Moment): (r: string)
    ensures hooks.dayBtnFormatter.Some? ==> r == hooks.dayBtnFormatter.value(day)
    ensures hooks.dayBtnFormatter.None? ==> r == Format(codec, day, config.dayBtnFormat)
  {
    if hooks.dayBtnFormatter.Some? then hooks.dayBtnFormatter.value(day)
    else Format(codec, day, config.dayBtnFormat)
  }

  /** A supplied formatter makes the format strings irrelevant. */
  lemma FormattersOverrideFormats(codec: Codec, config: DayConfig, hooks: DayHooks, m: Moment,
                                  monthFormat: string, dayBtnFormat: string)
    requires hooks.monthFormatter.Some? && hooks.dayBtnFormatter.Some?
    ensures var other := config.(monthFormat := monthFormat, dayBtnFormat := dayBtnFormat);
            GetHeaderLabel(codec, other, hooks, m) == GetHeaderLabel(codec, config, hooks, m)
            && GetDayBtnText(codec, other, hooks, m) == GetDayBtnText(codec, config, hooks, m)
  {
  }

  // ---------------------------------------------------------------------------
  // The month board

  /** `IDay`: one cell of the board. */
  datatype DayCell = DayCell(
    date: DateTime,
    selected: bool,
    currentMonth: bool,
    prevMonth: bool,
    nextMonth: bool,
    currentDay: bool,
    disabled: bool)

  /** How many days to step back from week day `b` to reach week day `a`. */
  function BackSteps(b: int, a: int): (k: int)
    requires 0 <= a < 7 && 0 <= b < 7
    ensures 0 <= k < 7 && (b - k) % 7 == a
  {
    StepBack(b, a);
    (b - a) % 7
  }

  /** The first day of the board: the last day on or before `first` that
      falls on the configured first day of the week. */
  function BoardStart(first: Date, weekStart: WeekDay): (r: Date)
    ensures Weekday(r) == IndexOfDay(weekStart)
    ensures DayNumber(r) <= DayNumber(first) < DayNumber(r) + 7
  {
    var back := BackSteps(Weekday(first), IndexOfDay(weekStart));
    var r := AddDays(first, -back);
    SteppedBackWeekday(first, r, IndexOfDay(weekStart), back);
    r
  }

  lemma SteppedBackWeekday(first: Date, r: Date, a: int, back: int)
    requires 0 <= a < 7 && back == BackSteps(Weekday(first), a)
    requires DayNumber(r) == DayNumber(first) - back
    ensures Weekday(r) == a
  {
    WeekdayShift(first, r);
  }

  /** The search of `generateMonthArray` for the first board day: step back
      from the first of the month one day at a time until the week day
      matches. */
  method FindBoardStart(month: DateTime, weekStart: WeekDay) returns (start: Date)
    ensures start == BoardStart(StartOfMonth(month).date, weekStart)
  {
    var first := StartOfMonth(month).date;
    var wf, wi := Weekday(first), IndexOfDay(weekStart);
    var back := BackSteps(wf, wi);
    start := first;
    var k := 0;
    while Weekday(start) != wi
      invariant 0 <= k <= back
      invariant DayNumber(start) == DayNumber(first) - k
      decreases back - k
    {
      assert k < back by {
        WeekdayShift(first, start);
      }
      start := PrevDay(start);
      k := k + 1;
    }
    assert k == back by {
      WeekdayShift(first, start);
      if k < back {
        DistinctResidues(wf - back, wf - k);
      }
    }
    DayNumberInjective(start, BoardStart(first, weekStart));
  }

  /** One cell: the day at midnight with its flags. */
  function CellAt(config: DayConfig, hooks: DayHooks, month: DateTime, selected: seq<Moment>, today: Moment,
                  d: Date): DayCell
  {
    var t := Valid(DateTime(d, 0));
    DayCell(
      DateTime(d, 0),
      exists j | 0 <= j < |selected| :: IsSame(t, selected[j], Day),
      IsSame(t, Valid(month), Month),
      IsSame(t, Valid(AddMonths(month, -1)), Month),
      IsSame(t, Valid(AddMonths(month, 1)), Month),
      IsSame(t, today, Day),
      IsDateDisabled(t, config, hooks))
  }

  /** The 42 days the board shows, counted from the board start. */
  function BoardDays(month: DateTime, weekStart: WeekDay): (ds: seq<Date>)
    ensures |ds| == 42
    ensures forall i | 0 <= i < 42 ::
              DayNumber(ds[i]) == DayNumber(BoardStart(StartOfMonth(month).date, weekStart)) + i
  {
    var start := BoardStart(StartOfMonth(month).date, weekStart);
    seq(42, i requires 0 <= i < 42 => AddDays(start, i))
  }

  /** The 42 cells, one per board day: cell `i` is midnight of the day `i`
      days after the board start, with that day's flags. */
  function DaysOfCalendar(config: DayConfig, hooks: DayHooks, month: DateTime, selected: seq<Moment>,
                          today: Moment): (cells: seq<DayCell>)
    ensures |cells| == 42
    ensures forall i | 0 <= i < 42 ::
              && cells[i].date.secs == 0
              && DayNumber(cells[i].date.date) == DayNumber(BoardStart(StartOfMonth(month).date, config.firstDayOfWeek)) + i
              && cells[i] == CellAt(config, hooks, month, selected, today, cells[i].date.date)
  {
    var days := BoardDays(month, config.firstDayOfWeek);
    seq(42, i requires 0 <= i < 42 => CellAt(config, hooks, month, selected, today, days[i]))
  }

  /** The `forEach` that files cell `i` under week `floor(i / 7)`. */
  function Weeks(cells: seq<DayCell>): (rows: seq<seq<DayCell>>)
    requires |cells| % 7 == 0
    ensures |rows| == |cells| / 7
    ensures forall w | 0 <= w < |rows| :: |rows[w]| == 7
    ensures forall w, c | 0 <= w < |rows| && 0 <= c < 7 :: rows[w][c] == cells[7 * w + c]
  {
    seq(|cells| / 7, w requires 0 <= w < |cells| / 7 => cells[7 * w..7 * w + 7])
  }

  /** The board before trimming. */
  function FullBoard(config: DayConfig, hooks: DayHooks, month: DateTime, selected: seq<Moment>,
                     today: Moment): (rows: seq<seq<DayCell>>)
    ensures |rows| == 6 && forall w | 0 <= w < 6 :: |rows[w]| == 7
  {
    Weeks(DaysOfCalendar(config, hooks, month, selected, today))
  }

  /** Some cell of the row lies in the month of `month`. */
  predicate RowHasMonth(row: seq<DayCell>, month: DateTime) {
    exists c | 0 <= c < |row| :: IsSame(Valid(row[c].date), Valid(month), Month)
  }

  /** `removeNearMonthWeeks`: the last week is dropped when none of its days
      lies in the anchor month. */
  function RemoveNearMonthWeeks(month: DateTime, rows: seq<seq<DayCell>>): (r: seq<seq<DayCell>>)
    requires |rows| > 0
    ensures RowHasMonth(rows[|rows| - 1], month) ==> r == rows
    ensures !RowHasMonth(rows[|rows| - 1], month) ==> r == rows[..|rows| - 1]
  {
    if RowHasMonth(rows[|rows| - 1], month) then rows else rows[..|rows| - 1]
  }

  /** `generateMonthArray`: the board, with its last week dropped when near
      month days are hidden and that week holds none of the month. */
  function GenerateMonthArray(config: DayConfig, hooks: DayHooks, month: DateTime, selected: seq<Moment>,
                              today: Moment): (rows: seq<seq<DayCell>>)
    ensures var full := FullBoard(config, hooks, month, selected, today);
            && (config.showNearMonthDays ==> rows == full)
            && (!config.showNearMonthDays ==>
                  (rows == full <==> RowHasMonth(full[5], month))
                  && (rows != full ==> rows == full[..5]))
  {
    var full: seq<seq<DayCell>> := FullBoard(config, hooks, month, selected, today);
    if config.showNearMonthDays then full else RemoveNearMonthWeeks(month, full)
  }

  /** Cell (w, c) of the full board is the cell of board day `7w + c`. */
  lemma CellDate(config: DayConfig, hooks: DayHooks, month: DateTime, selected: seq<Moment>,
                 today: Moment, w: int, c: int)
    requires 0 <= w < 6 && 0 <= c < 7
    ensures FullBoard(config, hooks, month, selected, today)[w][c]
            == CellAt(config, hooks, month, selected, today, BoardDays(month, config.firstDayOfWeek)[7 * w + c])
  {
    var cells := DaysOfCalendar(config, hooks, month, selected, today);
    assert FullBoard(config, hooks, month, selected, today)[w][c] == cells[7 * w + c];
  }

  /** Cell (w, c) of the full board shows board day `7w + c` at midnight. */
  lemma CellDay(config: DayConfig, hooks: DayHooks, month: DateTime, selected: seq<Moment>,
                today: Moment, w: int, c: int)
    requires 0 <= w < 6 && 0 <= c < 7
    ensures FullBoard(config, hooks, month, selected, today)[w][c].date
            == DateTime(BoardDays(month, config.firstDayOfWeek)[7 * w + c], 0)
  {
    CellDate(config, hooks, month, selected, today, w, c);
  }

  /** Board day `7w + c` falls on the week day column `c` shows; with
      `CellDay`, cell (w, c) of the full board shows it at midnight. */
  lemma BoardIsConsecutive(month: DateTime, weekStart: WeekDay, w: int, c: int)
    requires 0 <= w < 6 && 0 <= c < 7
    ensures Weekday(BoardDays(month, weekStart)[7 * w + c]) == (IndexOfDay(weekStart) + c) % 7
  {
    ConsecutiveColumns(BoardDays(month, weekStart), BoardStart(StartOfMonth(month).date, weekStart),
                       IndexOfDay(weekStart), w, c);
  }

  /** In 42 consecutive days from a day on week day `a`, day `7w + c` is on
      week day `(a + c) mod 7`. */
  lemma ConsecutiveColumns(ds: seq<Date>, start: Date, a: int, w: int, c: int)
    requires |ds| == 42 && forall i | 0 <= i < 42 :: DayNumber(ds[i]) == DayNumber(start) + i
    requires Weekday(start) == a && 0 <= w < 6 && 0 <= c < 7
    ensures Weekday(ds[7 * w + c]) == (a + c) % 7
  {
    var d := ds[7 * w + c];
    assert DayNumber(d) == DayNumber(start) + 7 * w + c;
    WeekdayShift(start, d);
    ModSeven(a + c, w);
    assert a + (DayNumber(d) - DayNumber(start)) == 7 * w + (a + c);
  }

  /** Every flag of a cell means what its name says: `selected` iff some
      selected date is the same day, `currentMonth`/`prevMonth`/`nextMonth`
      by month index, `currentDay` iff the same day as today, `disabled` by
      `isDateDisabled`. */
  lemma CellFlags(config: DayConfig, hooks: DayHooks, month: DateTime, selected: seq<Moment>, today: Moment,
                  w: int, c: int)
    requires 0 <= w < 6 && 0 <= c < 7
    ensures var cell := FullBoard(config, hooks, month, selected, today)[w][c];
            var t := Valid(cell.date);
            && (cell.selected <==> exists j | 0 <= j < |selected| :: selected[j].Valid?
                                     && selected[j].at.date == cell.date.date)
            && (cell.currentMonth <==> MonthIndex(cell.date.date) == MonthIndex(month.date))
            && (cell.prevMonth <==> MonthIndex(cell.date.date) == MonthIndex(month.date) - 1)
            && (cell.nextMonth <==> MonthIndex(cell.date.date) == MonthIndex(month.date) + 1)
            && (cell.currentDay <==> today.Valid? && today.at.date == cell.date.date)
            && cell.disabled == IsDateDisabled(t, config, hooks)
  {
    CellDate(config, hooks, month, selected, today, w, c);
    CellAtFlags(config, hooks, month, selected, today, BoardDays(month, config.firstDayOfWeek)[7 * w + c]);
  }

  lemma CellAtFlags(config: DayConfig, hooks: DayHooks, month: DateTime, selected: seq<Moment>, today: Moment,
                    d: Date)
    ensures var cell := CellAt(config, hooks, month, selected, today, d);
            && cell.date == DateTime(d, 0)
            && (cell.selected <==> exists j | 0 <= j < |selected| :: selected[j].Valid?
                                     && selected[j].at.date == d)
            && (cell.currentMonth <==> MonthIndex(d) == MonthIndex(month.date))
            && (cell.prevMonth <==> MonthIndex(d) == MonthIndex(month.date) - 1)
            && (cell.nextMonth <==> MonthIndex(d) == MonthIndex(month.date) + 1)
            && (cell.currentDay <==> today.Valid? && today.at.date == d)
            && cell.disabled == IsDateDisabled(Valid(DateTime(d, 0)), config, hooks)
  {
    forall j | 0 <= j < |selected| && selected[j].Valid? {
      SameDayIsSameDate(DateTime(d, 0), selected[j].at);
    }
    if today.Valid? {
      SameDayIsSameDate(DateTime(d, 0), today.at);
    }
  }

  /** Every day of the anchor month is on the board, at its distance from the
      board start; the 1st is in the first week. */
  lemma MonthDayOnBoard(month: DateTime, weekStart: WeekDay, d: Date)
    requires MonthIndex(d) == MonthIndex(month.date)
    ensures var k := DayNumber(d) - DayNumber(BoardStart(StartOfMonth(month).date, weekStart));
            && 0 <= k < 42 && BoardDays(month, weekStart)[k] == d
            && (d.day == 1 ==> k < 7)
  {
    var first := StartOfMonth(month).date;
    var k := DayNumber(d) - DayNumber(BoardStart(first, weekStart));
    assert d.year == first.year && d.month == first.month;
    assert DayNumber(d) - DayNumber(first) == d.day - 1;
    DayNumberInjective(BoardDays(month, weekStart)[k], d);
  }

  /** Every day of the anchor month is on the full board: at distance `k`
      from the board start, below 42, in week `k / 7` and column `k mod 7`,
      at midnight. */
  lemma BoardShowsWholeMonth(config: DayConfig, hooks: DayHooks, month: DateTime, selected: seq<Moment>,
                             today: Moment, d: Date)
    requires MonthIndex(d) == MonthIndex(month.date)
    ensures var k := DayNumber(d) - DayNumber(BoardStart(StartOfMonth(month).date, config.firstDayOfWeek));
            0 <= k < 42 && FullBoard(config, hooks, month, selected, today)[k / 7][k % 7].date == DateTime(d, 0)
  {
    var k := DayNumber(d) - DayNumber(BoardStart(StartOfMonth(month).date, config.firstDayOfWeek));
    MonthDayOnBoard(month, config.firstDayOfWeek, d);
    CellDay(config, hooks, month, selected, today, k / 7, k % 7);
    assert 7 * (k / 7) + k % 7 == k;
  }

  /** `rows` is the six-week board `full`, or its first five weeks when the
      sixth holds no day of the anchor month. */
  ghost predicate TrimmedFrom(full: seq<seq<DayCell>>, rows: seq<seq<DayCell>>, month: DateTime) {
    && |full| == 6 && (forall i | 0 <= i < 6 :: |full[i]| == 7)
    && (rows == full || (rows == full[..5] && !RowHasMonth(full[5], month)))
  }

  lemma GeneratedIsTrimmed(config: DayConfig, hooks: DayHooks, month: DateTime, selected: seq<Moment>,
                           today: Moment)
    ensures TrimmedFrom(FullBoard(config, hooks, month, selected, today),
                        GenerateMonthArray(config, hooks, month, selected, today), month)
  {
  }

  /** Trimming keeps every cell of the anchor month: the last week goes only
      when none of its cells is in the month. */
  lemma TrimKeepsMonthCell(full: seq<seq<DayCell>>, rows: seq<seq<DayCell>>, month: DateTime, w: int, c: int)
    requires TrimmedFrom(full, rows, month)
    requires 0 <= w < 6 && 0 <= c < 7 && MonthIndex(full[w][c].date.date) == MonthIndex(month.date)
    ensures w < |rows| && c < |rows[w]| && rows[w][c] == full[w][c]
  {
    if w == 5 {
      assert RowHasMonth(full[5], month) by {
        assert IsSame(Valid(full[5][c].date), Valid(month), Month);
      }
    }
  }

  /** Trimming never hides a day of the anchor month: every such day is in
      the generated board. */
  lemma GeneratedBoardShowsWholeMonth(config: DayConfig, hooks: DayHooks, month: DateTime,
                                      selected: seq<Moment>, today: Moment, d: Date)
    requires MonthIndex(d) == MonthIndex(month.date)
    ensures var rows := GenerateMonthArray(config, hooks, month, selected, today);
            exists w, c | 0 <= w < |rows| && 0 <= c < |rows[w]| :: rows[w][c].date.date == d
  {
    var full: seq<seq<DayCell>> := FullBoard(config, hooks, month, selected, today);
    var rows := GenerateMonthArray(config, hooks, month, selected, today);
    var k := DayNumber(d) - DayNumber(BoardStart(StartOfMonth(month).date, config.firstDayOfWeek));
    MonthDayOnBoard(month, config.firstDayOfWeek, d);
    var w, c := k / 7, k % 7;
    CellDay(config, hooks, month, selected, today, w, c);
    GeneratedIsTrimmed(config, hooks, month, selected, today);
    TrimKeepsMonthCell(full, rows, month, w, c);
  }

  /** The first week always holds the 1st of the month; the board has five
      or six weeks. */
  lemma BoardHasFiveOrSixWeeks(config: DayConfig, hooks: DayHooks, month: DateTime, selected: seq<Moment>,
                               today: Moment)
    ensures var rows := GenerateMonthArray(config, hooks, month, selected, today);
            (|rows| == 5 || |rows| == 6) && RowHasMonth(rows[0], month)
  {
    var first := StartOfMonth(month).date;
    var k := DayNumber(first) - DayNumber(BoardStart(first, config.firstDayOfWeek));
    MonthDayOnBoard(month, config.firstDayOfWeek, first);
    CellDate(config, hooks, month, selected, today, 0, k);
    var full: seq<seq<DayCell>> := FullBoard(config, hooks, month, selected, today);
    assert full[0][k].date.date == first;
    assert IsSame(Valid(full[0][k].date), Valid(month), Month);
    assert RowHasMonth(full[0], month);
  }
}
