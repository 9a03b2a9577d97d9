/** `MonthCalendarService`: the year board of months, its configuration,
    disabling, navigation guards and labels. */
module MonthCalendar {
  import opened Wrappers
  import opened Dates
  import opened Utils

  // ---------------------------------------------------------------------------
  // Configuration

  /** The resolved `IMonthCalendarConfigInternal` fields the service reads. */
  datatype MonthConfig = MonthConfig(
    allowMultiSelect: bool,
    yearFormat: string,
    format: string,
    isNavHeaderBtnClickable: bool,
    monthBtnFormat: string,
    locale: string,
    multipleYearsNavigateBy: int,
    showMultipleYearsNavigation: bool,
    unSelectOnClick: bool,
    numOfMonthRows: int,
    min: Option<Moment>,
    max: Option<Moment>)

  /** The caller's callbacks, kept apart from the data. */
  datatype MonthHooks = MonthHooks(
    isMonthDisabled: Option<Moment -> bool>,
    yearFormatter: Option<Moment -> string>,
    monthBtnFormatter: Option<Moment -> string>)

  /** `IMonthCalendarConfig` as the caller hands it: every field may be
      undefined. */
  datatype RawMonthConfig = RawMonthConfig(
    allowMultiSelect: Option<bool>,
    yearFormat: Option<string>,
    format: Option<string>,
    isNavHeaderBtnClickable: Option<bool>,
    monthBtnFormat: Option<string>,
    locale: Option<string>,
    multipleYearsNavigateBy: Option<int>,
    showMultipleYearsNavigation: Option<bool>,
    unSelectOnClick: Option<bool>,
    numOfMonthRows: Option<int>,
    min: Option<SingleValue>,
    max: Option<SingleValue>)

  const DefaultMonthRows := 3

  const MonthRowsError := "numOfMonthRows has to be between 1 - 12 and divide 12 to integer"

  /** `validateConfig`'s test: between 1 and 12, and `12 / rows` an integer. */
  predicate ValidMonthRows(rows: int) {
    1 <= rows <= 12 && 12 % rows == 0
  }

  /** The accepted row counts are exactly the divisors of 12. */
  lemma MonthRowsAreDivisorsOfTwelve(rows: int)
    ensures ValidMonthRows(rows) <==> rows in {1, 2, 3, 4, 6, 12}
  {
    if 1 <= rows <= 12 {
      assert rows == 5 ==> 12 % rows == 2;
      assert rows == 7 ==> 12 % rows == 5;
      assert rows == 8 ==> 12 % rows == 4;
      assert rows == 9 ==> 12 % rows == 3;
      assert rows == 10 ==> 12 % rows == 2;
      assert rows == 11 ==> 12 % rows == 1;
    }
  }

  /** `getConfig`: the caller's defined fields over `DEFAULT_CONFIG`; an
      invalid row count is an error; otherwise `min` and `max` are converted
      with the merged format. */
  function GetConfig(raw: RawMonthConfig, codec: Codec, activeLocale: string): (r: Result<MonthConfig>)
    ensures r.Err? <==> !ValidMonthRows(raw.numOfMonthRows.GetOr(DefaultMonthRows))
    ensures r.Err? ==> r.message == MonthRowsError
    ensures r.Ok? ==>
              var c := r.value;
              && c.allowMultiSelect == raw.allowMultiSelect.GetOr(false)
              && c.yearFormat == raw.yearFormat.GetOr("YYYY")
              && c.format == raw.format.GetOr("MM-YYYY")
              && c.isNavHeaderBtnClickable == raw.isNavHeaderBtnClickable.GetOr(false)
              && c.monthBtnFormat == raw.monthBtnFormat.GetOr("MMM")
              && c.locale == raw.locale.GetOr(activeLocale)
              && c.multipleYearsNavigateBy == raw.multipleYearsNavigateBy.GetOr(10)
              && c.showMultipleYearsNavigation == raw.showMultipleYearsNavigation.GetOr(false)
              && c.unSelectOnClick == raw.unSelectOnClick.GetOr(true)
              && c.numOfMonthRows == raw.numOfMonthRows.GetOr(DefaultMonthRows)
              && c.min == ConvertToDayjs(raw.min, codec, c.format)
              && c.max == ConvertToDayjs(raw.max, codec, c.format)
  {
    var rows := raw.numOfMonthRows.GetOr(DefaultMonthRows);
    if !ValidMonthRows(rows) then Err(MonthRowsError)
    else
      var format := raw.format.GetOr("MM-YYYY");
      Ok(MonthConfig(
        raw.allowMultiSelect.GetOr(false),
        raw.yearFormat.GetOr("YYYY"),
        format,
        raw.isNavHeaderBtnClickable.GetOr(false),
        raw.monthBtnFormat.GetOr("MMM"),
        raw.locale.GetOr(activeLocale),
        raw.multipleYearsNavigateBy.GetOr(10),
        raw.showMultipleYearsNavigation.GetOr(false),
        raw.unSelectOnClick.GetOr(true),
        rows,
        ConvertToDayjs(raw.min, codec, format),
        ConvertToDayjs(raw.max, codec, format)))
  }

  /** A resolved configuration handed back as a caller's configuration. */
  function AsRaw(c: MonthConfig): RawMonthConfig {
    RawMonthConfig(
      Some(c.allowMultiSelect), Some(c.yearFormat), Some(c.format), Some(c.isNavHeaderBtnClickable),
      Some(c.monthBtnFormat), Some(c.locale), Some(c.multipleYearsNavigateBy),
      Some(c.showMultipleYearsNavigation), Some(c.unSelectOnClick), Some(c.numOfMonthRows),
      if c.min.Some? then Some(SingleDate(c.min.value)) else None,
      if c.max.Some? then Some(SingleDate(c.max.value)) else None)
  }

  /** Resolving a resolved configuration succeeds and changes nothing. */
  lemma GetConfigIsIdempotent(raw: RawMonthConfig, codec: Codec, activeLocale: string, otherLocale: string)
    requires GetConfig(raw, codec, activeLocale).Ok?
    ensures GetConfig(AsRaw(GetConfig(raw, codec, activeLocale).value), codec, otherLocale)
            == GetConfig(raw, codec, activeLocale)
  {
  }

  // ---------------------------------------------------------------------------
  // Disabling and navigation

  /** `isMonthDisabled`: the caller's callback decides when there is one;
      otherwise a month before `min`'s month or after `max`'s is disabled. */
  function IsMonthDisabled(date: Moment, config: MonthConfig, hooks: MonthHooks): (r: bool)
    ensures hooks.isMonthDisabled.Some? ==> r == hooks.isMonthDisabled.value(date)
    ensures hooks.isMonthDisabled.None? ==>
              (r <==> (config.min.Some? && IsBefore(date, config.min.value, Month))
                      || (config.max.Some? && IsAfter(date, config.max.value, Month)))
  {
    if hooks.isMonthDisabled.Some? then hooks.isMonthDisabled.value(date)
    else if config.min.Some? && IsBefore(date, config.min.value, Month) then true
    else config.max.Some? && IsAfter(date, config.max.value, Month)
  }

  /** Without a callback, the months of valid bounds are themselves enabled,
      and so is every month between them. */
  lemma MonthsBetweenBoundsAreEnabled(config: MonthConfig, hooks: MonthHooks, d: DateTime)
    requires hooks.isMonthDisabled.None?
    requires config.min.Some? && config.min.value.Valid? && config.max.Some? && config.max.value.Valid?
    requires MonthIndex(config.min.value.at.date) <= MonthIndex(d.date) <= MonthIndex(config.max.value.at.date)
    ensures !IsMonthDisabled(Valid(d), config, hooks)
  {
  }

  /** Without a callback, any day of a month before a valid `min`'s month is
      disabled, whatever its day of the month. */
  lemma EarlierMonthsAreDisabled(config: MonthConfig, hooks: MonthHooks, d: DateTime)
    requires hooks.isMonthDisabled.None? && config.min.Some? && config.min.value.Valid?
    requires MonthIndex(d.date) < MonthIndex(config.min.value.at.date)
    ensures IsMonthDisabled(Valid(d), config, hooks)
  {
  }

  /** `shouldShowLeft`: the previous year is reachable when there is no
      minimum or the minimum's year is before the view's. */
  function ShouldShowLeft(min: Option<Moment>, view: Moment): (r: bool)
    ensures r <==> min.None? || IsBefore(min.value, view, Year)
  {
    if min.Some? then IsBefore(min.value, view, Year) else true
  }

  /** `shouldShowRight`: the mirror image with the maximum. */
  function ShouldShowRight(max: Option<Moment>, view: Moment): (r: bool)
    ensures r <==> max.None? || IsAfter(max.value, view, Year)
  {
    if max.Some? then IsAfter(max.value, view, Year) else true
  }

  /** When the left arrow is hidden by a valid minimum, every month of every
      earlier year is disabled (absent a callback). */
  lemma HiddenLeftMeansEarlierYearsDisabled(config: MonthConfig, hooks: MonthHooks, view: DateTime, d: DateTime)
    requires hooks.isMonthDisabled.None? && config.min.Some? && config.min.value.Valid?
    requires !ShouldShowLeft(config.min, Valid(view))
    requires d.date.year < view.date.year
    ensures IsMonthDisabled(Valid(d), config, hooks)
  {
    YearOrderRefinesMonthOrder(d.date, config.min.value.at.date);
  }

  /** When the right arrow is hidden by a valid maximum, every month of every
      later year is disabled (absent a callback). */
  lemma HiddenRightMeansLaterYearsDisabled(config: MonthConfig, hooks: MonthHooks, view: DateTime, d: DateTime)
    requires hooks.isMonthDisabled.None? && config.max.Some? && config.max.value.Valid?
    requires !ShouldShowRight(config.max, Valid(view))
    requires d.date.year > view.date.year
    ensures IsMonthDisabled(Valid(d), config, hooks)
  {
    YearOrderRefinesMonthOrder(config.max.value.at.date, d.date);
  }

  // ---------------------------------------------------------------------------
  // Labels

  /** `getHeaderLabel`: the caller's year formatter when there is one, else
      the year formatted with `yearFormat`. */
  function GetHeaderLabel(codec: Codec, config: MonthConfig, hooks: MonthHooks, year: Moment): (r: string)
    ensures hooks.yearFormatter.Some? ==> r == hooks.yearFormatter.value(year)
    ensures hooks.yearFormatter.None? ==> r == Format(codec, year, config.yearFormat)
  {
    if hooks.yearFormatter.Some? then hooks.yearFormatter.value(year)
    else Format(codec, year, config.yearFormat)
  }

  /** `getMonthBtnText`: the caller's button formatter when there is one, else
      the month formatted with `monthBtnFormat`. */
  function GetMonthBtnText(codec: Codec, config: MonthConfig, hooks: MonthHooks, month: Moment): (r: string)
    ensures hooks.monthBtnFormatter.Some? ==> r == hooks.monthBtnFormatter.value(month)
    ensures hooks.monthBtnFormatter.None? ==> r == Format(codec, month, config.monthBtnFormat)
  {
    if hooks.monthBtnFormatter.Some? then hooks.monthBtnFormatter.value(month)
    else Format(codec, month, config.monthBtnFormat)
  }

  /** A supplied formatter makes the format strings irrelevant, for the
      header and for the buttons. */
  lemma FormattersOverrideFormats(codec: Codec, config: MonthConfig, hooks: MonthHooks, m: Moment,
                                  yearFormat: string, monthBtnFormat: string)
    requires hooks.yearFormatter.Some? && hooks.monthBtnFormatter.Some?
    ensures var other := config.(yearFormat := yearFormat, monthBtnFormat := monthBtnFormat);
            GetHeaderLabel(codec, other, hooks, m) == GetHeaderLabel(codec, config, hooks, m)
            && GetMonthBtnText(codec, other, hooks, m) == GetMonthBtnText(codec, config, hooks, m)
  {
  }

  /** Without formatters, the labels are the formatted dates. */
  lemma LabelsFormatTheDate(codec: Codec, config: MonthConfig, hooks: MonthHooks, m: Moment)
    requires hooks.yearFormatter.None? && hooks.monthBtnFormatter.None? && m.Valid?
    ensures GetHeaderLabel(codec, config, hooks, m) == codec.render(m.at, config.yearFormat)
    ensures GetMonthBtnText(codec, config, hooks, m) == codec.render(m.at, config.monthBtnFormat)
  {
  }

  // ---------------------------------------------------------------------------
  // The year board

  /** `IMonth`: one cell of the board. */
  datatype MonthCell = MonthCell(
    date: DateTime,
    selected: bool,
    currentMonth: bool,
    disabled: bool,
    text: string)

  /** The cell the loop body builds when its running index is `index`. */
  function MonthCellAt(codec: Codec, config: MonthConfig, hooks: MonthHooks, index: DateTime,
                       selected: seq<Moment>, now: Moment): MonthCell
  {
    var t := Valid(index);
    MonthCell(
      index,
      exists j | 0 <= j < |selected| :: IsSame(t, selected[j], Month),
      IsSame(t, now, Month),
      IsMonthDisabled(t, config, hooks),
      GetMonthBtnText(codec, config, hooks, t))
  }

  /** The number of columns of a board with `rows` rows. */
  function MonthCols(rows: int): (cols: int)
    requires ValidMonthRows(rows)
    ensures 1 <= cols <= 12 && rows * cols == 12
  {
    MonthRowsAreDivisorsOfTwelve(rows);
    12 / rows
  }

  /** `generateYear` as written: `index.add(1, 'month')` returns a new date
      that is thrown away, so the running index stays at the start of the
      anchor year and every cell is built from it. */
  function GenerateYear(codec: Codec, config: MonthConfig, hooks: MonthHooks, year: DateTime,
                        selected: seq<Moment>, now: Moment): (rows: seq<seq<MonthCell>>)
    requires ValidMonthRows(config.numOfMonthRows)
    ensures |rows| == config.numOfMonthRows
    ensures forall r | 0 <= r < |rows| :: |rows[r]| == MonthCols(config.numOfMonthRows)
  {
    var index := StartOfYear(year.date.year);
    var cols := MonthCols(config.numOfMonthRows);
    seq(config.numOfMonthRows, r requires 0 <= r < config.numOfMonthRows =>
      seq(cols, c requires 0 <= c < cols => MonthCellAt(codec, config, hooks, index, selected, now)))
  }

  /** What the board as written shows: every cell is January 1st of the
      anchor year, selected iff some selected date is in that January,
      current iff `now` is, and disabled and labelled as that date. */
  lemma GenerateYearShowsOnlyJanuary(codec: Codec, config: MonthConfig, hooks: MonthHooks, year: DateTime,
                                     selected: seq<Moment>, now: Moment, r: int, c: int)
    requires ValidMonthRows(config.numOfMonthRows)
    requires 0 <= r < config.numOfMonthRows && 0 <= c < MonthCols(config.numOfMonthRows)
    ensures var cell := GenerateYear(codec, config, hooks, year, selected, now)[r][c];
            && cell.date == DateTime(Civil(year.date.year, 1, 1), 0)
            && (cell.selected <==> exists j | 0 <= j < |selected| :: selected[j].Valid?
                                     && selected[j].at.date.year == year.date.year
                                     && selected[j].at.date.month == 1)
            && (cell.currentMonth <==> now.Valid? && now.at.date.year == year.date.year
                                       && now.at.date.month == 1)
            && cell.disabled == IsMonthDisabled(Valid(cell.date), config, hooks)
            && cell.text == GetMonthBtnText(codec, config, hooks, Valid(cell.date))
  {
    var index := StartOfYear(year.date.year);
    var cell := GenerateYear(codec, config, hooks, year, selected, now)[r][c];
    assert cell == MonthCellAt(codec, config, hooks, index, selected, now);
    forall j | 0 <= j < |selected| && selected[j].Valid? {
      SameMonthIsSameYearAndMonth(index, selected[j].at);
    }
    if now.Valid? {
      SameMonthIsSameYearAndMonth(index, now.at);
    }
  }

  /** The running index the loop was evidently meant to keep: month `k` of
      the anchor year, counted from 0. */
  function MonthStart(year: int, k: int): (t: DateTime)
    requires 0 <= k < 12
    ensures t.date == Civil(year, k + 1, 1) && t.secs == 0
  {
    AddMonths(StartOfYear(year), k)
  }

  /** `generateYear` with `index = index.add(1, 'month')`: cell `(r, c)` is
      month `r * cols + c` of the anchor year. */
  function GenerateYearIntended(codec: Codec, config: MonthConfig, hooks: MonthHooks, year: DateTime,
                                selected: seq<Moment>, now: Moment): (rows: seq<seq<MonthCell>>)
    requires ValidMonthRows(config.numOfMonthRows)
    ensures |rows| == config.numOfMonthRows
    ensures forall r | 0 <= r < |rows| :: |rows[r]| == MonthCols(config.numOfMonthRows)
  {
    var cols := MonthCols(config.numOfMonthRows);
    seq(config.numOfMonthRows, r requires 0 <= r < config.numOfMonthRows =>
      seq(cols, c requires 0 <= c < cols =>
        MonthCellAt(codec, config, hooks, MonthStart(year.date.year, r * cols + c), selected, now)))
  }

  lemma CellIndexInYear(rows: int, cols: int, r: int, c: int)
    requires 1 <= rows && 1 <= cols && rows * cols == 12 && 0 <= r < rows && 0 <= c < cols
    ensures 0 <= r * cols + c < 12
  {
    assert r * cols + c <= (rows - 1) * cols + (cols - 1) == rows * cols - 1;
  }

  /** The corrected board shows the months of the anchor year in row-major
      order, each at its first day, selected iff some selected date is in
      that month, current iff `now` is, and disabled and labelled as that
      date. */
  lemma IntendedCellIsItsMonth(codec: Codec, config: MonthConfig, hooks: MonthHooks, year: DateTime,
                               selected: seq<Moment>, now: Moment, r: int, c: int)
    requires ValidMonthRows(config.numOfMonthRows)
    requires 0 <= r < config.numOfMonthRows && 0 <= c < MonthCols(config.numOfMonthRows)
    ensures var cols := MonthCols(config.numOfMonthRows);
            var cell := GenerateYearIntended(codec, config, hooks, year, selected, now)[r][c];
            && 0 <= r * cols + c < 12
            && cell.date == DateTime(Civil(year.date.year, r * cols + c + 1, 1), 0)
            && (cell.selected <==> exists j | 0 <= j < |selected| :: selected[j].Valid?
                                     && selected[j].at.date.year == year.date.year
                                     && selected[j].at.date.month == r * cols + c + 1)
            && (cell.currentMonth <==> now.Valid? && now.at.date.year == year.date.year
                                       && now.at.date.month == r * cols + c + 1)
            && cell.disabled == IsMonthDisabled(Valid(cell.date), config, hooks)
            && cell.text == GetMonthBtnText(codec, config, hooks, Valid(cell.date))
  {
    var cols := MonthCols(config.numOfMonthRows);
    CellIndexInYear(config.numOfMonthRows, cols, r, c);
    var index := MonthStart(year.date.year, r * cols + c);
    var cell := GenerateYearIntended(codec, config, hooks, year, selected, now)[r][c];
    assert cell == MonthCellAt(codec, config, hooks, index, selected, now);
    forall j | 0 <= j < |selected| && selected[j].Valid? {
      SameMonthIsSameYearAndMonth(index, selected[j].at);
    }
    if now.Valid? {
      SameMonthIsSameYearAndMonth(index, now.at);
    }
  }

  /** Every month of the anchor year has its cell on the corrected board:
      month `m` sits in row `(m - 1) / cols`, column `(m - 1) % cols`. */
  lemma IntendedBoardCoversYear(codec: Codec, config: MonthConfig, hooks: MonthHooks, year: DateTime,
                                selected: seq<Moment>, now: Moment, m: int)
    requires ValidMonthRows(config.numOfMonthRows) && 1 <= m <= 12
    ensures var cols := MonthCols(config.numOfMonthRows);
            var rows := GenerateYearIntended(codec, config, hooks, year, selected, now);
            && (m - 1) / cols < |rows| && (m - 1) % cols < |rows[(m - 1) / cols]|
            && rows[(m - 1) / cols][(m - 1) % cols].date.date == Civil(year.date.year, m, 1)
  {
    var cols := MonthCols(config.numOfMonthRows);
    var r, c := (m - 1) / cols, (m - 1) % cols;
    assert r * cols + c == m - 1;
    assert r < config.numOfMonthRows by {
      MonthRowsAreDivisorsOfTwelve(config.numOfMonthRows);
    }
    IntendedCellIsItsMonth(codec, config, hooks, year, selected, now, r, c);
  }

  /** With the default three rows, the board as written shows January where
      the corrected board shows February. */
  lemma GenerateYearMissesFebruary(codec: Codec, config: MonthConfig, hooks: MonthHooks, year: DateTime,
                                   selected: seq<Moment>, now: Moment)
    requires config.numOfMonthRows == DefaultMonthRows
    ensures GenerateYear(codec, config, hooks, year, selected, now)[0][1].date.date.month == 1
    ensures GenerateYearIntended(codec, config, hooks, year, selected, now)[0][1].date.date.month == 2
  {
    GenerateYearShowsOnlyJanuary(codec, config, hooks, year, selected, now, 0, 1);
    IntendedCellIsItsMonth(codec, config, hooks, year, selected, now, 0, 1);
  }
}
