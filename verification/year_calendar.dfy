/** `YearCalendarService`: the board of years around an anchor year, its
    configuration, disabling, navigation guards and labels. */
module YearCalendar {
  import opened Wrappers
  import opened Dates
  import opened Utils

  // ---------------------------------------------------------------------------
  // Configuration

  /** The resolved `IYearCalendarConfigInternal` fields the service reads. */
  datatype YearConfig = YearConfig(
    allowMultiSelect: bool,
    yearFormat: string,
    format: string,
    isNavHeaderBtnClickable: bool,
    yearBtnFormat: string,
    locale: string,
    unSelectOnClick: bool,
    numOfYearRows: int,
    numOfYearCols: int,
    min: Option<Moment>,
    max: Option<Moment>)

  /** The caller's callbacks, kept apart from the data. */
  datatype YearHooks = YearHooks(
    isYearDisabled: Option<Moment -> bool>,
    yearFormatter: Option<Moment -> string>,
    yearBtnFormatter: Option<Moment -> string>)

  /** `IYearCalendarConfig` as the caller hands it: every field may be
      undefined. */
  datatype RawYearConfig = RawYearConfig(
    allowMultiSelect: Option<bool>,
    yearFormat: Option<string>,
    format: Option<string>,
    isNavHeaderBtnClickable: Option<bool>,
    yearBtnFormat: Option<string>,
    locale: Option<string>,
    unSelectOnClick: Option<bool>,
    numOfYearRows: Option<int>,
    numOfYearCols: Option<int>,
    min: Option<SingleValue>,
    max: Option<SingleValue>)

  const RowsError := "numOfYearRows has to be between 1 - 12"
  const ColsError := "numOfYearCols has to be between 1 - 12"

  /** `getConfig`: the caller's defined fields over `DEFAULT_CONFIG`; the row
      count is checked first, then the column count, and only then are `min`
      and `max` converted with the merged format. */
  function GetConfig(raw: RawYearConfig, codec: Codec, activeLocale: string): (r: Result<YearConfig>)
    ensures var rows := raw.numOfYearRows.GetOr(4);
            var cols := raw.numOfYearCols.GetOr(5);
            && (r.Ok? <==> 1 <= rows <= 12 && 1 <= cols <= 12)
            && (!(1 <= rows <= 12) ==> r == Err(RowsError))
            && (1 <= rows <= 12 && !(1 <= cols <= 12) ==> r == Err(ColsError))
    ensures r.Ok? ==>
              var c := r.value;
              && c.allowMultiSelect == raw.allowMultiSelect.GetOr(false)
              && c.yearFormat == raw.yearFormat.GetOr("YYYY")
              && c.format == raw.format.GetOr("MM-YYYY")
              && c.isNavHeaderBtnClickable == raw.isNavHeaderBtnClickable.GetOr(false)
              && c.yearBtnFormat == raw.yearBtnFormat.GetOr("YYYY")
              && c.locale == raw.locale.GetOr(activeLocale)
              && c.unSelectOnClick == raw.unSelectOnClick.GetOr(true)
              && c.numOfYearRows == raw.numOfYearRows.GetOr(4)
              && c.numOfYearCols == raw.numOfYearCols.GetOr(5)
              && c.min == ConvertToDayjs(raw.min, codec, c.format)
              && c.max == ConvertToDayjs(raw.max, codec, c.format)
  {
    var rows := raw.numOfYearRows.GetOr(4);
    var cols := raw.numOfYearCols.GetOr(5);
    if rows < 1 || rows > 12 then Err(RowsError)
    else if cols < 1 || cols > 12 then Err(ColsError)
    else
      var format := raw.format.GetOr("MM-YYYY");
      Ok(YearConfig(
        raw.allowMultiSelect.GetOr(false),
        raw.yearFormat.GetOr("YYYY"),
        format,
        raw.isNavHeaderBtnClickable.GetOr(false),
        raw.yearBtnFormat.GetOr("YYYY"),
        raw.locale.GetOr(activeLocale),
        raw.unSelectOnClick.GetOr(true),
        rows,
        cols,
        ConvertToDayjs(raw.min, codec, format),
        ConvertToDayjs(raw.max, codec, format)))
  }

  /** The bounds do not take part in validation: a bad grid is reported
      whatever `min` and `max` hold, and a good grid is accepted whatever
      they hold. */
  lemma GridIsCheckedBeforeBounds(raw: RawYearConfig, codec: Codec, activeLocale: string,
                                  min: Option<SingleValue>, max: Option<SingleValue>)
    ensures var other := raw.(min := min, max := max);
            GetConfig(other, codec, activeLocale).Err? == GetConfig(raw, codec, activeLocale).Err?
            && (GetConfig(raw, codec, activeLocale).Err? ==>
                  GetConfig(other, codec, activeLocale) == GetConfig(raw, codec, activeLocale))
  {
  }

  /** The row and column counts the validation tests exercise: -1, 0 and 13
      fail with the row message (or, with valid rows, the column message);
      1, 2 and 12 pass. */
  lemma ValidationExamples(codec: Codec, locale: string)
    ensures forall n | n in [-1, 0, 13] ::
              GetConfig(RawYearConfig(None, None, None, None, None, None, None, Some(n), Some(5), None, None),
                        codec, locale) == Err(RowsError)
              && GetConfig(RawYearConfig(None, None, None, None, None, None, None, Some(5), Some(n), None, None),
                           codec, locale) == Err(ColsError)
    ensures forall n | n in [1, 2, 12] ::
              GetConfig(RawYearConfig(None, None, None, None, None, None, None, Some(n), Some(5), None, None),
                        codec, locale).Ok?
              && GetConfig(RawYearConfig(None, None, None, None, None, None, None, Some(5), Some(n), None, None),
                           codec, locale).Ok?
  {
  }

  // ---------------------------------------------------------------------------
  // Disabling and navigation

  /** `isYearDisabled`: the caller's callback decides when there is one;
      otherwise a year before `min`'s year or after `max`'s is disabled. */
  function IsYearDisabled(date: Moment, config: YearConfig, hooks: YearHooks): (r: bool)
    ensures hooks.isYearDisabled.Some? ==> r == hooks.isYearDisabled.value(date)
    ensures hooks.isYearDisabled.None? ==>
              (r <==> (config.min.Some? && IsBefore(date, config.min.value, Year))
                      || (config.max.Some? && IsAfter(date, config.max.value, Year)))
  {
    if hooks.isYearDisabled.Some? then hooks.isYearDisabled.value(date)
    else if config.min.Some? && IsBefore(date, config.min.value, Year) then true
    else config.max.Some? && IsAfter(date, config.max.value, Year)
  }

  /** Without a callback and with valid bounds, a valid date is enabled
      exactly when its year lies between the bounds' years, both included. */
  lemma EnabledIffYearBetweenBounds(config: YearConfig, hooks: YearHooks, d: DateTime)
    requires hooks.isYearDisabled.None?
    requires config.min.Some? && config.min.value.Valid? && config.max.Some? && config.max.value.Valid?
    ensures !IsYearDisabled(Valid(d), config, hooks)
            <==> config.min.value.at.date.year <= d.date.year <= config.max.value.at.date.year
  {
  }

  /** The disabling example of the service's tests: with bounds one year
      either side of 9 April 2017, the years 2016 to 2018 are enabled and
      2015 and 2019 are disabled. */
  lemma DisablingExample(config: YearConfig, hooks: YearHooks, secs: TimeOfDay)
    requires hooks.isYearDisabled.None?
    requires config.min == Some(Valid(DateTime(Civil(2016, 4, 9), 0)))
    requires config.max == Some(Valid(DateTime(Civil(2018, 4, 9), 0)))
    ensures forall y | 2015 <= y <= 2019 ::
              IsYearDisabled(Valid(DateTime(Civil(y, 4, 9), secs)), config, hooks) <==> (y == 2015 || y == 2019)
  {
  }

  /** `shouldShowLeft`: earlier years are reachable when there is no minimum
      or the minimum's year is before the first cell's. */
  function ShouldShowLeft(min: Option<Moment>, board: seq<seq<YearCell>>): (r: bool)
    requires |board| > 0 && |board[0]| > 0
    ensures r <==> min.None? || (min.value.Valid? && min.value.at.date.year < board[0][0].date.date.year)
  {
    if min.Some? then IsBefore(min.value, Valid(board[0][0].date), Year) else true
  }

  /** `shouldShowRight`: later years are reachable when there is no maximum
      or the maximum's year is after the last cell's. */
  function ShouldShowRight(max: Option<Moment>, board: seq<seq<YearCell>>): (r: bool)
    requires |board| > 0 && |board[|board| - 1]| > 0
    ensures var last := board[|board| - 1];
            r <==> max.None? || (max.value.Valid? && max.value.at.date.year > last[|last| - 1].date.date.year)
  {
    var last := board[|board| - 1];
    if max.Some? then IsAfter(max.value, Valid(last[|last| - 1].date), Year) else true
  }

  // ---------------------------------------------------------------------------
  // Labels

  /** `getHeaderLabel`: the caller's year formatter when there is one, else
      the year formatted with `yearFormat`. */
  function GetHeaderLabel(codec: Codec, config: YearConfig, hooks: YearHooks, year: Moment): (r: string)
    ensures hooks.yearFormatter.Some? ==> r == hooks.yearFormatter.value(year)
    ensures hooks.yearFormatter.None? ==> r == Format(codec, year, config.yearFormat)
  {
    if hooks.yearFormatter.Some? then hooks.yearFormatter.value(year)
    else Format(codec, year, config.yearFormat)
  }

  /** `getYearBtnText`: the caller's button formatter when there is one, else
      the year formatted with `yearBtnFormat`. */
  function GetYearBtnText(codec: Codec, config: YearConfig, hooks: YearHooks, year: Moment): (r: string)
    ensures hooks.yearBtnFormatter.Some? ==> r == hooks.yearBtnFormatter.value(year)
    ensures hooks.yearBtnFormatter.None? ==> r == Format(codec, year, config.yearBtnFormat)
  {
    if hooks.yearBtnFormatter.Some? then hooks.yearBtnFormatter.value(year)
    else Format(codec, year, config.yearBtnFormat)
  }

  /** A supplied formatter wins over the format strings, for the header and
      for the buttons. */
  lemma FormattersOverrideFormats(codec: Codec, config: YearConfig, hooks: YearHooks, m: Moment,
                                  yearFormat: string, yearBtnFormat: string)
    requires hooks.yearFormatter.Some? && hooks.yearBtnFormatter.Some?
    ensures var other := config.(yearFormat := yearFormat, yearBtnFormat := yearBtnFormat);
            GetHeaderLabel(codec, other, hooks, m) == GetHeaderLabel(codec, config, hooks, m)
            && GetYearBtnText(codec, other, hooks, m) == GetYearBtnText(codec, config, hooks, m)
  {
  }

  // ---------------------------------------------------------------------------
  // The board

  /** `IYear`: one cell of the board. */
  datatype YearCell = YearCell(
    date: DateTime,
    selected: bool,
    currentYear: bool,
    disabled: bool,
    text: string)

  /** The cell the loop body builds when its running index is `index`. */
  function YearCellAt(codec: Codec, config: YearConfig, hooks: YearHooks, index: DateTime,
                      selected: seq<Moment>, now: Moment): YearCell
  {
    var t := Valid(index);
    YearCell(
      index,
      exists j | 0 <= j < |selected| :: IsSame(t, selected[j], Year),
      IsSame(t, now, Year),
      IsYearDisabled(t, config, hooks),
      GetYearBtnText(codec, config, hooks, t))
  }

  /** How many years the board reaches back: half the number of cells. For
      an odd number of cells dayjs rounds the fractional half itself; either
      neighbour of the half is admitted. */
  predicate IsHalfOf(size: int, back: int) {
    size / 2 <= back <= size / 2 + size % 2
  }

  /** The board the loop builds: `rows` rows of `cols` cells, cell `(r, c)`
      holding the start of year `first + r * cols + c`. */
  function YearsBoard(codec: Codec, config: YearConfig, hooks: YearHooks, first: int,
                      selected: seq<Moment>, now: Moment): (board: seq<seq<YearCell>>)
    requires config.numOfYearRows >= 0 && config.numOfYearCols >= 0
    ensures |board| == config.numOfYearRows
    ensures forall r | 0 <= r < |board| :: |board[r]| == config.numOfYearCols
  {
    var cols := config.numOfYearCols;
    seq(config.numOfYearRows, r requires 0 <= r < config.numOfYearRows =>
      seq(cols, c requires 0 <= c < cols =>
        YearCellAt(codec, config, hooks, StartOfYear(first + r * cols + c), selected, now)))
  }

  /** `generateYears`: starting `back` years before the anchor year, one cell
      per year, the running index moved on by one year after each cell. */
  method GenerateYears(codec: Codec, config: YearConfig, hooks: YearHooks, year: DateTime,
                       selected: seq<Moment>, now: Moment, back: int) returns (board: seq<seq<YearCell>>)
    requires config.numOfYearRows >= 0 && config.numOfYearCols >= 0
    requires IsHalfOf(config.numOfYearRows * config.numOfYearCols, back)
    ensures board == YearsBoard(codec, config, hooks, year.date.year - back, selected, now)
  {
    var first := year.date.year - back;
    var cols := config.numOfYearCols;
    ghost var want := YearsBoard(codec, config, hooks, first, selected, now);
    var index := StartOfYear(first);
    board := [];
    var r := 0;
    while r < config.numOfYearRows
      invariant 0 <= r <= config.numOfYearRows
      invariant |board| == r
      invariant forall i | 0 <= i < r :: board[i] == want[i]
      invariant index == StartOfYear(first + r * cols)
    {
      var row := [];
      var c := 0;
      while c < cols
        invariant 0 <= c <= cols
        invariant |row| == c
        invariant forall j | 0 <= j < c :: row[j] == want[r][j]
        invariant index == StartOfYear(first + r * cols + c)
      {
        row := row + [YearCellAt(codec, config, hooks, index, selected, now)];
        index := StartOfYear(index.date.year + 1);
        c := c + 1;
      }
      assert row == want[r];
      assert first + r * cols + cols == first + (r + 1) * cols;
      board := board + [row];
      r := r + 1;
    }
  }

  /** Cell `(r, c)` is the start of year `first + r * cols + c`; it is
      selected iff some selected date falls in its year, current iff `now`
      does, and disabled and labelled as that date. */
  lemma BoardCellIsItsYear(codec: Codec, config: YearConfig, hooks: YearHooks, first: int,
                           selected: seq<Moment>, now: Moment, r: int, c: int)
    requires config.numOfYearRows >= 0 && config.numOfYearCols >= 0
    requires 0 <= r < config.numOfYearRows && 0 <= c < config.numOfYearCols
    ensures var cell := YearsBoard(codec, config, hooks, first, selected, now)[r][c];
            && cell.date == DateTime(Civil(first + r * config.numOfYearCols + c, 1, 1), 0)
            && (cell.selected <==> exists j | 0 <= j < |selected| :: selected[j].Valid?
                                     && selected[j].at.date.year == cell.date.date.year)
            && (cell.currentYear <==> now.Valid? && now.at.date.year == cell.date.date.year)
            && cell.disabled == IsYearDisabled(Valid(cell.date), config, hooks)
            && cell.text == GetYearBtnText(codec, config, hooks, Valid(cell.date))
  {
    var index := StartOfYear(first + r * config.numOfYearCols + c);
    var cell := YearsBoard(codec, config, hooks, first, selected, now)[r][c];
    assert cell == YearCellAt(codec, config, hooks, index, selected, now);
  }

  /** The board covers `rows * cols` consecutive years: the first cell is
      year `first`, the last is `first + rows * cols - 1`, and each cell is
      one year after its row-major predecessor. */
  lemma {:induction false} BoardIsConsecutive(codec: Codec, config: YearConfig, hooks: YearHooks, first: int,
                                              selected: seq<Moment>, now: Moment)
    requires config.numOfYearRows >= 1 && config.numOfYearCols >= 1
    ensures var board := YearsBoard(codec, config, hooks, first, selected, now);
            var rows, cols := config.numOfYearRows, config.numOfYearCols;
            && board[0][0].date.date.year == first
            && board[rows - 1][cols - 1].date.date.year == first + rows * cols - 1
            && (forall r, c | 0 <= r < rows && 0 <= c < cols - 1 ::
                  board[r][c + 1].date.date.year == board[r][c].date.date.year + 1)
            && (forall r | 0 <= r < rows - 1 ::
                  board[r + 1][0].date.date.year == board[r][cols - 1].date.date.year + 1)
  {
    var board: seq<seq<YearCell>> := YearsBoard(codec, config, hooks, first, selected, now);
    var rows, cols := config.numOfYearRows, config.numOfYearCols;
    BoardCellIsItsYear(codec, config, hooks, first, selected, now, 0, 0);
    BoardCellIsItsYear(codec, config, hooks, first, selected, now, rows - 1, cols - 1);
    assert (rows - 1) * cols + (cols - 1) == rows * cols - 1;
    forall r, c | 0 <= r < rows && 0 <= c < cols - 1
      ensures board[r][c + 1].date.date.year == board[r][c].date.date.year + 1
    {
      BoardCellIsItsYear(codec, config, hooks, first, selected, now, r, c);
      BoardCellIsItsYear(codec, config, hooks, first, selected, now, r, c + 1);
    }
    forall r | 0 <= r < rows - 1
      ensures board[r + 1][0].date.date.year == board[r][cols - 1].date.date.year + 1
    {
      BoardCellIsItsYear(codec, config, hooks, first, selected, now, r, cols - 1);
      BoardCellIsItsYear(codec, config, hooks, first, selected, now, r + 1, 0);
      assert (r + 1) * cols == r * cols + cols;
    }
  }

  /** The generation example of the service's tests: four rows of five
      anchored at 14 January 1987, with 14 January 1987 selected, show the
      years 1977 to 1996, mark only 1987 as selected, and mark no year as
      current when today lies outside them. */
  lemma GenerateYearsExample(codec: Codec, config: YearConfig, hooks: YearHooks, now: Moment)
    requires config.numOfYearRows == 4 && config.numOfYearCols == 5
    ensures var selected := [Valid(DateTime(Civil(1987, 1, 14), 0))];
            var board := YearsBoard(codec, config, hooks, 1987 - 10, selected, now);
            && IsHalfOf(4 * 5, 10)
            && (forall r, c | 0 <= r < 4 && 0 <= c < 5 ::
                  board[r][c].date.date.year == 1977 + 5 * r + c
                  && (board[r][c].selected <==> board[r][c].date.date.year == 1987)
                  && (now.Valid? && !(1977 <= now.at.date.year <= 1996) ==> !board[r][c].currentYear))
            && board[0][0].date.date.year == 1977 && board[3][4].date.date.year == 1996
  {
    var selected := [Valid(DateTime(Civil(1987, 1, 14), 0))];
    var board: seq<seq<YearCell>> := YearsBoard(codec, config, hooks, 1977, selected, now);
    forall r, c | 0 <= r < 4 && 0 <= c < 5
      ensures board[r][c].date.date.year == 1977 + 5 * r + c
      ensures board[r][c].selected <==> board[r][c].date.date.year == 1987
      ensures now.Valid? && !(1977 <= now.at.date.year <= 1996) ==> !board[r][c].currentYear
    {
      BoardCellIsItsYear(codec, config, hooks, 1977, selected, now, r, c);
      if board[r][c].date.date.year == 1987 {
        assert selected[0].Valid? && selected[0].at.date.year == 1987;
      }
    }
    BoardCellIsItsYear(codec, config, hooks, 1977, selected, now, 3, 4);
  }

  /** When the left arrow is hidden by a valid minimum, every year before the
      board is disabled (absent a callback). */
  lemma HiddenLeftMeansEarlierYearsDisabled(config: YearConfig, hooks: YearHooks, board: seq<seq<YearCell>>,
                                            d: DateTime)
    requires |board| > 0 && |board[0]| > 0
    requires hooks.isYearDisabled.None? && config.min.Some? && config.min.value.Valid?
    requires !ShouldShowLeft(config.min, board)
    requires d.date.year < board[0][0].date.date.year
    ensures IsYearDisabled(Valid(d), config, hooks)
  {
  }

  /** When the right arrow is hidden by a valid maximum, every year after the
      board is disabled (absent a callback). */
  lemma HiddenRightMeansLaterYearsDisabled(config: YearConfig, hooks: YearHooks, board: seq<seq<YearCell>>,
                                           d: DateTime)
    requires |board| > 0 && |board[|board| - 1]| > 0
    requires hooks.isYearDisabled.None? && config.max.Some? && config.max.value.Valid?
    requires !ShouldShowRight(config.max, board)
    requires d.date.year > board[|board| - 1][|board[|board| - 1]| - 1].date.date.year
    ensures IsYearDisabled(Valid(d), config, hooks)
  {
  }
}
