# angular-datepicker date engine, in Dafny

A model of the date-selection engine of the angular-datepicker library: the
Angular-free services under `src/lib` that decide what a picker shows and
accepts. Dates are plain values here. A `DateTime` is a proleptic Gregorian
date plus the seconds since midnight. A `Moment` is such a value or dayjs's
"invalid date". Comparing "at a granularity" (year, month, day, second)
compares integer keys cut down to that unit.

The modules follow the services:

- `Dates` (dates.dfy): the calendar arithmetic the dayjs calls stand for:
  day numbers, week days, adding days, months and seconds, start of month
  and year, and `isSame`/`isBefore`/`isAfter` with a unit. Formatting and
  parsing are an abstract `Codec` of functions.
- `Strings` (strings.dfy): JavaScript `split`, `trim`, `join` and
  `filter(Boolean)` on strings.
- `Utils` (utils.dfy): `UtilsService`. It covers:
  - classifying the four shapes of a picker value and converting them to and
    from the canonical date sequence;
  - the `' | '` display string;
  - toggling a cell in a selection;
  - `onlyTime`, `granularityFromType`, `isDateInRange` and
    `shouldResetCurrentView`;
  - `getDefaultDisplayDate`.
- `Validation` (validation.dfy): the validator closure `createValidator`
  builds: a `format` error, or the map of every violated limit, or `null`.
- `DayCalendar` (day_calendar.dfy): `DayCalendarService`. It covers:
  - the week-day column maps;
  - the 6×7 month board starting on the configured first week day;
  - trimming a last week that holds no day of the month;
  - disabling, navigation guards, labels and the configuration merge.
- `MonthCalendar` (month_calendar.dfy): `MonthCalendarService`: the month
  grid of a year, config validation, disabling, navigation and labels.
- `YearCalendar` (year_calendar.dfy): `YearCalendarService`: the grid of
  consecutive years around an anchor year, config validation, disabling,
  navigation and labels.
- `TimeSelect` (time_select.dfy): `TimeSelectService`. It covers:
  - stepping by hours, minutes or seconds;
  - the AM/PM toggle;
  - the guards that hide a step leaving the bounds;
  - the display format and the configuration merge.
- `DayTimeCalendar` (day_time_calendar.dfy): `DayTimeCalendarService`:
  merging a picked day with a picked time, clamped to `min`/`max`.

The wall clock (`dayjs()`) is a parameter (`now`, `today`). Callbacks and
formatters live in separate `*Hooks` datatypes, so configurations compare by
value. A caller's configuration is a `Raw*Config` whose fields are all
`Option`, and `GetConfig` fills in the defaults.

Where the code and the prose description of the library differ, the model
follows the code:

- `generateYear` shows January in every cell (see Findings).
- In multi-select mode `getDefaultDisplayDate` never shows a selected date
  (see Findings).
- `updateDay` is not always at or after `min`. The `max` clamp runs last, so
  crossed bounds give `max`.

## Model

| member | source | states |
|---|---|---|
| Dates.AddMonths | src/lib/day-calendar/day-calendar.service.ts:63-64 | moving by `n` months moves the month index by exactly `n`, keeps the time of day and keeps the day of month, clamped to the target month's length |
| Dates.StartOfMonth | src/lib/day-calendar/day-calendar.service.ts:57 | `startOf('month')` is midnight on the 1st of the same month |
| Dates.AddSecondsInverse | src/lib/time-select/time-select.service.ts:84-97 | adding and then subtracting the same number of seconds gives back the original date-time, across day boundaries |
| Dates.SameDayIsSameDate | src/lib/day-calendar/day-calendar.service.ts:71-75 | two date-times are the same day exactly when their calendar dates are equal |
| Dates.SameMonthIsSameYearAndMonth | src/lib/month-calendar/month-calendar.service.ts:50-51 | two date-times are the same month exactly when year and month agree |
| Strings.Trim | src/lib/common/services/utils/utils.service.ts:295 | `trim` gives an infix of the input with no white space at either end |
| Strings.TrimKeepsAbsent | src/lib/common/services/utils/utils.service.ts:295 | trimming cannot introduce a character, so a trimmed piece of a `'\|'` split stays free of `'\|'` |
| Strings.SplitJoin | src/lib/common/services/utils/utils.service.ts:295 | splitting the join of separator-free pieces gives the pieces back |
| Strings.JoinSplit | src/lib/common/services/utils/utils.service.ts:295 | joining the pieces of a split with the separator restores the string |
| Strings.NonEmpty | src/lib/common/services/utils/utils.service.ts:159 | `filter(Boolean)` keeps exactly the non-empty strings and changes nothing when none is empty |
| Utils.ElementAt | src/lib/common/services/utils/utils.service.ts:67-68 | indexing gives the element inside the bounds and `undefined` outside them |
| Utils.ConvertToDayjs | src/lib/common/services/utils/utils.service.ts:38-47 | nothing exactly for a missing or empty value; a date is kept; a string is parsed loosely with the format |
| Utils.GetInputType | src/lib/common/services/utils/utils.service.ts:78-96 | each kind holds exactly for its shapes: an empty array counts as a date array, a missing value follows the multi-select flag |
| Utils.ParseStrict | src/lib/common/services/utils/utils.service.ts:104 | a strict parse gives a valid date exactly when the format accepts the text |
| Utils.ConvertToDayjsArray | src/lib/common/services/utils/utils.service.ts:99-120 | an empty string gives `[]`; a string array drops empty strings and strict-parses the rest, keeping invalid parses; dates are kept one for one |
| Utils.ConvertFromDayjsArray | src/lib/common/services/utils/utils.service.ts:123-138 | String shape: the first date formatted, or nothing for an empty selection. StringArr: every date formatted. Date shapes: the first date, or the whole sequence |
| Utils.ConvertRoundTrip | src/lib/common/services/utils/utils.service.ts:99-138 | for a format that reads back what it writes, converting a selection out to any shape and back restores it (single-valued shapes need at most one date) |
| Utils.FormatParsesBack | src/lib/common/services/utils/utils.service.ts:104-130 | a formatted date, valid or invalid, is non-empty and strict-parses back to itself under such a format |
| Utils.ConvertToString | src/lib/common/services/utils/utils.service.ts:140-160 | a missing value gives `""`; a string or a date gives itself, formatted; a date array gives its formatted dates, non-empty ones joined by `' \| '`; a string array gives its texts read loosely and re-formatted, joined the same way, or the error the source throws when one is empty |
| Utils.DatesStringToStringArray | src/lib/common/services/utils/utils.service.ts:294-296 | every piece is non-empty, trimmed and free of `'\|'` |
| Utils.TrimAll | src/lib/common/services/utils/utils.service.ts:295 | each element is trimmed in place, and an element without `'\|'` stays without it |
| Utils.DisplayStringRoundTrip | src/lib/common/services/utils/utils.service.ts:294-296 | for non-empty, trimmed, `'\|'`-free entries, splitting their `' \| '` join gives the entries back |
| Utils.EmptyDisplayString | src/lib/common/services/utils/utils.service.ts:295 | the empty string splits into no entries |
| Utils.DisplayOfDates | src/lib/common/services/utils/utils.service.ts:140-160 | the display string of a selection reads back as its formatted dates when each is a display entry |
| Utils.DisplayOfTexts | src/lib/common/services/utils/utils.service.ts:145-159 | the display string of non-empty texts reads back as the texts re-formatted when each is a display entry |
| Utils.Unselect | src/lib/common/services/utils/utils.service.ts:179 | the result is no longer than the input and holds no date equal to the removed one at the granularity |
| Utils.UnselectSingleton | src/lib/common/services/utils/utils.service.ts:179 | a single date is kept exactly when it differs from the removed one |
| Utils.UnselectAppend | src/lib/common/services/utils/utils.service.ts:179 | unselecting distributes over concatenation; with the singleton case this is the order-keeping `filter` |
| Utils.UnselectKeepsOthers | src/lib/common/services/utils/utils.service.ts:179 | every other date keeps its multiplicity |
| Utils.UpdateSelected | src/lib/common/services/utils/utils.service.ts:172-183 | multi-select: an unselected cell is appended; a selected cell gives `Unselect` of the selection, so exactly the dates equal to it go and the others stay in order with their counts. Single-select: `[date]` or `[]` |
| Utils.ToggleTwice | src/lib/common/services/utils/utils.service.ts:176-179 | in multi-select mode, selecting and then unselecting a cell that matched nothing restores the selection |
| Utils.OnlyTime | src/lib/common/services/utils/utils.service.ts:193-195 | the projection keeps validity and the time of day |
| Utils.OnlyTimeCompares | src/lib/common/services/utils/utils.service.ts:245-257 | comparing projections to the second is comparing times of day, in all three relations |
| Utils.GranularityFromType | src/lib/common/services/utils/utils.service.ts:197-206 | time and day-time compare to the second; day, month and year at their own unit, each exactly |
| Utils.IsDateInRange | src/lib/common/services/utils/utils.service.ts:313-315 | only valid dates can be in range; for valid dates, in range iff neither before `from` nor after `to` in calendar order, both ends inclusive |
| Utils.ShouldResetCurrentView | src/lib/common/services/utils/utils.service.ts:325-341 | true iff both configurations exist and a min or max bound appeared or moved to another day |
| Utils.RemovingBoundsKeepsView | src/lib/common/services/utils/utils.service.ts:325-341 | removing bounds, or keeping them on the same day, never resets the view |
| Utils.GetDefaultDisplayDate | src/lib/common/services/utils/utils.service.ts:58-75 | as written: the current view wins, then a future minimum; the result is always now, the current view, the minimum or the first selected date |
| Utils.DefaultDisplayIgnoresMultiSelection | src/lib/common/services/utils/utils.service.ts:66-69 | as written, multi-select mode with a selection and nothing else gives now |
| Utils.GetDefaultDisplayDateIntended | src/lib/common/services/utils/utils.service.ts:58-75 | as intended: after the current view and a future minimum, the last selected date (multi-select) or the first (single-select), else now |
| Utils.DefaultDisplayFixAgreesElsewhere | src/lib/common/services/utils/utils.service.ts:58-75 | the two definitions agree everywhere outside multi-select mode with a selection and nothing earlier to go by |
| Validation.CheckFor | src/lib/common/services/utils/utils.service.ts:216-262 | a limit registers exactly one check, with its converted bound, iff it is set (present and not empty) |
| Validation.CompileIsOrdered | src/lib/common/services/utils/utils.service.ts:216-262 | at most four checks, in the order minDate, maxDate, minTime, maxTime |
| Validation.CompileHasOnlySetLimits | src/lib/common/services/utils/utils.service.ts:216-262 | every check belongs to a set limit and carries that limit's bound |
| Validation.CompileHasEverySetLimit | src/lib/common/services/utils/utils.service.ts:216-262 | every set limit has its check |
| Validation.CreateValidator | src/lib/common/services/utils/utils.service.ts:208-262 | the validator compares at the mode's granularity and holds exactly the checks of the set limits, in registration order; time bounds are projected to a time of day |
| Validation.DateLimitsAreInclusive | src/lib/common/services/utils/utils.service.ts:216-238 | minDate accepts a valid date iff its key is at least the bound's; maxDate iff at most; an invalid bound rejects everything |
| Validation.TimeLimitsCompareTimesOfDay | src/lib/common/services/utils/utils.service.ts:240-262 | minTime and maxTime compare only times of day, inclusively, whatever the dates |
| Validation.Violated | src/lib/common/services/utils/utils.service.ts:280-288 | the reference set: a key is in it iff some check with that key fails on the selection |
| Validation.ReduceAddsViolatedKeys | src/lib/common/services/utils/utils.service.ts:280-288 | the fold adds exactly the violated keys to the map |
| Validation.ReduceReportsSelection | src/lib/common/services/utils/utils.service.ts:280-288 | every violated key maps to the whole normalised selection, and earlier entries are otherwise kept |
| Validation.ReduceKeepsValidFlag | src/lib/common/services/utils/utils.service.ts:220-261 | the shared `isValid` flag survives exactly when nothing is violated |
| Validation.Validate | src/lib/common/services/utils/utils.service.ts:264-291 | a `format` error carrying the raw input exactly when some normalised date is invalid |
| Validation.ValidateReportsExactlyViolations | src/lib/common/services/utils/utils.service.ts:264-291 | apart from format errors: `null` iff nothing is violated, else a map whose keys are exactly the violated limits, each with the selection |
| Validation.ViolatedKeysOfBuiltValidator | src/lib/common/services/utils/utils.service.ts:208-291 | a built validator is violated on a key iff that limit is set and some selected date fails its comparison |
| Validation.NoLimitsAcceptEverything | src/lib/common/services/utils/utils.service.ts:264-291 | without limits every valid selection passes |
| Validation.ExampleChecks | src/lib/common/services/utils/utils.service.ts:216-238 | day-mode limits 2016-10-25..2017-10-25 compile to a minDate and a maxDate check at day granularity |
| Validation.ExampleVerdict | src/lib/common/services/utils/utils.service.ts:264-291 | one parsed text gets `null`, or the map of exactly the failing example limits |
| Validation.ValidatorExample | src/lib/common/services/utils/utils.service.ts:208-291 | the lower bound passes, the day before fails minDate only, the day after the upper bound fails maxDate only, and an unparsable text gives only the format error |
| DayCalendar.IndexOfDay | src/lib/day-calendar/day-calendar.service.ts:26 | `DAYS.indexOf` is the position of the week day in `DAYS` |
| DayCalendar.Rotated | src/lib/day-calendar/day-calendar.service.ts:45-46 | the rotated week has seven days, column `i` holding week day `(first + i) mod 7` |
| DayCalendar.RotatedIsDistinct | src/lib/day-calendar/day-calendar.service.ts:45-46 | the rotated week repeats no day |
| DayCalendar.DayToIndexPositions | src/lib/day-calendar/day-calendar.service.ts:47-51 | the `reduce` writing `map[day] = index` puts each distinct day at its own position |
| DayCalendar.IndexToDayPositions | src/lib/day-calendar/day-calendar.service.ts:156-160 | the `reduce` writing `map[index] = day` is defined on exactly the positions and holds their days |
| DayCalendar.GenerateDaysMap | src/lib/day-calendar/day-calendar.service.ts:44-52 | every week day gets a column 0..6 consistent with the rotation, and the first day of the week gets column 0 |
| DayCalendar.GenerateDaysIndexMap | src/lib/day-calendar/day-calendar.service.ts:153-161 | defined on exactly the columns 0..6, column `i` showing week day `(first + i) mod 7` |
| DayCalendar.DaysMapsAreInverse | src/lib/day-calendar/day-calendar.service.ts:153-161 | the two maps are inverse bijections between the seven week days and the columns 0..6 |
| DayCalendar.GetConfig | src/lib/day-calendar/day-calendar.service.ts:13-42 | every field is the caller's when defined, else its default; `min`/`max` are converted with the merged format |
| DayCalendar.GetConfigIsIdempotent | src/lib/day-calendar/day-calendar.service.ts:31-42 | resolving a resolved configuration again changes nothing |
| DayCalendar.IsDateDisabled | src/lib/day-calendar/day-calendar.service.ts:122-132 | the callback decides when supplied; otherwise disabled iff before `min` or after `max` at day granularity |
| DayCalendar.EnabledIsInRange | src/lib/day-calendar/day-calendar.service.ts:122-132 | without a callback and with valid bounds, a day is enabled iff `isDateInRange` accepts it (both bounds inclusive) |
| DayCalendar.ShouldShowLeft | src/lib/day-calendar/day-calendar.service.ts:144-146 | shown iff no minimum or the minimum's month is before the view's |
| DayCalendar.ShouldShowRight | src/lib/day-calendar/day-calendar.service.ts:149-151 | shown iff no maximum or the maximum's month is after the view's |
| DayCalendar.HiddenLeftMeansEarlierMonthsDisabled | src/lib/day-calendar/day-calendar.service.ts:144-146 | when the left arrow is hidden, every day of every earlier month is disabled |
| DayCalendar.HiddenRightMeansLaterMonthsDisabled | src/lib/day-calendar/day-calendar.service.ts:149-151 | when the right arrow is hidden, every day of every later month is disabled |
| DayCalendar.GetHeaderLabel | src/lib/day-calendar/day-calendar.service.ts:135-141 | the month formatter when supplied, else the month formatted with `monthFormat` |
| DayCalendar.GetDayBtnText | src/lib/day-calendar/day-calendar.service.ts:204-210 | the button formatter when supplied, else the day formatted with `dayBtnFormat` |
| DayCalendar.FormattersOverrideFormats | src/lib/day-calendar/day-calendar.service.ts:204-210 | with formatters supplied, changing the format strings changes neither label |
| DayCalendar.BoardStart | src/lib/day-calendar/day-calendar.service.ts:57-60 | the first board day falls on the configured week day, on or before the 1st and fewer than 7 days before it |
| DayCalendar.FindBoardStart | src/lib/day-calendar/day-calendar.service.ts:56-60 | the day-by-day search backwards from the 1st stops at exactly that first board day |
| DayCalendar.BoardDays | src/lib/day-calendar/day-calendar.service.ts:62-81 | the board shows 42 consecutive days from the board start |
| DayCalendar.DaysOfCalendar | src/lib/day-calendar/day-calendar.service.ts:67-81 | 42 cells, cell `i` at midnight of the day `i` days after the board start, each carrying its own day's flags |
| DayCalendar.Weeks | src/lib/day-calendar/day-calendar.service.ts:83-91 | cell `i` is filed as week `i / 7`, column `i mod 7`, seven to a week |
| DayCalendar.FullBoard | src/lib/day-calendar/day-calendar.service.ts:54-91 | before trimming, the board is six weeks of seven cells |
| DayCalendar.RemoveNearMonthWeeks | src/lib/day-calendar/day-calendar.service.ts:220-226 | the last week is dropped iff none of its cells is in the anchor month |
| DayCalendar.GenerateMonthArray | src/lib/day-calendar/day-calendar.service.ts:54-98 | with near-month days shown, the full board; otherwise the full board iff its sixth week holds a day of the month, else its first five weeks |
| DayCalendar.CellDate | src/lib/day-calendar/day-calendar.service.ts:67-91 | cell `(w, c)` is the cell of board day `7w + c` |
| DayCalendar.CellDay | src/lib/day-calendar/day-calendar.service.ts:70 | cell `(w, c)` shows board day `7w + c` at midnight |
| DayCalendar.BoardIsConsecutive | src/lib/day-calendar/day-calendar.service.ts:56-81 | board day `7w + c` falls on the week day that column `c` shows |
| DayCalendar.CellFlags | src/lib/day-calendar/day-calendar.service.ts:69-77 | selected iff some selected date is the same day; current/previous/next month by month index; current day iff today's date; disabled by `isDateDisabled` |
| DayCalendar.CellAtFlags | src/lib/day-calendar/day-calendar.service.ts:69-77 | the same flag meanings for the cell of any single day |
| DayCalendar.MonthDayOnBoard | src/lib/day-calendar/day-calendar.service.ts:57-81 | every day of the anchor month is among the 42 board days, at its distance from the start; the 1st is in the first week |
| DayCalendar.BoardShowsWholeMonth | src/lib/day-calendar/day-calendar.service.ts:54-91 | every day of the anchor month is on the full board, at week `k / 7`, column `k mod 7` |
| DayCalendar.GeneratedIsTrimmed | src/lib/day-calendar/day-calendar.service.ts:93-95 | the generated board is the full board or its first five weeks, and only when the sixth holds no day of the month |
| DayCalendar.TrimKeepsMonthCell | src/lib/day-calendar/day-calendar.service.ts:220-226 | trimming keeps every cell of the anchor month in place |
| DayCalendar.GeneratedBoardShowsWholeMonth | src/lib/day-calendar/day-calendar.service.ts:54-98 | every day of the anchor month is in the generated board, trimmed or not |
| DayCalendar.BoardHasFiveOrSixWeeks | src/lib/day-calendar/day-calendar.service.ts:93-98 | the generated board has five or six weeks and its first week holds a day of the month |
| MonthCalendar.MonthRowsAreDivisorsOfTwelve | src/lib/month-calendar/month-calendar.service.ts:107-111 | the accepted row counts are exactly 1, 2, 3, 4, 6 and 12 |
| MonthCalendar.GetConfig | src/lib/month-calendar/month-calendar.service.ts:12-40 | an error with the source's message iff the row count is invalid; otherwise each field defaulted and `min`/`max` converted |
| MonthCalendar.GetConfigIsIdempotent | src/lib/month-calendar/month-calendar.service.ts:28-40 | resolving a resolved configuration succeeds and changes nothing |
| MonthCalendar.IsMonthDisabled | src/lib/month-calendar/month-calendar.service.ts:63-73 | the callback decides when supplied; otherwise disabled iff before `min` or after `max` at month granularity |
| MonthCalendar.MonthsBetweenBoundsAreEnabled | src/lib/month-calendar/month-calendar.service.ts:63-73 | months from the minimum's to the maximum's, both included, are enabled |
| MonthCalendar.EarlierMonthsAreDisabled | src/lib/month-calendar/month-calendar.service.ts:68-70 | without a callback, any day of any month before a valid minimum's month is disabled |
| MonthCalendar.ShouldShowLeft | src/lib/month-calendar/month-calendar.service.ts:75-77 | shown iff no minimum or its year is before the view's |
| MonthCalendar.ShouldShowRight | src/lib/month-calendar/month-calendar.service.ts:79-81 | shown iff no maximum or its year is after the view's |
| MonthCalendar.HiddenLeftMeansEarlierYearsDisabled | src/lib/month-calendar/month-calendar.service.ts:75-77 | when the left arrow is hidden, every month of every earlier year is disabled |
| MonthCalendar.HiddenRightMeansLaterYearsDisabled | src/lib/month-calendar/month-calendar.service.ts:79-81 | when the right arrow is hidden, every month of every later year is disabled |
| MonthCalendar.GetHeaderLabel | src/lib/month-calendar/month-calendar.service.ts:83-89 | the year formatter when supplied, else the year formatted with `yearFormat` |
| MonthCalendar.GetMonthBtnText | src/lib/month-calendar/month-calendar.service.ts:91-97 | the button formatter when supplied, else the month formatted with `monthBtnFormat` |
| MonthCalendar.FormattersOverrideFormats | src/lib/month-calendar/month-calendar.service.ts:83-97 | with formatters supplied, the format strings change neither label |
| MonthCalendar.LabelsFormatTheDate | src/lib/month-calendar/month-calendar.service.ts:83-97 | without formatters, both labels are the valid date rendered with their formats |
| MonthCalendar.MonthCols | src/lib/month-calendar/month-calendar.service.ts:46 | a valid row count gives 1..12 columns and rows × columns = 12 |
| MonthCalendar.GenerateYear | src/lib/month-calendar/month-calendar.service.ts:42-61 | as written: `rows` rows of `12 / rows` cells |
| MonthCalendar.GenerateYearShowsOnlyJanuary | src/lib/month-calendar/month-calendar.service.ts:43-56 | as written, every cell is January 1st of the anchor year, selected iff a selected date lies in that January, current iff now does, disabled and labelled as that date |
| MonthCalendar.MonthStart | src/lib/month-calendar/month-calendar.service.ts:56 | month `k` of a year, counted from 0, starts on the 1st of month `k + 1` |
| MonthCalendar.GenerateYearIntended | src/lib/month-calendar/month-calendar.service.ts:42-61 | as intended: the same shape as the board as written |
| MonthCalendar.IntendedCellIsItsMonth | src/lib/month-calendar/month-calendar.service.ts:42-61 | as intended, cell `(r, c)` is the 1st of month `r * cols + c + 1`, selected iff a selected date lies in that month, current iff now does, disabled and labelled as that date |
| MonthCalendar.IntendedBoardCoversYear | src/lib/month-calendar/month-calendar.service.ts:45-56 | as intended, each of the twelve months has a cell |
| MonthCalendar.GenerateYearMissesFebruary | src/lib/month-calendar/month-calendar.service.ts:43-56 | with the default 3 rows, the second cell is January as written and February as intended |
| YearCalendar.GetConfig | src/lib/year-calendar/year-calendar.service.ts:12-39 | an error iff rows or columns lie outside 1..12, the rows message first; otherwise each field defaulted and `min`/`max` converted |
| YearCalendar.GridIsCheckedBeforeBounds | src/lib/year-calendar/year-calendar.service.ts:33-35 | whether `getConfig` fails, and the error it gives, do not depend on `min` and `max` |
| YearCalendar.ValidationExamples | src/lib/year-calendar/year-calendar.service.spec.ts:123-151 | -1, 0 and 13 rows (or columns) fail with their message; 1, 2 and 12 pass |
| YearCalendar.IsYearDisabled | src/lib/year-calendar/year-calendar.service.ts:63-73 | the callback decides when supplied; otherwise disabled iff before `min` or after `max` at year granularity |
| YearCalendar.EnabledIffYearBetweenBounds | src/lib/year-calendar/year-calendar.service.ts:63-73 | without a callback and with valid bounds, enabled iff the year lies between the bounds' years, both included |
| YearCalendar.DisablingExample | src/lib/year-calendar/year-calendar.service.spec.ts:51-74 | with bounds a year either side of 9 April 2017, 2016..2018 are enabled and 2015 and 2019 disabled |
| YearCalendar.ShouldShowLeft | src/lib/year-calendar/year-calendar.service.ts:75-78 | shown iff no minimum or its year is before the first cell's year |
| YearCalendar.ShouldShowRight | src/lib/year-calendar/year-calendar.service.ts:80-84 | shown iff no maximum or its year is after the last cell's year |
| YearCalendar.GetHeaderLabel | src/lib/year-calendar/year-calendar.service.ts:86-92 | the year formatter when supplied, else the year formatted with `yearFormat` |
| YearCalendar.GetYearBtnText | src/lib/year-calendar/year-calendar.service.ts:94-100 | the button formatter when supplied, else the year formatted with `yearBtnFormat` |
| YearCalendar.FormattersOverrideFormats | src/lib/year-calendar/year-calendar.service.spec.ts:104-113 | with formatters supplied, the format strings change neither label |
| YearCalendar.YearsBoard | src/lib/year-calendar/year-calendar.service.spec.ts:38-49 | the board has exactly `numOfYearRows` rows of `numOfYearCols` cells |
| YearCalendar.GenerateYears | src/lib/year-calendar/year-calendar.service.ts:41-61 | the loop that moves its running index on by one year per cell builds exactly the closed-form board starting `back` years before the anchor |
| YearCalendar.BoardCellIsItsYear | src/lib/year-calendar/year-calendar.service.ts:47-56 | cell `(r, c)` is January 1st of year `first + r * cols + c`, selected iff a selected date has that year, current iff now does, disabled and labelled as that date |
| YearCalendar.BoardIsConsecutive | src/lib/year-calendar/year-calendar.service.ts:43-57 | the years run on by one in row-major order from `first` to `first + rows * cols - 1` |
| YearCalendar.GenerateYearsExample | src/lib/year-calendar/year-calendar.service.spec.ts:17-36 | 4×5 around 1987 with 1987 selected shows 1977..1996, marks only 1987, and marks no year current when today is outside them |
| YearCalendar.HiddenLeftMeansEarlierYearsDisabled | src/lib/year-calendar/year-calendar.service.ts:75-78 | when the left arrow is hidden, every year before the board is disabled |
| YearCalendar.HiddenRightMeansLaterYearsDisabled | src/lib/year-calendar/year-calendar.service.ts:80-84 | when the right arrow is hidden, every year after the board is disabled |
| TimeSelect.OnlyTimeOf | src/lib/time-select/time-select.service.ts:32-35 | an undefined bound stays undefined; a defined one keeps its validity and time of day |
| TimeSelect.OnlyTimeIsIdempotent | src/lib/common/services/utils/utils.service.ts:193-195 | projecting twice is projecting once |
| TimeSelect.GetConfig | src/lib/time-select/time-select.service.ts:14-46 | every field is the caller's when defined, else its default; `minTime`/`maxTime` become time-of-day projections |
| TimeSelect.GetConfigIsIdempotent | src/lib/time-select/time-select.service.ts:31-46 | resolving a resolved configuration again changes nothing |
| TimeSelect.GetConfigProjectsTimeBounds | src/lib/time-select/time-select.service.ts:32-35 | a resolved configuration's time bounds sit on the projection date |
| TimeSelect.GetTimeFormat | src/lib/time-select/time-select.service.ts:48-53 | hours (24- or 12-hour) then minutes; a seconds segment iff seconds are shown; `' ' + meridiem` iff not 24-hour |
| TimeSelect.TimeFormatTokens | src/lib/time-select/time-select.service.ts:48-53 | with a one-character separator and space-free tokens, the format splits back at the space into the clock part plus the meridiem token exactly in 12-hour mode, and the clock part splits at the separator into hours (12- or 24-hour), minutes and, exactly when seconds are shown, seconds |
| TimeSelect.DefaultTimeFormats | src/lib/time-select/time-select.service.ts:14-53 | the defaults give `hh:mm A`; with seconds and 24-hour display, `HH:mm:ss` |
| TimeSelect.StepSeconds | src/lib/time-select/time-select.service.ts:75-83 | one hour, `minutesInterval` minutes or `secondsInterval` seconds |
| TimeSelect.Increase | src/lib/time-select/time-select.service.ts:87-98 | the time moves forward by exactly one step of the unit |
| TimeSelect.Decrease | src/lib/time-select/time-select.service.ts:74-85 | the time moves back by exactly one step of the unit |
| TimeSelect.StepsCancel | src/lib/time-select/time-select.service.ts:74-98 | a step up and a step down of the same unit cancel, in either order |
| TimeSelect.ToggleMeridiem | src/lib/time-select/time-select.service.ts:100-106 | the calendar day is kept; twelve hours added before noon and subtracted from noon on; the hour becomes `(h + 12) mod 24` |
| TimeSelect.ToggleMeridiemIsInvolution | src/lib/time-select/time-select.service.ts:100-106 | toggling twice gives back the time |
| TimeSelect.RespectsLowerMeans | src/lib/time-select/time-select.service.ts:114-115 | the lower-bound test holds iff a set `min` is valid and not after the time, and a set `minTime` is valid and not after its time of day |
| TimeSelect.RespectsUpperMeans | src/lib/time-select/time-select.service.ts:124-125 | the mirror image for `max` and `maxTime` |
| TimeSelect.ShouldShowDecrease | src/lib/time-select/time-select.service.ts:108-116 | shown when no lower bound is set, and otherwise exactly when the decreased time keeps to the lower bounds |
| TimeSelect.ShouldShowIncrease | src/lib/time-select/time-select.service.ts:118-126 | shown when no upper bound is set, and otherwise exactly when the increased time keeps to the upper bounds |
| TimeSelect.ShouldShowToggleMeridiem | src/lib/time-select/time-select.service.ts:128-137 | shown when no bound is set, and otherwise exactly when the toggled time keeps to all four bounds |
| TimeSelect.DecreaseGuardIsExact | src/lib/time-select/time-select.service.ts:108-116 | with only a valid `min`, stepping down is offered iff the step does not pass below it |
| TimeSelect.IncreaseGuardIsExact | src/lib/time-select/time-select.service.ts:118-126 | with only a valid `max`, stepping up is offered iff the step does not pass above it |
| TimeSelect.ToggleGuardOnTimesOfDay | src/lib/time-select/time-select.service.ts:128-137 | with only time-of-day bounds, toggling is offered iff the toggled time of day lies between them |
| DayTimeCalendar.Combine | src/lib/day-time-calendar/day-time-calendar.service.ts:10-12 | the date of the day with the time of the time, valid iff both are |
| DayTimeCalendar.CombineAbsorbs | src/lib/day-time-calendar/day-time-calendar.service.ts:54-58 | re-combining with either part again changes nothing |
| DayTimeCalendar.CombineSplitsBack | src/lib/day-time-calendar/day-time-calendar.service.ts:37-39 | a date-time combined with itself is itself |
| DayTimeCalendar.UpdateDay | src/lib/day-time-calendar/day-time-calendar.service.ts:37-52 | the result is the merged value or one of the bounds; it is valid iff the merge is, and an invalid merge is returned as it is |
| DayTimeCalendar.UpdateDayInsideBounds | src/lib/day-time-calendar/day-time-calendar.service.ts:37-52 | inside the bounds the result is the picked day at the current time of day (now's when nothing is selected) |
| DayTimeCalendar.UpdateDayRespectsBounds | src/lib/day-time-calendar/day-time-calendar.service.ts:41-49 | never after a valid `max`; never before a valid `min` when no `max` is set; between ordered valid bounds |
| DayTimeCalendar.UpdateDayMaxWins | src/lib/day-time-calendar/day-time-calendar.service.ts:46-49 | with crossed bounds and a merge before `min`, the result is `max` |
| DayTimeCalendar.UpdateTime | src/lib/day-time-calendar/day-time-calendar.service.ts:54-58 | the current value's date (today's when none) at the given time of day, valid iff both are |
| DayTimeCalendar.UpdateTimeIsIdempotent | src/lib/day-time-calendar/day-time-calendar.service.ts:54-58 | setting the same time twice is setting it once |
| DayTimeCalendar.DayAndTimeCompose | src/lib/day-time-calendar/day-time-calendar.service.ts:37-58 | setting a time and then a day, without bounds, gives that day at that time |

## Left out

- The Angular components, `debounce` (timers), and `closestParent` and `getNativeElement` (DOM): view glue, not date logic.
- dayjs's locale data, its format-token grammar and the process-wide `dayjs.locale(...)` each `getConfig` sets. Formatting and parsing are the abstract `Codec`. The `locale` field is carried but has no effect.
- Time zones, daylight saving and milliseconds. Time arithmetic is on a uniform 86400-second day, and comparisons without a unit compare to the second.
- `clearUndefined` is modelled as the pure "defined fields win" merge. That it deletes keys from the caller's object is not modelled.
- `convertPropsToDayjs` is modelled as converting `min`/`max` in the returned configuration, without mutating anything.
- `console.log` in `convertToDayjs` is not modelled.
- Utils.OnlyTime: places the time of day on a fixed date. The source re-parses `HH:mm:ss` on the date of the moment it runs. Bounds are projected when the validator or time configuration is built (utils.service.ts:240 and :252, time-select.service.ts:33-34). Values are projected later, when validating or when a guard runs (utils.service.ts:244 and :256, time-select.service.ts:115, :125 and :135-136). When midnight falls between the two, a value on day D+1 meets a bound on day D: `minTime` then always passes and `maxTime` always fails. The model has no clock, so Validation.TimeLimitsCompareTimesOfDay and the TimeSelect guards describe only the case where both projections fall on the same day.
- `updateDay` and `updateTime` rebuild the value through the text `YYYYMMDDHH:mm:ss`. The model assumes that text reads back, which holds for four-digit years.
- JavaScript's loose values are not modelled: `null` selections, non-integer row, column or interval counts, and strings where dates are expected.
- `isDateValid`, `getValidDayjsArray`, `shouldShowCurrent`, `createArray` and `convertPropsToDayjs` are helpers outside the modelled operations.
- `generateWeekdays`, `getMonthCalendarConfig`, `getYearCalendarConfig` and the `*BtnCssClass` callbacks only forward values or read the clock.
- `getHours`, `getMinutes`, `getSeconds` and `getMeridiem` only format a time through the abstract `Codec`.
- `DayTimeCalendarService.getConfig` only overlays the time-select and day-calendar configurations.
- DayCalendar.GenerateMonthArray: the month is a valid `DateTime`, and so it is for DayCalendar.FindBoardStart, DayCalendar.BoardDays and DayCalendar.DaysOfCalendar. The source accepts any dayjs value. For an invalid month, `firstDayOfBoard.day()` is NaN, so the search for the first board day at day-calendar.service.ts:57-59 never ends. The same happens when `firstDayOfWeek` is not a week-day name, since `indexOf` gives -1. The model's `WeekDay` type rules that out.
- MonthCalendar.GenerateYear: the anchor year is a valid `DateTime`, and so it is for MonthCalendar.GenerateYearIntended. The source accepts any dayjs value; for an invalid one it returns a board of invalid dates, which the model does not represent.
- YearCalendar.GenerateYears: the anchor year is a valid `DateTime`. The source accepts any dayjs value; for an invalid one it returns a board of invalid dates, which the model does not represent. For an odd number of cells, `subtract(calendarSize / 2, 'year')` gets a fractional count, and dayjs decides the rounding. The model takes how far back to start (`back`) as a parameter. For an even size it must be exactly half. For an odd size it may be either integer next to the half.
- TimeSelect.Increase: the time being stepped is a valid date-time. The source would also accept an invalid dayjs value and return an invalid one. The same holds for TimeSelect.Decrease, TimeSelect.ToggleMeridiem, TimeSelect.ShouldShowDecrease, TimeSelect.ShouldShowIncrease and TimeSelect.ShouldShowToggleMeridiem, which take a `DateTime` the same way.
- DayCalendar.RemoveNearMonthWeeks: requires a non-empty board. The source reads the last row, and only ever passes the six-week board.
- YearCalendar.ShouldShowLeft: requires a non-empty first row. The source reads `viewYears[0][0]` and fails on an empty board.
- YearCalendar.ShouldShowRight: requires a non-empty last row, for the same reason.

## Findings

| source | as written | input that shows it | evidently intended | confidence | as-written member | corrected member |
|---|---|---|---|---|---|---|
| src/lib/common/services/utils/utils.service.ts:67-68 | in multi-select mode it reads `selected[selected.length]`, one past the end, which is always `undefined` | `current` and `minDate` absent, multi-select, `selected = [d]`: the result is now, not `d` | the last selected date, `selected[selected.length - 1]` | not executed; high: the index is out of range for every array | Utils.DefaultDisplayIgnoresMultiSelection | Utils.GetDefaultDisplayDateIntended |
| src/lib/month-calendar/month-calendar.service.ts:43-56 | `index.add(1, 'month')` returns a new date, which is discarded (dayjs dates are immutable), so `index` stays on January 1st | default 3 rows, any anchor year: cell `[0][1]` is January, and a February selection marks no cell | `index = index.add(1, 'month')`, as `generateYears` does for years | not executed; high: dayjs's `add` does not mutate its receiver | MonthCalendar.GenerateYearMissesFebruary | MonthCalendar.IntendedCellIsItsMonth |
