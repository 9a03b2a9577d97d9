/** The range validator `createValidator` builds: up to four named limit
    checks compiled once from `{minDate, maxDate, minTime, maxTime}`, then run
    over every date of a normalised selection. */
module Validation {
  import opened Wrappers
  import opened Dates
  import opened Strings
  import opened Utils

  /** `DateLimits`: each limit may be absent. */
  datatype DateLimits = DateLimits(
    minDate: Option<SingleValue>,
    maxDate: Option<SingleValue>,
    minTime: Option<SingleValue>,
    maxTime: Option<SingleValue>)

  /** The key an error is reported under. */
  datatype LimitKey = MinDate | MaxDate | MinTime | MaxTime

  /** A registered check: its key and the bound it compares against (already
      projected to a time of day for the time limits). */
  datatype LimitCheck = LimitCheck(key: LimitKey, bound: Moment)

  /** The compiled validator: the checks in registration order, and what the
      closure captured. */
  datatype DateValidator = DateValidator(
    checks: seq<LimitCheck>,
    codec: Codec,
    format: string,
    granularity: Granularity)

  /** What the closure returns: `null`, the single `format` error carrying the
      raw input, or the map from every failing key to the normalised
      selection. */
  datatype ValidationResult =
    | Passed
    | FormatError(given: CalendarValue)
    | LimitErrors(errors: map<LimitKey, seq<Moment>>)

  /** The position of a key in the fixed registration order. */
  function Rank(k: LimitKey): nat {
    match k
    case MinDate => 0
    case MaxDate => 1
    case MinTime => 2
    case MaxTime => 3
  }

  /** The limit a key names. */
  function LimitOf(limits: DateLimits, k: LimitKey): Option<SingleValue> {
    match k
    case MinDate => limits.minDate
    case MaxDate => limits.maxDate
    case MinTime => limits.minTime
    case MaxTime => limits.maxTime
  }

  /** A limit registers a check exactly when it is truthy: present and not
      the empty string. */
  predicate IsSet(v: Option<SingleValue>) {
    v.Some? && v.value != SingleText("")
  }

  /** The bound a set limit compiles to: the converted date, projected to a
      time of day for the time limits. */
  function BoundOf(limits: DateLimits, k: LimitKey, codec: Codec, format: string): (b: Moment)
    requires IsSet(LimitOf(limits, k))
  {
    var md := ConvertToDayjs(LimitOf(limits, k), codec, format).value;
    if k == MinTime || k == MaxTime then OnlyTime(md) else md
  }

  /** The check for `k`, or nothing when its limit is not set. */
  function CheckFor(limits: DateLimits, k: LimitKey, codec: Codec, format: string): (r: seq<LimitCheck>)
    ensures |r| <= 1
    ensures |r| == 1 <==> IsSet(LimitOf(limits, k))
    ensures |r| == 1 ==> r[0] == LimitCheck(k, BoundOf(limits, k, codec, format))
  {
    if IsSet(LimitOf(limits, k)) then [LimitCheck(k, BoundOf(limits, k, codec, format))] else []
  }

  /** The checks of the set limits, in registration order. */
  function Compile(limits: DateLimits, codec: Codec, format: string): seq<LimitCheck> {
    CheckFor(limits, MinDate, codec, format) + CheckFor(limits, MaxDate, codec, format)
    + CheckFor(limits, MinTime, codec, format) + CheckFor(limits, MaxTime, codec, format)
  }

  lemma CompileIsOrdered(limits: DateLimits, codec: Codec, format: string)
    ensures var checks := Compile(limits, codec, format);
            |checks| <= 4 && forall i, j | 0 <= i < j < |checks| :: Rank(checks[i].key) < Rank(checks[j].key)
  {
  }

  lemma CompileHasOnlySetLimits(limits: DateLimits, codec: Codec, format: string)
    ensures var checks := Compile(limits, codec, format);
            forall i | 0 <= i < |checks| ::
              IsSet(LimitOf(limits, checks[i].key)) && checks[i].bound == BoundOf(limits, checks[i].key, codec, format)
  {
  }

  lemma CompileHasEverySetLimit(limits: DateLimits, codec: Codec, format: string)
    ensures forall k: LimitKey | IsSet(LimitOf(limits, k)) ::
              LimitCheck(k, BoundOf(limits, k, codec, format)) in Compile(limits, codec, format)
  {
  }

  /** `createValidator`: one check per set limit, in the order minDate,
      maxDate, minTime, maxTime, comparing at the mode's granularity. */
  function CreateValidator(limits: DateLimits, codec: Codec, format: string, mode: CalendarMode)
    : (v: DateValidator)
    ensures v.granularity == GranularityFromType(mode) && v.format == format
    ensures |v.checks| <= 4
    ensures forall i, j | 0 <= i < j < |v.checks| :: Rank(v.checks[i].key) < Rank(v.checks[j].key)
    ensures forall i | 0 <= i < |v.checks| ::
              IsSet(LimitOf(limits, v.checks[i].key))
              && v.checks[i].bound == BoundOf(limits, v.checks[i].key, codec, format)
    ensures forall k: LimitKey | IsSet(LimitOf(limits, k)) :: LimitCheck(k, BoundOf(limits, k, codec, format)) in v.checks
  {
    CompileIsOrdered(limits, codec, format);
    CompileHasOnlySetLimits(limits, codec, format);
    CompileHasEverySetLimit(limits, codec, format);
    DateValidator(Compile(limits, codec, format), codec, format, GranularityFromType(mode))
  }

  /** One date satisfies one check: the date limits are inclusive at the
      granularity, the time limits compare time-of-day projections to the
      second. */
  predicate Accepts(c: LimitCheck, val: Moment, g: Granularity) {
    match c.key
    case MinDate => IsSame(val, c.bound, g) || IsAfter(val, c.bound, g)
    case MaxDate => IsSame(val, c.bound, g) || IsBefore(val, c.bound, g)
    case MinTime => IsAfter(OnlyTime(val), c.bound, Second) || IsSame(OnlyTime(val), c.bound, Second)
    case MaxTime => IsBefore(OnlyTime(val), c.bound, Second) || IsSame(OnlyTime(val), c.bound, Second)
  }

  /** A check passes when every date of the selection satisfies it. */
  predicate Holds(c: LimitCheck, values: seq<Moment>, g: Granularity) {
    forall i | 0 <= i < |values| :: Accepts(c, values[i], g)
  }

  /** The date limits are inclusive: a valid date passes unless it lies on
      the wrong side of a valid bound at the granularity; an invalid bound
      rejects every date. */
  lemma DateLimitsAreInclusive(c: LimitCheck, val: Moment, g: Granularity)
    requires c.key == MinDate || c.key == MaxDate
    requires val.Valid?
    ensures c.bound.Invalid? ==> !Accepts(c, val, g)
    ensures c.bound.Valid? && c.key == MinDate ==> (Accepts(c, val, g) <==> Key(val.at, g) >= Key(c.bound.at, g))
    ensures c.bound.Valid? && c.key == MaxDate ==> (Accepts(c, val, g) <==> Key(val.at, g) <= Key(c.bound.at, g))
  {
  }

  /** The time limits of a built validator compare times of day alone,
      inclusively, whatever the dates involved. */
  lemma TimeLimitsCompareTimesOfDay(limits: DateLimits, codec: Codec, format: string, k: LimitKey, val: Moment,
                                    g: Granularity)
    requires k == MinTime || k == MaxTime
    requires IsSet(LimitOf(limits, k)) && val.Valid?
    ensures var b := BoundOf(limits, k, codec, format);
            var md := ConvertToDayjs(LimitOf(limits, k), codec, format).value;
            && (b.Valid? <==> md.Valid?)
            && (md.Valid? && k == MinTime ==> (Accepts(LimitCheck(k, b), val, g) <==> val.at.secs >= md.at.secs))
            && (md.Valid? && k == MaxTime ==> (Accepts(LimitCheck(k, b), val, g) <==> val.at.secs <= md.at.secs))
  {
    var md := ConvertToDayjs(LimitOf(limits, k), codec, format).value;
    if md.Valid? {
      OnlyTimeCompares(val, md);
    }
  }

  /** The state the closure threads through `reduce`: the error map and the
      shared `isValid` flag. */
  datatype Reduction = Reduction(errors: map<LimitKey, seq<Moment>>, isValid: bool)

  /** `validators.reduce(...)` from `acc`: every check runs, with no short
      circuit; a failing one adds its key and clears `isValid`. */
  function Reduce(checks: seq<LimitCheck>, values: seq<Moment>, g: Granularity, acc: Reduction)
    : (r: Reduction)
    decreases |checks|
  {
    if |checks| == 0 then acc
    else
      var c := checks[0];
      var ok := Holds(c, values, g);
      var next := Reduction(
        if ok then acc.errors else acc.errors[c.key := values],
        if acc.isValid then ok else false);
      Reduce(checks[1..], values, g, next)
  }

  /** The keys of the checks a selection violates: the reference the fold is
      measured against. */
  function Violated(checks: seq<LimitCheck>, values: seq<Moment>, g: Granularity): (r: set<LimitKey>)
    ensures forall k :: k in r <==> exists i | 0 <= i < |checks| :: checks[i].key == k && !Holds(checks[i], values, g)
  {
    set i | 0 <= i < |checks| && !Holds(checks[i], values, g) :: checks[i].key
  }

  /** The violated keys of a non-empty list: the head's key if it fails,
      and those of the rest. */
  lemma ViolatedCons(checks: seq<LimitCheck>, values: seq<Moment>, g: Granularity)
    requires |checks| > 0
    ensures Violated(checks, values, g)
            == (if Holds(checks[0], values, g) then {} else {checks[0].key}) + Violated(checks[1..], values, g)
  {
    var tail := Violated(checks[1..], values, g);
    var all := Violated(checks, values, g);
    forall k | k in tail ensures k in all {
      var i :| 0 <= i < |checks[1..]| && checks[1..][i].key == k && !Holds(checks[1..][i], values, g);
      assert checks[i + 1] == checks[1..][i];
    }
    forall k | k in all && k != checks[0].key ensures k in tail {
      var i :| 0 <= i < |checks| && checks[i].key == k && !Holds(checks[i], values, g);
      assert checks[1..][i - 1] == checks[i];
    }
  }

  /** The fold adds exactly the violated keys. */
  lemma {:induction false} ReduceAddsViolatedKeys(checks: seq<LimitCheck>, values: seq<Moment>, g: Granularity,
                                                  acc: Reduction)
    ensures Reduce(checks, values, g, acc).errors.Keys == acc.errors.Keys + Violated(checks, values, g)
    decreases |checks|
  {
    if |checks| > 0 {
      var c := checks[0];
      var ok := Holds(c, values, g);
      var next := Reduction(
        if ok then acc.errors else acc.errors[c.key := values],
        if acc.isValid then ok else false);
      ReduceAddsViolatedKeys(checks[1..], values, g, next);
      ViolatedCons(checks, values, g);
    } else {
      assert Violated(checks, values, g) == {};
    }
  }

  /** Each violated key carries the whole selection, and the entries the fold
      started with are otherwise kept. */
  lemma {:induction false} ReduceReportsSelection(checks: seq<LimitCheck>, values: seq<Moment>, g: Granularity,
                                                  acc: Reduction)
    ensures forall k | k in Violated(checks, values, g) :: k in Reduce(checks, values, g, acc).errors
              && Reduce(checks, values, g, acc).errors[k] == values
    ensures forall k | k in acc.errors && k !in Violated(checks, values, g) ::
              k in Reduce(checks, values, g, acc).errors && Reduce(checks, values, g, acc).errors[k] == acc.errors[k]
    decreases |checks|
  {
    if |checks| > 0 {
      var c := checks[0];
      var ok := Holds(c, values, g);
      var next := Reduction(
        if ok then acc.errors else acc.errors[c.key := values],
        if acc.isValid then ok else false);
      ReduceReportsSelection(checks[1..], values, g, next);
      ViolatedCons(checks, values, g);
    } else {
      assert Violated(checks, values, g) == {};
    }
  }

  /** The shared flag survives exactly when nothing is violated. */
  lemma {:induction false} ReduceKeepsValidFlag(checks: seq<LimitCheck>, values: seq<Moment>, g: Granularity,
                                                acc: Reduction)
    ensures Reduce(checks, values, g, acc).isValid <==> acc.isValid && Violated(checks, values, g) == {}
    decreases |checks|
  {
    if |checks| > 0 {
      var c := checks[0];
      var ok := Holds(c, values, g);
      var next := Reduction(
        if ok then acc.errors else acc.errors[c.key := values],
        if acc.isValid then ok else false);
      ReduceKeepsValidFlag(checks[1..], values, g, next);
      ViolatedCons(checks, values, g);
    } else {
      assert Violated(checks, values, g) == {};
    }
  }

  /** The canonical selection the closure checks: the value normalised in
      multi-select mode. `filter(Boolean)` drops nothing, since every
      normalised element is a date object. */
  function Normalised(v: DateValidator, input: CalendarValue): seq<Moment> {
    ConvertToDayjsArray(v.codec, input, true, v.format)
  }

  /** The validator closure: a `format` error when any normalised date is
      invalid, else the map of failing checks when `isValid` was cleared,
      else `null`. */
  function Validate(v: DateValidator, input: CalendarValue): (r: ValidationResult)
    ensures r.FormatError? <==> exists i | 0 <= i < |Normalised(v, input)| :: Normalised(v, input)[i].Invalid?
    ensures r.FormatError? ==> r.given == input
  {
    var values := Normalised(v, input);
    if exists i | 0 <= i < |values| :: values[i].Invalid? then FormatError(input)
    else
      var red := Reduce(v.checks, values, v.granularity, Reduction(map[], true));
      if !red.isValid then LimitErrors(red.errors) else Passed
  }

  /** Apart from a format error, the closure reports every violated check and
      nothing else, each with the whole normalised selection, and passes
      exactly when no check is violated. */
  lemma ValidateReportsExactlyViolations(v: DateValidator, input: CalendarValue)
    requires forall i | 0 <= i < |Normalised(v, input)| :: Normalised(v, input)[i].Valid?
    ensures var bad := Violated(v.checks, Normalised(v, input), v.granularity);
            && (Validate(v, input).Passed? <==> bad == {})
            && (Validate(v, input).LimitErrors? <==> bad != {})
            && (Validate(v, input).LimitErrors? ==>
                  Validate(v, input).errors.Keys == bad
                  && forall k | k in bad :: Validate(v, input).errors[k] == Normalised(v, input))
  {
    var values := Normalised(v, input);
    ReduceAddsViolatedKeys(v.checks, values, v.granularity, Reduction(map[], true));
    ReduceReportsSelection(v.checks, values, v.granularity, Reduction(map[], true));
    ReduceKeepsValidFlag(v.checks, values, v.granularity, Reduction(map[], true));
  }

  /** The limit keys a built validator rejects a selection on: a set limit
      some date of the selection violates. */
  lemma ViolatedKeysOfBuiltValidator(limits: DateLimits, codec: Codec, format: string, mode: CalendarMode,
                                     values: seq<Moment>, k: LimitKey)
    ensures var v := CreateValidator(limits, codec, format, mode);
            k in Violated(v.checks, values, v.granularity) <==>
              IsSet(LimitOf(limits, k))
              && exists i | 0 <= i < |values| ::
                   !Accepts(LimitCheck(k, BoundOf(limits, k, codec, format)), values[i], GranularityFromType(mode))
  {
    var v := CreateValidator(limits, codec, format, mode);
    if IsSet(LimitOf(limits, k)) {
      var j :| 0 <= j < |v.checks| && v.checks[j].key == k;
      assert v.checks[j] == LimitCheck(k, BoundOf(limits, k, codec, format));
    }
  }

  /** A validator built from no limits accepts every valid selection. */
  lemma NoLimitsAcceptEverything(codec: Codec, format: string, mode: CalendarMode, input: CalendarValue)
    requires var v := CreateValidator(DateLimits(None, None, None, None), codec, format, mode);
             forall i | 0 <= i < |Normalised(v, input)| :: Normalised(v, input)[i].Valid?
    ensures Validate(CreateValidator(DateLimits(None, None, None, None), codec, format, mode), input) == Passed
  {
    var v := CreateValidator(DateLimits(None, None, None, None), codec, format, mode);
    assert v.checks == [];
  }

  // ---------------------------------------------------------------------------
  // The day-mode example: minDate 2016-10-25, maxDate 2017-10-25

  function At(y: int, m: int, d: int): Moment
    requires 1 <= m <= 12 && 1 <= d <= DaysInMonth(y, m)
  {
    Valid(DateTime(Civil(y, m, d), 0))
  }

  function ExampleLimits(): DateLimits {
    DateLimits(Some(SingleDate(At(2016, 10, 25))), Some(SingleDate(At(2017, 10, 25))), None, None)
  }

  function ExampleValidator(codec: Codec): DateValidator {
    CreateValidator(ExampleLimits(), codec, "YYYY-MM-DD", DayMode)
  }

  lemma ExampleChecks(codec: Codec)
    ensures ExampleValidator(codec).checks
            == [LimitCheck(MinDate, At(2016, 10, 25)), LimitCheck(MaxDate, At(2017, 10, 25))]
    ensures ExampleValidator(codec).granularity == Day
  {
  }

  /** The verdict on one parsed text against the example limits. */
  lemma ExampleVerdict(codec: Codec, text: string, d: Moment, lowOk: bool, highOk: bool)
    requires text != "" && d.Valid? && codec.parseStrict(text, "YYYY-MM-DD") == Some(d.at)
    requires lowOk <==> Accepts(LimitCheck(MinDate, At(2016, 10, 25)), d, Day)
    requires highOk <==> Accepts(LimitCheck(MaxDate, At(2017, 10, 25)), d, Day)
    ensures Validate(ExampleValidator(codec), Text(text))
            == if lowOk && highOk then Passed
               else LimitErrors((if lowOk then map[] else map[MinDate := [d]])
                                + (if highOk then map[] else map[MaxDate := [d]]))
  {
    var v := ExampleValidator(codec);
    ExampleChecks(codec);
    assert Normalised(v, Text(text)) == [d];
    HoldsSingleton(v.checks[0], d, Day);
    HoldsSingleton(v.checks[1], d, Day);
    var first := Reduction(if lowOk then map[] else map[MinDate := [d]], lowOk);
    assert Reduce(v.checks, [d], Day, Reduction(map[], true)) == Reduce(v.checks[1..], [d], Day, first);
    assert v.checks[1..][1..] == [];
    var second := Reduction(if highOk then first.errors else first.errors[MaxDate := [d]], lowOk && highOk);
    assert Reduce(v.checks[1..], [d], Day, first) == Reduce([], [d], Day, second);
    assert second.errors == (if lowOk then map[] else map[MinDate := [d]])
                            + (if highOk then map[] else map[MaxDate := [d]]);
    assert !exists i | 0 <= i < |[d]| :: [d][i].Invalid?;
  }

  lemma HoldsSingleton(c: LimitCheck, d: Moment, g: Granularity)
    ensures Holds(c, [d], g) <==> Accepts(c, d, g)
  {
    assert [d][0] == d;
  }

  /** With a format that reads the three texts as the dates they name and
      rejects `"not-a-date"`: the lower bound itself passes, the day before it
      fails `minDate` only, the day after the upper bound fails `maxDate`
      only, and the unparsable text gives only the `format` error. */
  lemma ValidatorExample(codec: Codec)
    requires codec.parseStrict("2016-10-25", "YYYY-MM-DD") == Some(At(2016, 10, 25).at)
    requires codec.parseStrict("2016-10-24", "YYYY-MM-DD") == Some(At(2016, 10, 24).at)
    requires codec.parseStrict("2017-10-26", "YYYY-MM-DD") == Some(At(2017, 10, 26).at)
    requires codec.parseStrict("not-a-date", "YYYY-MM-DD") == None
    ensures var v := CreateValidator(ExampleLimits(), codec, "YYYY-MM-DD", DayMode);
            && Validate(v, Text("2016-10-25")) == Passed
            && Validate(v, Text("2016-10-24")) == LimitErrors(map[MinDate := [At(2016, 10, 24)]])
            && Validate(v, Text("2017-10-26")) == LimitErrors(map[MaxDate := [At(2017, 10, 26)]])
            && Validate(v, Text("not-a-date")) == FormatError(Text("not-a-date"))
  {
    DayNumberMonotone(Civil(2016, 10, 24), Civil(2016, 10, 25));
    DayNumberMonotone(Civil(2016, 10, 24), Civil(2017, 10, 25));
    DayNumberMonotone(Civil(2016, 10, 25), Civil(2017, 10, 25));
    DayNumberMonotone(Civil(2016, 10, 25), Civil(2017, 10, 26));
    DayNumberMonotone(Civil(2017, 10, 25), Civil(2017, 10, 26));
    ExampleVerdict(codec, "2016-10-25", At(2016, 10, 25), true, true);
    ExampleVerdict(codec, "2016-10-24", At(2016, 10, 24), false, true);
    assert map[] + map[MinDate := [At(2016, 10, 24)]] == map[MinDate := [At(2016, 10, 24)]];
    ExampleVerdict(codec, "2017-10-26", At(2017, 10, 26), true, false);
    assert map[] + map[MaxDate := [At(2017, 10, 26)]] == map[MaxDate := [At(2017, 10, 26)]];
    assert Normalised(ExampleValidator(codec), Text("not-a-date"))[0] == Invalid;
  }
}
