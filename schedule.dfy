/** The declarative `Schedule` model (trackers/schedule.py): field
    validation (`at_time` through `ensure_time_format`, `duration_minutes`
    as a positive integer), then the three after-validators in the order
    they are declared: date order, occurrence, duration. The first failure
    ends validation. The clock reading `now` is a parameter. */
module Schedules {
  import opened Wrappers
  import opened Calendar
  import opened Common

  // ---------------------------------------------------------------------------
  // `str.strip()`

  /** The characters Python's `str.isspace` accepts. */
  predicate IsSpace(c: char) {
    c == ' ' || ('\t' <= c <= '\r') || ('\U{1c}' <= c <= '\U{1f}') ||
    c == '\U{85}' || c == '\U{a0}' || c == '\U{1680}' || ('\U{2000}' <= c <= '\U{200a}') ||
    c == '\U{2028}' || c == '\U{2029}' || c == '\U{202f}' || c == '\U{205f}' || c == '\U{3000}'
  }

  /** `s` without its leading whitespace: a suffix of `s` that starts with a
      non-space, and only spaces were dropped. */
  function StripLeading(s: string): (r: string)
    ensures |r| <= |s| && r == s[|s| - |r|..]
    ensures forall i :: 0 <= i < |s| - |r| ==> IsSpace(s[i])
    ensures r != [] ==> !IsSpace(r[0])
  {
    if s != [] && IsSpace(s[0]) then StripLeading(s[1..]) else s
  }

  /** `s` without its trailing whitespace: a prefix of `s` that ends with a
      non-space, and only spaces were dropped. */
  function StripTrailing(s: string): (r: string)
    ensures |r| <= |s| && r == s[..|r|]
    ensures forall i :: |r| <= i < |s| ==> IsSpace(s[i])
    ensures r != [] ==> !IsSpace(r[|r| - 1])
  {
    if s != [] && IsSpace(s[|s| - 1]) then StripTrailing(s[..|s| - 1]) else s
  }

  function Strip(s: string): string {
    StripTrailing(StripLeading(s))
  }

  /** Leading whitespace before a text that does not start with whitespace
      is exactly what `StripLeading` removes. */
  lemma {:induction false} StripLeadingPadded(pre: string, x: string)
    requires forall i :: 0 <= i < |pre| ==> IsSpace(pre[i])
    requires x != [] ==> !IsSpace(x[0])
    ensures StripLeading(pre + x) == x
    decreases |pre|
  {
    if pre == [] {
      assert pre + x == x;
    } else {
      assert (pre + x)[1..] == pre[1..] + x;
      StripLeadingPadded(pre[1..], x);
    }
  }

  /** Trailing whitespace after a text that does not end with whitespace is
      exactly what `StripTrailing` removes. */
  lemma {:induction false} StripTrailingPadded(x: string, post: string)
    requires forall i :: 0 <= i < |post| ==> IsSpace(post[i])
    requires x != [] ==> !IsSpace(x[|x| - 1])
    ensures StripTrailing(x + post) == x
    decreases |post|
  {
    if post == [] {
      assert x + post == x;
    } else {
      var shorter := post[..|post| - 1];
      assert (x + post)[..|x + post| - 1] == x + shorter;
      StripTrailingPadded(x, shorter);
    }
  }

  /** Whitespace around a text that neither starts nor ends with whitespace
      is exactly what `Strip` removes. */
  lemma StripPadded(pre: string, core: string, post: string)
    requires forall i :: 0 <= i < |pre| ==> IsSpace(pre[i])
    requires forall i :: 0 <= i < |post| ==> IsSpace(post[i])
    requires core != [] && !IsSpace(core[0]) && !IsSpace(core[|core| - 1])
    ensures Strip(pre + core + post) == core
  {
    assert pre + core + post == pre + (core + post);
    StripLeadingPadded(pre, core + post);
    StripTrailingPadded(core, post);
  }

  // ---------------------------------------------------------------------------
  // The `HH:MM` pattern `^([0-1][0-9]|2[0-3]):([0-5][0-9])$`

  predicate IsDigit(c: char) {
    '0' <= c <= '9'
  }

  function DigitValue(c: char): int {
    c as int - '0' as int
  }

  function Digit(n: int): char
    requires 0 <= n < 10
  {
    ('0' as int + n) as char
  }

  predicate IsClockText(t: string) {
    |t| == 5 &&
    (('0' <= t[0] <= '1' && IsDigit(t[1])) || (t[0] == '2' && '0' <= t[1] <= '3')) &&
    t[2] == ':' && '0' <= t[3] <= '5' && IsDigit(t[4])
  }

  /** `int` of the text before and after the colon, as `map(int, t.split(":"))`
      reads a text that matches the pattern. */
  function ClockHour(t: string): int
    requires |t| == 5
  {
    DigitValue(t[0]) * 10 + DigitValue(t[1])
  }

  function ClockMinute(t: string): int
    requires |t| == 5
  {
    DigitValue(t[3]) * 10 + DigitValue(t[4])
  }

  /** The zero-padded `HH:MM` text of a time of day. */
  function ClockText(h: int, m: int): string
    requires 0 <= h < 24 && 0 <= m < 60
  {
    [Digit(h / 10), Digit(h % 10), ':', Digit(m / 10), Digit(m % 10)]
  }

  /** Every time of day has a text that matches the pattern and reads back
      as that time. */
  lemma ClockTextRoundTrip(h: int, m: int)
    requires 0 <= h < 24 && 0 <= m < 60
    ensures IsClockText(ClockText(h, m))
    ensures ClockHour(ClockText(h, m)) == h && ClockMinute(ClockText(h, m)) == m
  {
  }

  /** Every text that matches the pattern is the text of an hour 00-23 and a
      minute 00-59. */
  lemma ClockTextCanonical(t: string)
    requires IsClockText(t)
    ensures 0 <= ClockHour(t) < 24 && 0 <= ClockMinute(t) < 60
    ensures ClockText(ClockHour(t), ClockMinute(t)) == t
  {
    var w := ClockText(ClockHour(t), ClockMinute(t));
    assert w[0] == t[0] && w[1] == t[1] && w[2] == t[2] && w[3] == t[3] && w[4] == t[4];
  }

  /** `ensure_time_format`: refuses a non-string; accepts a string exactly
      when its stripped form matches `HH:MM`, and returns the stripped form. */
  function EnsureTimeFormat(v: Raw): (r: Outcome<string>)
    ensures r.Ok? <==> v.Text? && IsClockText(Strip(v.text))
    ensures r.Ok? ==> r.value == Strip(v.text)
    ensures v.NonText? ==> r == Err(NotAString)
    ensures v.Text? && r.Err? ==> r == Err(MalformedTimeOfDay)
  {
    match v
    case NonText(_) => Err(NotAString)
    case Text(s) =>
      var t := Strip(s);
      if IsClockText(t) then Ok(t) else Err(MalformedTimeOfDay)
  }

  /** A zero-padded time of day, with any whitespace around it, is accepted
      and returned without the whitespace. */
  lemma EnsureTimeFormatAccepts(pre: string, h: int, m: int, post: string)
    requires 0 <= h < 24 && 0 <= m < 60
    requires forall i :: 0 <= i < |pre| ==> IsSpace(pre[i])
    requires forall i :: 0 <= i < |post| ==> IsSpace(post[i])
    ensures EnsureTimeFormat(Text(pre + ClockText(h, m) + post)) == Ok(ClockText(h, m))
  {
    ClockTextRoundTrip(h, m);
    StripPadded(pre, ClockText(h, m), post);
  }

  /** What is accepted is the text of an hour 00-23 and a minute 00-59. */
  lemma EnsureTimeFormatYieldsClockTime(s: string)
    requires EnsureTimeFormat(Text(s)).Ok?
    ensures var t := EnsureTimeFormat(Text(s)).value;
            0 <= ClockHour(t) < 24 && 0 <= ClockMinute(t) < 60 && t == ClockText(ClockHour(t), ClockMinute(t))
  {
    ClockTextCanonical(Strip(s));
  }

  /** `"24:00"`: there is no hour 24. */
  lemma EnsureTimeFormatRefusesHour24()
    ensures EnsureTimeFormat(Text("24:00")) == Err(MalformedTimeOfDay)
  {
    var t := "24:00";
    assert !IsClockText(t);
    EnsureTimeFormatUnpadded(t);
  }

  /** `"9:30"`: the hour must have two digits. */
  lemma EnsureTimeFormatRefusesShortHour()
    ensures EnsureTimeFormat(Text("9:30")) == Err(MalformedTimeOfDay)
  {
    var t := "9:30";
    assert !IsClockText(t);
    EnsureTimeFormatUnpadded(t);
  }

  /** `"12:60"`: there is no minute 60. */
  lemma EnsureTimeFormatRefusesMinute60()
    ensures EnsureTimeFormat(Text("12:60")) == Err(MalformedTimeOfDay)
  {
    var t := "12:60";
    assert !IsClockText(t);
    EnsureTimeFormatUnpadded(t);
  }

  /** `" 09:30 "` is accepted as `"09:30"`. */
  lemma EnsureTimeFormatStripsSpaces()
    ensures EnsureTimeFormat(Text([' '] + "09:30" + [' '])) == Ok("09:30")
  {
    var t := "09:30";
    assert IsClockText(t);
    EnsureTimeFormatUnpadded(t);
    EnsureTimeFormatSpaced(t);
  }

  /** A text that neither starts nor ends with whitespace is judged as it is. */
  lemma EnsureTimeFormatUnpadded(t: string)
    requires t != [] && !IsSpace(t[0]) && !IsSpace(t[|t| - 1])
    ensures EnsureTimeFormat(Text(t)) == if IsClockText(t) then Ok(t) else Err(MalformedTimeOfDay)
  {
  }

  /** One space on each side changes nothing. */
  lemma EnsureTimeFormatSpaced(t: string)
    requires t != [] && !IsSpace(t[0]) && !IsSpace(t[|t| - 1])
    ensures EnsureTimeFormat(Text([' '] + t + [' '])) == EnsureTimeFormat(Text(t))
  {
    StripPadded([' '], t, [' ']);
  }

  // ---------------------------------------------------------------------------
  // The model

  /** The arguments given to `Schedule(...)`, with the source's defaults:
      a daily recurrence, and no end date, time of day or duration. `atTime`
      None means the argument was left out; `Some(NonText(false))` is an
      explicit None. */
  datatype ScheduleInput = ScheduleInput(
    created: real,
    startDate: DateTime,
    reoccurrence: ReoccurrenceType := Daily,
    occurrenceDate: DateTime,
    endDate: Option<DateTime> := None,
    atTime: Option<Raw> := None,
    durationMinutes: Option<int> := None)

  datatype Schedule = Schedule(
    created: real,
    now: DateTime,
    startDate: DateTime,
    reoccurrence: ReoccurrenceType,
    occurrenceDate: DateTime,
    endDate: Option<DateTime>,
    atTime: Option<string>,
    durationMinutes: Option<int>)

  predicate ValidInstants(startDate: DateTime, occurrenceDate: DateTime,
                          endDate: Option<DateTime>, now: DateTime) {
    ValidDateTime(startDate) && ValidDateTime(occurrenceDate) && ValidDateTime(now) &&
    (endDate.Some? ==> ValidDateTime(endDate.value))
  }

  /** What field validation guarantees of a model before its validators run. */
  predicate WellFormed(s: Schedule) {
    ValidInstants(s.startDate, s.occurrenceDate, s.endDate, s.now) &&
    (s.atTime.Some? ==> IsClockText(s.atTime.value)) &&
    (s.durationMinutes.Some? ==> s.durationMinutes.value > 0)
  }

  /** The arguments pass field validation. */
  predicate FieldsAccepted(inp: ScheduleInput) {
    (inp.atTime.Some? ==> EnsureTimeFormat(inp.atTime.value).Ok?) &&
    (inp.durationMinutes.Some? ==> inp.durationMinutes.value > 0)
  }

  /** Field validation: `at_time` through `ensure_time_format`, and
      `duration_minutes` as a `PositiveInt`. */
  function ValidateFields(inp: ScheduleInput, now: DateTime): (r: Outcome<Schedule>)
    requires ValidInstants(inp.startDate, inp.occurrenceDate, inp.endDate, now)
    ensures r.Ok? <==> FieldsAccepted(inp)
    ensures r.Ok? ==> WellFormed(r.value)
    ensures r.Ok? ==> r.value.created == inp.created && r.value.now == now &&
                      r.value.startDate == inp.startDate && r.value.reoccurrence == inp.reoccurrence &&
                      r.value.occurrenceDate == inp.occurrenceDate && r.value.endDate == inp.endDate &&
                      r.value.durationMinutes == inp.durationMinutes
    ensures r.Ok? ==> (r.value.atTime.Some? <==> inp.atTime.Some?) &&
                      (inp.atTime.Some? ==> inp.atTime.value.Text? &&
                                             r.value.atTime.value == Strip(inp.atTime.value.text))
  {
    var atTime :- match inp.atTime
                  case None => Ok(None)
                  case Some(v) => (match EnsureTimeFormat(v)
                                   case Ok(t) => Ok(Some(t))
                                   case Err(e) => Err(e));
    if inp.durationMinutes.Some? && inp.durationMinutes.value <= 0 then
      Err(DurationNotPositive)
    else
      Ok(Schedule(inp.created, now, inp.startDate, inp.reoccurrence, inp.occurrenceDate,
                  inp.endDate, atTime, inp.durationMinutes))
  }

  /** `validate_date_order`: refuses exactly an end date earlier than the
      start date, and leaves the model as it is. */
  function ValidateDateOrder(s: Schedule): (r: Outcome<Schedule>)
    ensures r.Ok? ==> r.value == s
    ensures r.Err? <==> s.endDate.Some? && Before(s.endDate.value, s.startDate)
    ensures r.Err? ==> r.error == DateOrderViolation
  {
    if s.endDate.Some? && Before(s.endDate.value, s.startDate) then
      Err(DateOrderViolation)
    else
      Ok(s)
  }

  /** `occur_obj.replace(hour=h, minute=m, second=0, microsecond=0)`. */
  function WithClock(t: DateTime, h: int, m: int): DateTime {
    t.(hour := h, minute := m, second := 0, microsecond := 0)
  }

  /** `validate_occurrence`: the three ordering checks, in this order and on
      the date as given; then, with `at_time`, the occurrence takes its hour
      and minute, with seconds and microseconds zeroed. */
  function ValidateOccurrence(s: Schedule): (r: Outcome<Schedule>)
    requires WellFormed(s)
    ensures r == Err(OccurrenceBeforeStart) <==> Before(s.occurrenceDate, s.startDate)
    ensures r == Err(OccurrenceInPast) <==>
              !Before(s.occurrenceDate, s.startDate) && Before(s.occurrenceDate, s.now)
    ensures r == Err(OccurrenceAfterEnd) <==>
              !Before(s.occurrenceDate, s.startDate) && !Before(s.occurrenceDate, s.now) &&
              s.endDate.Some? && Before(s.endDate.value, s.occurrenceDate)
    ensures r.Ok? <==> !Before(s.occurrenceDate, s.startDate) && !Before(s.occurrenceDate, s.now) &&
                       !(s.endDate.Some? && Before(s.endDate.value, s.occurrenceDate))
    ensures r.Ok? ==> WellFormed(r.value) && r.value.(occurrenceDate := s.occurrenceDate) == s
    ensures r.Ok? && s.atTime.None? ==> r.value == s
    ensures r.Ok? && s.atTime.Some? ==>
              var o, t := r.value.occurrenceDate, s.occurrenceDate;
              o.year == t.year && o.month == t.month && o.day == t.day && o.zone == t.zone &&
              o.hour == ClockHour(s.atTime.value) && o.minute == ClockMinute(s.atTime.value) &&
              o.second == 0 && o.microsecond == 0
  {
    var occurrence := s.occurrenceDate;
    if Before(occurrence, s.startDate) then
      Err(OccurrenceBeforeStart)
    else if Before(occurrence, s.now) then
      Err(OccurrenceInPast)
    else if s.endDate.Some? && Before(s.endDate.value, occurrence) then
      Err(OccurrenceAfterEnd)
    else
      match s.atTime
      case None => Ok(s)
      case Some(t) =>
        ClockTextCanonical(t);
        Ok(s.(occurrenceDate := WithClock(occurrence, ClockHour(t), ClockMinute(t))))
  }

  /** `validate_duration`: a duration outside 1..1440 is refused; then the
      occurrence plus the duration must stay before midnight of its day. */
  function ValidateDuration(s: Schedule): (r: Outcome<Schedule>)
    requires WellFormed(s)
    ensures r.Ok? ==> r.value == s
    ensures r.Ok? <==> s.durationMinutes.None? ||
                       (1 <= s.durationMinutes.value <= 1440 &&
                        MinuteOfDay(s.occurrenceDate) + s.durationMinutes.value < 1440)
    ensures r == Err(DurationOutOfRange) <==>
              s.durationMinutes.Some? && !(1 <= s.durationMinutes.value <= 1440)
    ensures r == Err(DurationCrossesMidnight) <==>
              s.durationMinutes.Some? && 1 <= s.durationMinutes.value <= 1440 &&
              AddMinutes(s.occurrenceDate, s.durationMinutes.value).Some? &&
              AddMinutes(s.occurrenceDate, s.durationMinutes.value).value.day != s.occurrenceDate.day
    ensures r == Err(DateOutOfRange) <==>
              s.durationMinutes.Some? && 1 <= s.durationMinutes.value <= 1440 &&
              AddMinutes(s.occurrenceDate, s.durationMinutes.value).None?
    ensures r.Err? ==> r.error == DurationOutOfRange || r.error == DurationCrossesMidnight ||
                       r.error == DateOutOfRange
  {
    match s.durationMinutes
    case None => Ok(s)
    case Some(d) =>
      if !(1 <= d <= 1440) then
        Err(DurationOutOfRange)
      else
        MidnightCheckWithinDay(s.occurrenceDate, d);
        var endured :- MidnightCheck(s.occurrenceDate, d);
        Ok(s)
  }

  /** `Schedule(...)`: field validation, then the three validators in order,
      stopping at the first failure. */
  function Validate(inp: ScheduleInput, now: DateTime): (r: Outcome<Schedule>)
    requires ValidInstants(inp.startDate, inp.occurrenceDate, inp.endDate, now)
    ensures r.Ok? ==> WellFormed(r.value)
    ensures r.Ok? ==> r.value.created == inp.created && r.value.now == now &&
                      r.value.startDate == inp.startDate && r.value.reoccurrence == inp.reoccurrence &&
                      r.value.endDate == inp.endDate && r.value.durationMinutes == inp.durationMinutes &&
                      (r.value.atTime.Some? <==> inp.atTime.Some?) &&
                      (inp.atTime.Some? ==> inp.atTime.value.Text? &&
                                             r.value.atTime.value == Strip(inp.atTime.value.text))
  {
    var fields :- ValidateFields(inp, now);
    var ordered :- ValidateDateOrder(fields);
    var placed :- ValidateOccurrence(ordered);
    ValidateDuration(placed)
  }

  // ---------------------------------------------------------------------------
  // What validation promises

  /** The minute of the day the occurrence starts at once validated: that of
      `at_time` when given, else that of the occurrence date. */
  function StartMinute(inp: ScheduleInput): int
    requires FieldsAccepted(inp)
  {
    match inp.atTime
    case None => MinuteOfDay(inp.occurrenceDate)
    case Some(v) =>
      var t := Strip(v.text);
      ClockHour(t) * 60 + ClockMinute(t)
  }

  /** Every rule of a legal schedule, stated on the arguments. */
  predicate Legal(inp: ScheduleInput, now: DateTime) {
    FieldsAccepted(inp) &&
    !(inp.endDate.Some? && Before(inp.endDate.value, inp.startDate)) &&
    !Before(inp.occurrenceDate, inp.startDate) &&
    !Before(inp.occurrenceDate, now) &&
    !(inp.endDate.Some? && Before(inp.endDate.value, inp.occurrenceDate)) &&
    (inp.durationMinutes.Some? ==>
       inp.durationMinutes.value <= 1440 && StartMinute(inp) + inp.durationMinutes.value < 1440)
  }

  /** Validation succeeds exactly on legal arguments. */
  lemma ValidateAcceptsExactlyLegal(inp: ScheduleInput, now: DateTime)
    requires ValidInstants(inp.startDate, inp.occurrenceDate, inp.endDate, now)
    ensures Validate(inp, now).Ok? <==> Legal(inp, now)
  {
    var f := ValidateFields(inp, now);
    if f.Ok? {
      var o := ValidateOccurrence(f.value);
      if o.Ok? && inp.atTime.Some? {
        ClockTextCanonical(f.value.atTime.value);
      }
    }
  }

  /** The failure reported is that of the first check that refuses, in the
      order: fields, date order, before start, in the past, after end. */
  lemma ValidateReportsFirstFailure(inp: ScheduleInput, now: DateTime)
    requires ValidInstants(inp.startDate, inp.occurrenceDate, inp.endDate, now)
    ensures inp.endDate.Some? && Before(inp.endDate.value, inp.startDate) ==>
              Validate(inp, now).Err? &&
              (FieldsAccepted(inp) ==> Validate(inp, now) == Err(DateOrderViolation))
    ensures FieldsAccepted(inp) && !(inp.endDate.Some? && Before(inp.endDate.value, inp.startDate)) ==>
              (Before(inp.occurrenceDate, inp.startDate) ==>
                 Validate(inp, now) == Err(OccurrenceBeforeStart)) &&
              (!Before(inp.occurrenceDate, inp.startDate) && Before(inp.occurrenceDate, now) ==>
                 Validate(inp, now) == Err(OccurrenceInPast)) &&
              (!Before(inp.occurrenceDate, inp.startDate) && !Before(inp.occurrenceDate, now) &&
               inp.endDate.Some? && Before(inp.endDate.value, inp.occurrenceDate) ==>
                 Validate(inp, now) == Err(OccurrenceAfterEnd))
  {
  }

  /** After success the occurrence keeps its date and zone; with `at_time`
      its clock is exactly `at_time` with zero seconds, otherwise it is the
      occurrence as given. */
  lemma ValidatePlacesOccurrence(inp: ScheduleInput, now: DateTime)
    requires ValidInstants(inp.startDate, inp.occurrenceDate, inp.endDate, now)
    requires Validate(inp, now).Ok?
    ensures inp.atTime.None? ==> Validate(inp, now).value.occurrenceDate == inp.occurrenceDate
    ensures inp.atTime.Some? ==>
              var o, t, c := Validate(inp, now).value.occurrenceDate, inp.occurrenceDate,
                             Strip(inp.atTime.value.text);
              o.year == t.year && o.month == t.month && o.day == t.day && o.zone == t.zone &&
              o.hour == ClockHour(c) && o.minute == ClockMinute(c) &&
              o.second == 0 && o.microsecond == 0
  {
    var fields := ValidateFields(inp, now).value;
    var placed := ValidateOccurrence(fields).value;
    assert ValidateDateOrder(fields) == Ok(fields);
    assert ValidateDuration(placed) == Ok(placed);
    assert Validate(inp, now).value == placed;
  }

  /** After success with a duration, the duration is 1..1440 minutes and the
      occurrence ends on its own calendar date, before midnight. */
  lemma ValidateBoundsDuration(inp: ScheduleInput, now: DateTime)
    requires ValidInstants(inp.startDate, inp.occurrenceDate, inp.endDate, now)
    requires Validate(inp, now).Ok? && inp.durationMinutes.Some?
    ensures var s, d := Validate(inp, now).value, inp.durationMinutes.value;
            1 <= d <= 1440 && MinuteOfDay(s.occurrenceDate) + d < 1440 &&
            AddMinutes(s.occurrenceDate, d).Some? &&
            AddMinutes(s.occurrenceDate, d).value.year == s.occurrenceDate.year &&
            AddMinutes(s.occurrenceDate, d).value.month == s.occurrenceDate.month &&
            AddMinutes(s.occurrenceDate, d).value.day == s.occurrenceDate.day
  {
    var s, d := Validate(inp, now).value, inp.durationMinutes.value;
    var total := MinuteOfDay(s.occurrenceDate) + d;
    assert total / 1440 == 0;
    assert AddDays(s.occurrenceDate, 0) == Some(s.occurrenceDate);
  }

  /** A duration of a whole day is always refused, even at 00:00. */
  lemma FullDayDurationRefused(inp: ScheduleInput, now: DateTime)
    requires ValidInstants(inp.startDate, inp.occurrenceDate, inp.endDate, now)
    requires inp.durationMinutes == Some(1440)
    ensures Validate(inp, now).Err?
  {
    ValidateAcceptsExactlyLegal(inp, now);
  }

  /** A duration of more than a day is refused by the range check once the
      other checks pass. */
  lemma LongDurationOutOfRange(inp: ScheduleInput, now: DateTime)
    requires ValidInstants(inp.startDate, inp.occurrenceDate, inp.endDate, now)
    requires Legal(inp.(durationMinutes := None), now)
    requires inp.durationMinutes.Some? && inp.durationMinutes.value > 1440
    ensures Validate(inp, now) == Err(DurationOutOfRange)
  {
  }

  /** Dates in order, the occurrence not in the past, no time of day and no
      duration: validation succeeds and changes nothing. */
  lemma OrderedDatesAccepted(inp: ScheduleInput, now: DateTime)
    requires ValidInstants(inp.startDate, inp.occurrenceDate, inp.endDate, now)
    requires inp.atTime.None? && inp.durationMinutes.None?
    requires !Before(inp.occurrenceDate, inp.startDate) && !Before(inp.occurrenceDate, now)
    requires inp.endDate.Some? ==> !Before(inp.endDate.value, inp.occurrenceDate)
    ensures Validate(inp, now).Ok?
    ensures Validate(inp, now).value.occurrenceDate == inp.occurrenceDate
  {
    var s := ValidateFields(inp, now).value;
    if inp.endDate.Some? {
      OrderAgreesWithMicros(inp.endDate.value, inp.occurrenceDate);
      OrderAgreesWithMicros(inp.occurrenceDate, inp.startDate);
      OrderAgreesWithMicros(inp.endDate.value, inp.startDate);
    }
    assert ValidateDateOrder(s) == Ok(s);
  }

  /** `Schedule(start_date=…, occurrence_date=…)` with every other argument
      left to its default: accepted exactly when the occurrence is neither
      before the start nor in the past, and then stored as a daily schedule
      with no end date, time of day or duration. */
  lemma DefaultsAccepted(created: real, startDate: DateTime, occurrenceDate: DateTime, now: DateTime)
    requires ValidDateTime(startDate) && ValidDateTime(occurrenceDate) && ValidDateTime(now)
    ensures var r := Validate(ScheduleInput(created := created, startDate := startDate,
                                            occurrenceDate := occurrenceDate), now);
            (r.Ok? <==> !Before(occurrenceDate, startDate) && !Before(occurrenceDate, now)) &&
            (r.Ok? ==> r.value == Schedule(created, now, startDate, Daily, occurrenceDate,
                                           None, None, None))
  {
    var inp := ScheduleInput(created := created, startDate := startDate,
                             occurrenceDate := occurrenceDate);
    ValidateAcceptsExactlyLegal(inp, now);
    if Validate(inp, now).Ok? {
      OrderedDatesAccepted(inp, now);
    }
  }

  // ---------------------------------------------------------------------------
  // Worked cases

  function Jan2025(day: int, hour: int, minute: int): DateTime {
    DateTime(2025, 1, day, hour, minute, 0, 0, TimeZone)
  }

  function NineOClock(duration: int): ScheduleInput {
    ScheduleInput(0.0, Jan2025(1, 0, 0), Daily, Jan2025(1, 9, 0), Some(Jan2025(31, 0, 0)),
                  Some(Text("09:00")), Some(duration))
  }

  /** The model after field validation of `NineOClock(d)` with its
      occurrence moved to `occurrence`. */
  function NineOClockFields(occurrence: DateTime, now: DateTime, d: int): Schedule {
    Schedule(0.0, now, Jan2025(1, 0, 0), Daily, occurrence, Some(Jan2025(31, 0, 0)), Some("09:00"), Some(d))
  }

  lemma NineOClockFieldsAccepted(occurrence: DateTime, now: DateTime, d: int)
    requires ValidDateTime(occurrence) && ValidDateTime(now) && d > 0
    ensures ValidateFields(NineOClock(d).(occurrenceDate := occurrence), now)
            == Ok(NineOClockFields(occurrence, now, d))
  {
    NineOClockText();
  }

  lemma NineOClockText()
    ensures EnsureTimeFormat(Text("09:00")) == Ok("09:00")
  {
    var t := "09:00";
    assert IsClockText(t);
    EnsureTimeFormatUnpadded(t);
  }

  /** An occurrence on 2025-01-01 that passes the ordering checks is moved
      to 09:00; what remains is the duration check. */
  lemma NineOClockPlaced(occurrence: DateTime, now: DateTime, d: int)
    requires ValidDateTime(occurrence) && ValidDateTime(now) && d > 0
    requires occurrence.year == 2025 && occurrence.month == 1 && occurrence.day == 1
    requires occurrence.zone == TimeZone
    requires !Before(occurrence, now)
    ensures Validate(NineOClock(d).(occurrenceDate := occurrence), now)
            == ValidateDuration(NineOClockFields(Jan2025(1, 9, 0), now, d))
  {
    NineOClockFieldsAccepted(occurrence, now, d);
    var fields := NineOClockFields(occurrence, now, d);
    assert ValidateDateOrder(fields) == Ok(fields);
    assert ValidateOccurrence(fields) == Ok(NineOClockFields(Jan2025(1, 9, 0), now, d));
  }

  /** 09:00 for 90 minutes inside January: accepted, at 09:00:00. */
  lemma NinetyMinutesAccepted()
    ensures Validate(NineOClock(90), Jan2025(1, 8, 0)).Ok?
    ensures Validate(NineOClock(90), Jan2025(1, 8, 0)).value.occurrenceDate == Jan2025(1, 9, 0)
  {
    NineOClockPlaced(Jan2025(1, 9, 0), Jan2025(1, 8, 0), 90);
  }

  /** 09:00 for 1000 minutes would end at 01:40 the next day: refused. */
  lemma ThousandMinutesCrossMidnight()
    ensures Validate(NineOClock(1000), Jan2025(1, 8, 0)) == Err(DurationCrossesMidnight)
  {
    NineOClockPlaced(Jan2025(1, 9, 0), Jan2025(1, 8, 0), 1000);
    EndsAtOneForty();
    var placed := NineOClockFields(Jan2025(1, 9, 0), Jan2025(1, 8, 0), 1000);
    assert ValidateDuration(placed) == Err(DurationCrossesMidnight);
  }

  lemma EndsAtOneForty()
    ensures MidnightCheck(Jan2025(1, 9, 0), 1000) == Err(DurationCrossesMidnight)
  {
    var total := MinuteOfDay(Jan2025(1, 9, 0)) + 1000;
    assert total == 1540 && total / 1440 == 1 && total % 1440 == 100;
    assert AddDays(Jan2025(2, 9, 0), 0) == Some(Jan2025(2, 9, 0));
    assert AddDays(Jan2025(1, 9, 0), 1) == Some(Jan2025(2, 9, 0));
  }

  /** The ordering checks look at the occurrence before `at_time` moves it,
      so a validated occurrence can lie before `now`. */
  lemma PlacedOccurrenceMayBePast()
    ensures var inp := NineOClock(60).(occurrenceDate := Jan2025(1, 13, 0));
            Validate(inp, Jan2025(1, 12, 0)).Ok? &&
            Before(Validate(inp, Jan2025(1, 12, 0)).value.occurrenceDate, Jan2025(1, 12, 0))
  {
    NineOClockPlaced(Jan2025(1, 13, 0), Jan2025(1, 12, 0), 60);
  }
}
