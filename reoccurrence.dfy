/** The hand-written `ItemSchedule` constructor (trackers/reoccurrence.py).
    Its rules differ from the declarative model and are kept as written:
    the duration guard refuses only durations of zero or less, a falsy
    duration skips its checks, and the start-time check reads `now`, which
    the constructor assigns only as its last step, so every non-empty
    scheduled time makes construction fail. The parse of a scheduled time by
    `strptime` with the configured format is an input (`parsed`). */
module Reoccurrence {
  import opened Wrappers
  import opened Calendar
  import opened Common

  /** Hour, minute and second that `strptime` reads from a scheduled time. */
  datatype Clock = Clock(hour: int, minute: int, second: int)

  /** `strptime` only yields a datetime, so its fields are in range. */
  predicate ValidClock(c: Clock) {
    0 <= c.hour < 24 && 0 <= c.minute < 60 && 0 <= c.second < 60
  }

  predicate ValidParse(parsed: Option<Clock>) {
    parsed.Some? ==> ValidClock(parsed.value)
  }

  /** The naive datetime `strptime` returns for a time of day: 1900-01-01. */
  function ParsedInstant(c: Clock): DateTime {
    DateTime(1900, 1, 1, c.hour, c.minute, c.second, 0, Naive)
  }

  datatype ItemSchedule = ItemSchedule(
    created: real,
    startDate: DateTime,
    occurrenceDate: DateTime,
    endDate: Option<DateTime>,
    reoccurrence: ReoccurrenceType,
    atTime: Option<string>,
    durationMinutes: Option<int>,
    now: DateTime)

  /** A falsy duration: None or 0. */
  predicate DurationFalsy(d: Option<int>) {
    d.None? || d.value == 0
  }

  /** `_validate_time_str`: a string that `strptime` reads, with what it read. */
  function ValidateTimeStr(v: Raw, parsed: Option<Clock>): (r: Outcome<(string, DateTime)>)
    ensures r.Ok? <==> v.Text? && parsed.Some?
    ensures r.Ok? ==> r.value.0 == v.text && r.value.1 == ParsedInstant(parsed.value)
    ensures v.NonText? ==> r == Err(NotAString)
    ensures v.Text? && parsed.None? ==> r == Err(TimeNotParsed)
  {
    match v
    case NonText(_) => Err(NotAString)
    case Text(s) =>
      match parsed
      case None => Err(TimeNotParsed)
      case Some(c) => Ok((s, ParsedInstant(c)))
  }

  /** `_insert_occurrence_time`: the occurrence keeps its year, month and
      day and takes hour, minute and second from the scheduled time, with
      zero microseconds, in the fixed zone. */
  function InsertOccurrenceTime(occurrence: DateTime, atTime: Raw, parsed: Option<Clock>)
    : (r: Outcome<DateTime>)
    ensures r.Ok? <==> atTime.Text? && parsed.Some?
    ensures r.Ok? ==>
              var o, c := r.value, parsed.value;
              o.year == occurrence.year && o.month == occurrence.month && o.day == occurrence.day &&
              o.hour == c.hour && o.minute == c.minute && o.second == c.second &&
              o.microsecond == 0 && o.zone == TimeZone
    ensures r.Ok? && ValidDateTime(occurrence) && ValidParse(parsed) ==> ValidDateTime(r.value)
  {
    var read :- ValidateTimeStr(atTime, parsed);
    var t := read.1;
    Ok(DateTime(occurrence.year, occurrence.month, occurrence.day,
                t.hour, t.minute, t.second, 0, TimeZone))
  }

  /** `_validate_start_time`: a scheduled time of 00:00:00 is refused; then
      it is compared with `now`, which is None while unassigned (reading it
      raises). With `now` unassigned it never succeeds. */
  function ValidateStartTime(v: Raw, parsed: Option<Clock>, now: Option<DateTime>): (r: Outcome<string>)
    ensures now.None? ==> r.Err?
    ensures r.Ok? <==> v.Text? && parsed.Some? && parsed.value != Clock(0, 0, 0) &&
                       now.Some? && !Before(ParsedInstant(parsed.value), now.value)
    ensures r.Ok? ==> r.value == v.text
    ensures v.Text? && parsed == Some(Clock(0, 0, 0)) ==> r == Err(StartTimeIsMidnight)
  {
    var read :- ValidateTimeStr(v, parsed);
    var t := read.1;
    if t.hour == 0 && t.minute == 0 && t.second == 0 then
      Err(StartTimeIsMidnight)
    else
      match now
      case None => Err(NowNotSet)
      case Some(n) => if Before(t, n) then Err(StartTimeInPast) else Ok(read.0)
  }

  /** `_validate_occurrence_date`: refuses an occurrence before the start. */
  function ValidateOccurrenceDate(startDate: DateTime, occurrence: DateTime): (r: Outcome<DateTime>)
    ensures r.Ok? <==> !Before(occurrence, startDate)
    ensures r.Ok? ==> r.value == occurrence
    ensures r.Err? ==> r.error == OccurrenceBeforeStart
  {
    if Before(occurrence, startDate) then Err(OccurrenceBeforeStart) else Ok(occurrence)
  }

  /** `_validate_duration`: the guard `1440 >= d <= 0` refuses exactly the
      durations of zero or less; then the occurrence plus the duration must
      keep its day of the month, with no upper bound on the duration. */
  function ValidateDuration(d: int, occurrence: DateTime): (r: Outcome<int>)
    requires ValidDateTime(occurrence)
    ensures r == Err(DurationOutOfRange) <==> d <= 0
    ensures r.Ok? ==> r.value == d
    ensures r.Ok? <==> d > 0 && AddMinutes(occurrence, d).Some? &&
                       AddMinutes(occurrence, d).value.day == occurrence.day
    ensures r == Err(DurationCrossesMidnight) <==>
              d > 0 && AddMinutes(occurrence, d).Some? &&
              AddMinutes(occurrence, d).value.day != occurrence.day
    ensures r == Err(DateOutOfRange) <==> d > 0 && AddMinutes(occurrence, d).None?
    ensures 1 <= d <= 1440 ==> (r.Ok? <==> MinuteOfDay(occurrence) + d < 1440)
  {
    if 1440 >= d && d <= 0 then
      Err(DurationOutOfRange)
    else
      assert d <= 1440 ==> (MidnightCheck(occurrence, d).Ok? <==> MinuteOfDay(occurrence) + d < 1440) by {
        if d <= 1440 {
          MidnightCheckWithinDay(occurrence, d);
        }
      }
      var endured :- MidnightCheck(occurrence, d);
      Ok(d)
  }

  /** `ItemSchedule.__init__`: the fields are assigned in the source's order
      and each helper sees only what has been assigned before it; `clock` is
      the reading `datetime.now` gives at the last step. The defaults are the
      source's: a daily recurrence, and no end date, scheduled time or
      duration. */
  method NewItemSchedule(created: real, startDate: DateTime, occurrenceDate: DateTime,
                         reoccurrence: ReoccurrenceType := Daily,
                         endDate: Option<DateTime> := None,
                         scheduledTime: Raw := NonText(false), parsed: Option<Clock> := None,
                         durationMinutes: Option<int> := None, clock: DateTime)
    returns (r: Outcome<ItemSchedule>)
    requires ValidDateTime(startDate) && ValidDateTime(occurrenceDate) && ValidParse(parsed)
    ensures r.Ok? <==> !Before(occurrenceDate, startDate) && !Truthy(scheduledTime) &&
                       (DurationFalsy(durationMinutes) ||
                        ValidateDuration(durationMinutes.value, occurrenceDate).Ok?)
    ensures Before(occurrenceDate, startDate) ==> r == Err(OccurrenceBeforeStart)
    ensures Truthy(scheduledTime) ==> r.Err?
    ensures (!Before(occurrenceDate, startDate) && !Truthy(scheduledTime) &&
             durationMinutes.Some? && durationMinutes.value < 0) ==> r == Err(DurationOutOfRange)
    ensures r.Ok? ==> r.value.occurrenceDate == occurrenceDate && r.value.atTime.None?
    ensures r.Ok? ==> r.value.durationMinutes == (if DurationFalsy(durationMinutes) then None
                                                  else durationMinutes)
    ensures r.Ok? ==> r.value.created == created && r.value.startDate == startDate &&
                      r.value.endDate == endDate && r.value.reoccurrence == reoccurrence &&
                      r.value.now == clock
  {
    // `self.now` is not assigned until the last line of the constructor.
    var now: Option<DateTime> := None;
    var start := startDate;
    match ValidateOccurrenceDate(start, occurrenceDate) {
      case Err(e) =>
        r := Err(e);
        return;
      case Ok(_) =>
    }
    // The helper's result is discarded: the argument itself is stored.
    var occurrence := occurrenceDate;
    var end := endDate;
    var atTime: Option<string> := None;
    if Truthy(scheduledTime) {
      match ValidateStartTime(scheduledTime, parsed, now) {
        case Err(e) =>
          r := Err(e);
          return;
        case Ok(s) =>
          atTime := Some(s);
      }
    }
    match atTime {
      case None =>
      case Some(s) =>
        if s != "" {
          match InsertOccurrenceTime(occurrence, Text(s), parsed) {
            case Err(e) =>
              r := Err(e);
              return;
            case Ok(o) =>
              occurrence := o;
          }
        }
    }
    var duration: Option<int> := None;
    match durationMinutes {
      case None =>
      case Some(d) =>
        if d != 0 {
          match ValidateDuration(d, occurrence) {
            case Err(e) =>
              r := Err(e);
              return;
            case Ok(v) =>
              duration := Some(v);
          }
        }
    }
    now := Some(clock);
    r := Ok(ItemSchedule(created, start, occurrence, end, reoccurrence, atTime, duration, clock));
  }

  /** `ItemSchedule(created, start_date, occurrence_date)` with every other
      argument left to its default: built exactly when the occurrence is not
      before the start, as a daily schedule with no end date, time of day or
      duration. */
  method NewItemScheduleWithDefaults(created: real, startDate: DateTime, occurrenceDate: DateTime,
                                     clock: DateTime)
    returns (r: Outcome<ItemSchedule>)
    requires ValidDateTime(startDate) && ValidDateTime(occurrenceDate)
    ensures r.Ok? <==> !Before(occurrenceDate, startDate)
    ensures r.Err? ==> r == Err(OccurrenceBeforeStart)
    ensures r.Ok? ==> r.value == ItemSchedule(created, startDate, occurrenceDate, None, Daily,
                                              None, None, clock)
  {
    r := NewItemSchedule(created, startDate, occurrenceDate, clock := clock);
  }

  // ---------------------------------------------------------------------------
  // What the helpers promise

  /** Any scheduled time is refused while `now` is unassigned, whatever it
      is and whatever `strptime` makes of it. */
  lemma StartTimeAlwaysRefusedInConstructor(v: Raw, parsed: Option<Clock>)
    ensures ValidateStartTime(v, parsed, None).Err?
    ensures v.Text? && parsed.Some? && parsed.value != Clock(0, 0, 0) ==>
              ValidateStartTime(v, parsed, None) == Err(NowNotSet)
  {
  }

  /** A duration far beyond one day passes: 31 days from 2025-01-01 10:00
      ends on 2025-02-01 10:00, the same day of the month. */
  lemma MonthLongDurationAccepted()
    ensures ValidateDuration(31 * 1440, DateTime(2025, 1, 1, 10, 0, 0, 0, TimeZone)) == Ok(31 * 1440)
  {
    MonthOfMinutes();
  }

  lemma MonthOfMinutes()
    ensures AddMinutes(DateTime(2025, 1, 1, 10, 0, 0, 0, TimeZone), 31 * 1440)
            == Some(DateTime(2025, 2, 1, 10, 0, 0, 0, TimeZone))
  {
    var occurrence := DateTime(2025, 1, 1, 10, 0, 0, 0, TimeZone);
    var total := MinuteOfDay(occurrence) + 31 * 1440;
    assert total == 45240 && total / 1440 == 31 && total % 1440 == 600;
    MonthOfDays();
  }

  lemma MonthOfDays()
    ensures AddDays(DateTime(2025, 1, 1, 10, 0, 0, 0, TimeZone), 31)
            == Some(DateTime(2025, 2, 1, 10, 0, 0, 0, TimeZone))
  {
    var occurrence := DateTime(2025, 1, 1, 10, 0, 0, 0, TimeZone);
    assert DaysInMonth(2025, 1) == 31;
    assert AddDays(DateTime(2025, 2, 1, 10, 0, 0, 0, TimeZone), 0)
           == Some(DateTime(2025, 2, 1, 10, 0, 0, 0, TimeZone));
  }

  /** Durations above 1440 are never refused by the range guard; only the
      day-of-month comparison can refuse them. */
  lemma LongDurationsOnlyMeetMidnightCheck(d: int, occurrence: DateTime)
    requires ValidDateTime(occurrence) && d > 1440
    ensures ValidateDuration(d, occurrence) != Err(DurationOutOfRange)
    ensures ValidateDuration(d, occurrence).Ok? <==> MidnightCheck(occurrence, d).Ok?
  {
  }
}
