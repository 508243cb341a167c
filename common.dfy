/** What the two schedule validators and `Task` share: the recurrence tag,
    the failure tags, loosely typed inputs, and the midnight check that both
    validators perform on `occurrence + duration`. */
module Common {
  import opened Wrappers
  import opened Calendar

  /** `ReoccurrenceType`: a tag only; nothing in the core advances by it. */
  datatype ReoccurrenceType = Daily | Weekly | Monthly | Quarterly | Yearly

  /** Which check refused the input. The source raises an exception in each
      case; the model returns the tag instead. */
  datatype Failure =
    | NotAString              // a time-of-day argument is not a `str`
    | MalformedTimeOfDay      // `at_time` does not match HH:MM
    | DurationNotPositive     // `PositiveInt` field validation
    | DateOrderViolation      // end_date < start_date
    | OccurrenceBeforeStart   // occurrence_date < start_date
    | OccurrenceInPast        // occurrence_date < now
    | OccurrenceAfterEnd      // occurrence_date > end_date
    | DurationOutOfRange      // the range guard on duration_minutes
    | DurationCrossesMidnight // occurrence + duration has another day of the month
    | DateOutOfRange          // OverflowError of datetime + timedelta
    | TimeNotParsed           // strptime refuses the scheduled time
    | StartTimeIsMidnight     // a scheduled time of 00:00:00
    | StartTimeInPast         // a scheduled time earlier than now
    | NowNotSet               // AttributeError: `now` read before it is assigned
    | MissingTimestamps       // runtime asked for without start or completion

  type Outcome<T> = Result<T, Failure>

  /** An argument the source accepts as `Any`: a string, or some other value
      of which only its Python truthiness matters (None is `NonText(false)`). */
  datatype Raw = Text(text: string) | NonText(truthy: bool)

  predicate Truthy(v: Raw) {
    match v
    case Text(s) => s != ""
    case NonText(t) => t
  }

  /** `endured = occurrence + timedelta(minutes=d)`, refused when its day of
      the month differs from the occurrence's; yields `endured`. */
  function MidnightCheck(occurrence: DateTime, d: nat): (r: Outcome<DateTime>)
    requires ValidDateTime(occurrence)
    ensures r.Ok? ==> ValidDateTime(r.value) && r.value.day == occurrence.day &&
                      Micros(r.value) == Micros(occurrence) + d * 60_000_000
    ensures r.Err? ==> r.error == DateOutOfRange || r.error == DurationCrossesMidnight
    ensures r == Err(DateOutOfRange) <==> AddMinutes(occurrence, d).None?
    ensures r == Err(DurationCrossesMidnight) <==>
              AddMinutes(occurrence, d).Some? && AddMinutes(occurrence, d).value.day != occurrence.day
    ensures r.Ok? <==> AddMinutes(occurrence, d).Some? &&
                       AddMinutes(occurrence, d).value.day == occurrence.day
  {
    match AddMinutes(occurrence, d)
    case None => Err(DateOutOfRange)
    case Some(endured) =>
      if endured.day != occurrence.day then Err(DurationCrossesMidnight) else Ok(endured)
  }

  /** Within one day's worth of minutes, the midnight check passes exactly
      when the occurrence's time of day plus the duration stays below 24:00. */
  lemma MidnightCheckWithinDay(occurrence: DateTime, d: nat)
    requires ValidDateTime(occurrence) && d <= 1440
    ensures MidnightCheck(occurrence, d).Ok? <==> MinuteOfDay(occurrence) + d < 1440
  {
    SameDayIffBeforeMidnight(occurrence, d);
  }
}
