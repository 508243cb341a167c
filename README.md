# Recurring-task schedules and task lifecycle, in Dafny

This project models the core of a small recurring-task tracker:

- **`Schedule`** (trackers/schedule.py): the declarative validator. Field
  validation runs first: `at_time` goes through `ensure_time_format`, and
  `duration_minutes` must be a positive integer. Then three validators run
  in order: date order, occurrence, duration. The first failure ends
  validation. The occurrence check also moves the occurrence to `at_time`.
- **`ItemSchedule`** (trackers/reoccurrence.py): the older hand-written
  constructor. It assigns its fields step by step and has these quirks,
  kept as written:
  - the guard `1440 >= d <= 0` only refuses durations of zero or less;
  - a falsy duration skips every duration check;
  - `_validate_start_time` reads `self.now` before the constructor assigns
    it, so any non-empty scheduled time makes construction fail.
- **`Task`** (trackers/task/task.py): a mutable object. Its `start`,
  `complete` and `cancel` methods update its status, start time,
  completion time, runtime and cancellation reason in place.

Python's `datetime` is modelled in `Calendar`:
- a date-time is a record of wall-clock fields in the proleptic Gregorian
  calendar;
- `<` compares the fields in order;
- `+ timedelta(minutes=k)` steps through the calendar, and returns None
  past year 9999, where Python raises `OverflowError`;
- the difference of two instants is a count of microseconds.

The lemma `OrderAgreesWithMicros` shows that comparing the fields is the
same as comparing the instants. The contracts of `AddDays` and
`AddMinutes` show that the calendar stepping moves an instant by exactly
the requested number of days or minutes.

Each failure the source raises as an exception is a tag of
`Common.Failure`. The clock reading (`now`) is a parameter everywhere.

Files:
- `wrappers.dfy`: `Option` and `Result`.
- `calendar.dfy`: date-times and their arithmetic.
- `common.dfy`: the failure tags, loosely typed inputs, `ReoccurrenceType`,
  and the midnight check both validators perform.
- `schedule.dfy`, `reoccurrence.dfy`, `task.dfy`: one per source file.

Behaviour of the code worth noting:
- A 1440-minute duration is refused at every start time, 00:00 included,
  because the end instant always falls on the next day, or past the last
  representable date (`FullDayDurationRefused`).
- The occurrence checks run before `at_time` moves the occurrence, so a
  validated occurrence can lie before `now` or before the start date
  (`PlacedOccurrenceMayBePast`).
- `complete` writes the completion time and the COMPLETED status before it
  raises for a task that was never started (`CompleteWithoutStart`).
- `cancel` stores a reason only when it is truthy, so an empty reason is
  ignored (`Tasks.Task.Cancel`).

## Model

| member | source | states |
|---|---|---|
| `Calendar.OrderAgreesWithMicros` | trackers/schedule.py:64-72 | Comparing two date-times field by field (Python's `<`) is the same as comparing their instants as microsecond counts. |
| `Calendar.AddDays` | trackers/schedule.py:94-95 | Moving the date `n` days forward keeps the time of day and increases the day number by exactly `n`. It gives None exactly when the day would pass 9999-12-31. |
| `Calendar.AddMinutes` | trackers/schedule.py:94-95 | `t + timedelta(minutes=k)` is a valid date-time exactly `k` minutes later, with the same seconds, microseconds and zone. It gives None only when the result would pass the last representable instant. |
| `Calendar.NextDayChangesDay` | trackers/schedule.py:96 | The next calendar date always has a different day of the month. |
| `Calendar.SameDayIffBeforeMidnight` | trackers/schedule.py:94-96 | For a valid date-time `t` and at most 1440 minutes `k`, `t + timedelta(minutes=k)` exists and has the same day of the month as `t` exactly when the minute of the day of `t` plus `k` is below 1440. |
| `Common.MidnightCheck` | trackers/schedule.py:93-98 | Passes exactly when `occurrence + d` exists and has the same day of the month, and then yields the end instant, `d` minutes later. It fails with DateOutOfRange exactly when the addition overflows (Python's OverflowError), and with DurationCrossesMidnight exactly when the end has another day of the month. |
| `Common.MidnightCheckWithinDay` | trackers/schedule.py:93-98 | For durations of at most 1440 minutes, the midnight check passes exactly when the minute of the day plus the duration is below 1440. |
| `Schedules.StripLeadingPadded` | trackers/schedule.py:32 | `strip` removes exactly the leading whitespace before text that does not start with whitespace. |
| `Schedules.StripTrailingPadded` | trackers/schedule.py:32 | `strip` removes exactly the trailing whitespace after text that does not end with whitespace. |
| `Schedules.StripPadded` | trackers/schedule.py:32 | `strip` of surrounding whitespace gives back the text inside it. |
| `Schedules.ClockTextRoundTrip` | trackers/schedule.py:31-32 | Every hour 0-23 and minute 0-59 has a zero-padded `HH:MM` text. That text matches the pattern and reads back as the same hour and minute. |
| `Schedules.ClockTextCanonical` | trackers/schedule.py:76 | Every text that matches the pattern reads as an hour 0-23 and a minute 0-59, and is exactly the zero-padded text of that time. |
| `Schedules.EnsureTimeFormat` | trackers/schedule.py:28-36 | A non-string is refused. A string is accepted exactly when its stripped form matches `([0-1][0-9]\|2[0-3]):([0-5][0-9])`, and then the stripped form is returned. |
| `Schedules.EnsureTimeFormatAccepts` | trackers/schedule.py:28-36 | Any zero-padded time of day, with any whitespace around it, is accepted and returned without the whitespace. |
| `Schedules.EnsureTimeFormatYieldsClockTime` | trackers/schedule.py:31-36 | Whatever is accepted is the zero-padded text of an hour 00-23 and a minute 00-59. |
| `Schedules.EnsureTimeFormatRefusesHour24` | trackers/schedule.py:31-35 | `"24:00"` is refused as malformed: the pattern allows hours 00-23 only. |
| `Schedules.EnsureTimeFormatRefusesShortHour` | trackers/schedule.py:31-35 | `"9:30"` is refused as malformed: the hour needs two digits. |
| `Schedules.EnsureTimeFormatRefusesMinute60` | trackers/schedule.py:31-35 | `"12:60"` is refused as malformed: the pattern allows minutes 00-59 only. |
| `Schedules.EnsureTimeFormatStripsSpaces` | trackers/schedule.py:31-36 | `" 09:30 "` is accepted and returned as `"09:30"`. |
| `Schedules.EnsureTimeFormatUnpadded` | trackers/schedule.py:31-36 | A text with no whitespace at either end is accepted as itself exactly when it matches the pattern, and is otherwise refused as malformed. |
| `Schedules.ValidateFields` | trackers/schedule.py:39-52 | Field validation passes exactly when `at_time` is absent or accepted by `ensure_time_format`, and the duration is absent or positive. Every field is then copied, with `at_time` stripped. |
| `Schedules.ValidateDateOrder` | trackers/schedule.py:54-58 | Fails with DateOrderViolation exactly when an end date is set and is earlier than the start date. Otherwise the model passes unchanged. |
| `Schedules.ValidateOccurrence` | trackers/schedule.py:60-85 | The checks run in order on the occurrence as given: before start, in the past, after end. Each fails exactly when its comparison holds and the earlier ones do not, and the check passes exactly when none of the three holds. On success only the occurrence changes. With `at_time` it keeps its date and zone, takes the hour and minute of `at_time`, and gets zero seconds and microseconds. |
| `Schedules.ValidateDuration` | trackers/schedule.py:87-100 | A duration outside 1..1440 fails with DurationOutOfRange. A duration in range fails with DurationCrossesMidnight exactly when the end has another day of the month, and with DateOutOfRange exactly when the addition overflows. The check passes exactly when there is no duration, or when the duration is in range and the occurrence's minute of the day plus the duration is below 1440. |
| `Schedules.Validate` | trackers/schedule.py:39-100 | On success every field equals its argument except the occurrence and `at_time`, which is stripped. `now` is recorded. |
| `Schedules.ValidateAcceptsExactlyLegal` | trackers/schedule.py:39-100 | Validation succeeds exactly on `Legal` arguments: a well-formed `at_time`, a duration of 1..1440, dates in order, an occurrence not before start, not before now and not after end, and a start minute (from `at_time` or the occurrence) plus the duration below 1440. |
| `Schedules.ValidateReportsFirstFailure` | trackers/schedule.py:54-72 | An end date before the start date always fails, with DateOrderViolation once the fields are accepted. The occurrence failures are reported in source order. |
| `Schedules.ValidatePlacesOccurrence` | trackers/schedule.py:74-83 | After success with `at_time`, the occurrence has its original date and zone, the hour and minute of `at_time`, and zero seconds and microseconds. Without `at_time` it is unchanged. |
| `Schedules.ValidateBoundsDuration` | trackers/schedule.py:89-98 | After success with a duration, the duration is 1..1440 and the occurrence plus the duration falls on the same calendar date. |
| `Schedules.FullDayDurationRefused` | trackers/schedule.py:93-98 | A duration of 1440 minutes is always refused, even at 00:00. |
| `Schedules.LongDurationOutOfRange` | trackers/schedule.py:89-91 | A duration above 1440 fails with DurationOutOfRange once the earlier checks pass. |
| `Schedules.OrderedDatesAccepted` | trackers/schedule.py:54-85 | Start ≤ occurrence ≤ end with the occurrence not in the past, and no `at_time` or duration: validation succeeds and keeps the occurrence. |
| `Schedules.DefaultsAccepted` | trackers/schedule.py:44-52 | With only the start and occurrence dates given, validation succeeds exactly when the occurrence is neither before the start nor before now. The result is then a daily schedule with no end date, time of day or duration. |
| `Schedules.NinetyMinutesAccepted` | trackers/schedule.py:60-100 | 2025-01-01 09:00 for 90 minutes, inside January, with `at_time` "09:00": accepted, with the occurrence at 09:00:00. |
| `Schedules.ThousandMinutesCrossMidnight` | trackers/schedule.py:93-98 | The same with 1000 minutes ends at 01:40 the next day, so it fails with DurationCrossesMidnight. |
| `Schedules.PlacedOccurrenceMayBePast` | trackers/schedule.py:63-83 | An occurrence at 13:00 with `at_time` "09:00" and now at 12:00 is accepted, and the stored occurrence (09:00) lies before now. |
| `Reoccurrence.ValidateTimeStr` | trackers/reoccurrence.py:54-67 | A non-string is refused. So is a string `strptime` cannot read. Otherwise the string is returned with the naive 1900-01-01 date-time that was read. |
| `Reoccurrence.InsertOccurrenceTime` | trackers/reoccurrence.py:69-80 | The occurrence keeps its year, month and day, takes hour, minute and second from the parsed time, gets zero microseconds, and moves to the fixed zone. |
| `Reoccurrence.ValidateStartTime` | trackers/reoccurrence.py:82-91 | A parsed 00:00:00 is refused. Success needs a set `now` that the parsed time is not before. With `now` unassigned it always fails. |
| `Reoccurrence.ValidateOccurrenceDate` | trackers/reoccurrence.py:93-97 | Fails with OccurrenceBeforeStart exactly when the occurrence is before the start date. Otherwise the occurrence is returned. |
| `Reoccurrence.ValidateDuration` | trackers/reoccurrence.py:99-108 | The range guard fails exactly when `d <= 0`, never for `d > 1440`. Success means `d > 0` and `occurrence + d` minutes has the same day of the month. For `d > 0`, it fails with DurationCrossesMidnight exactly when the end has another day of the month, and with DateOutOfRange exactly when the addition overflows. For 1..1440 minutes, that is the same as staying before midnight. |
| `Reoccurrence.NewItemSchedule` | trackers/reoccurrence.py:29-52 | Construction succeeds exactly when the occurrence is not before the start, the scheduled time is falsy, and the duration is falsy or passes `_validate_duration`. An occurrence before the start fails with OccurrenceBeforeStart first. A negative duration fails with DurationOutOfRange. On success the stored occurrence is the argument, there is no `at_time`, a falsy duration is None, and the other fields are the arguments. |
| `Reoccurrence.NewItemScheduleWithDefaults` | trackers/reoccurrence.py:29-34 | With only `created`, the start date and the occurrence given, construction succeeds exactly when the occurrence is not before the start, giving a daily schedule with no end date, time of day or duration. Otherwise it fails with OccurrenceBeforeStart. |
| `Reoccurrence.StartTimeAlwaysRefusedInConstructor` | trackers/reoccurrence.py:82-91 | With `now` not yet assigned, every scheduled time is refused. A readable time other than 00:00:00 fails with NowNotSet. |
| `Reoccurrence.MonthLongDurationAccepted` | trackers/reoccurrence.py:104-107 | A 31-day duration from 2025-01-01 10:00 ends on 2025-02-01 10:00. The days of the month are equal, so it passes. |
| `Reoccurrence.LongDurationsOnlyMeetMidnightCheck` | trackers/reoccurrence.py:100-107 | Durations above 1440 are never refused by the range guard. They pass exactly when the midnight check passes. |
| `Tasks.Elapsed` | trackers/task/task.py:39 | `completed - started` is positive exactly when completion comes after the start, and negative exactly when it comes before. |
| `Tasks.ElapsedMinutes` | trackers/task/task.py:37-39 | Completing `k` minutes after the start gives a runtime of exactly `k` minutes. |
| `Tasks.Task.constructor` | trackers/task/task.py:21-31 | A new task has status CREATED and no start time, completion time, runtime or reason. A falsy recurrence is stored as None. The name, description and due date are stored as given. |
| `Tasks.Task.Start` | trackers/task/task.py:33-35 | From any status: the start time becomes now and the status IN_PROGRESS. Nothing else changes. The `Task` invariant is kept. |
| `Tasks.Task.CalculateRuntime` | trackers/task/task.py:37-42 | Fails with MissingTimestamps unless both timestamps are set. Otherwise it gives the elapsed time from start to completion. |
| `Tasks.Task.Complete` | trackers/task/task.py:44-47 | The completion time and COMPLETED status are always written. The call succeeds exactly when a start time exists, and then the runtime is the time since the start. Otherwise the runtime keeps its previous value. |
| `Tasks.Task.Cancel` | trackers/task/task.py:49-52 | From any status the status becomes CANCELED. A reason is stored only if it is a non-empty string, otherwise the earlier one stays. The timestamps, runtime and descriptive fields are unchanged. |
| `Tasks.FiveMinuteRun` | trackers/task/task.py:33-47 | Starting, then completing five minutes later, records a runtime of exactly five minutes. |
| `Tasks.CompleteWithoutStart` | trackers/task/task.py:40-47 | Completing a task that was never started fails with MissingTimestamps. That `Task` is still marked COMPLETED, with no runtime. |

## Left out

- Time zones and daylight saving time: every instant is a wall-clock reading in one zone. The zone is carried as a tag only. Comparison and arithmetic ignore it, as Python does for two datetimes sharing one `tzinfo`. The `fold` attribute is not modelled.
- `datetime.now` and `time.time()`: the clock reading is a parameter (`now`, `clock`), and `created` is an opaque number.
- `dotenv` and the `TIME_INPUT_FORMATS` setting: `strptime` is a library call whose format comes from the environment. Its result (`parsed`, or None when it refuses the text) is an input of `Reoccurrence.NewItemSchedule`.
- Pydantic machinery: type coercion, default factories and exception classes are not modelled. Every failure is one tag.
- Pydantic v2 cannot construct `ValidationError("...")`, so those lines raise a `TypeError` instead. It is still a failure, which is all the model records. Pydantic does not collect a `TypeError` as a field error, so a malformed `at_time` ends `Schedule(...)` at once and `duration_minutes` is never checked, as in the model.
- Comparing a naive datetime with an aware one raises `TypeError`. This is not modelled. In `_validate_start_time`, that would refuse a scheduled time even if `now` were set; the model compares the fields instead.
- `Schedules.ValidateOccurrence`: its `except` branch (trackers/schedule.py:79-81) cannot be reached, because field validation has already matched `at_time` against `HH:MM`. The model requires that form and has no such branch.
- `Calendar.AddMinutes`: only non-negative minute counts are modelled. Every call in the core adds a positive duration.
- The unused `at_any_time` field, and `ReoccurrenceType` beyond being a tag. Advancing a recurrence is only a TODO in the source (trackers/task/task.py:54).
- A `Task`'s recurrence object comes from an import that does not resolve (trackers/task/task.py:5). It is an opaque reference with a truthiness.
- Only one `ReoccurrenceType` is modelled, although each source file declares its own identical enumeration.
- Determinism for a fixed clock reading is not a separate lemma. `Schedules.Validate` is a function of its arguments and `now`, so equal inputs give equal results.
