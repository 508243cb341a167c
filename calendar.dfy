/** Wall-clock date-time values as Python's `datetime` holds them, in the
    proleptic Gregorian calendar, with the arithmetic the validators use:
    comparison, `+ timedelta(minutes=k)` and the difference of two instants.
    All instants are read in one zone, so comparison and arithmetic work on
    the wall-clock fields; the zone is carried only as a tag. */
module Calendar {
  import opened Wrappers

  /** Python's `datetime.MINYEAR` and `datetime.MAXYEAR`. */
  const MinYear: int := 1
  const MaxYear: int := 9999

  /** `Naive` is a datetime without tzinfo (what `strptime` returns). */
  datatype Zone = Naive | Named(key: string)

  /** The fixed zone of the source modules. */
  const TimeZone: Zone := Named("America/New_York")

  datatype DateTime = DateTime(year: int, month: int, day: int,
                               hour: int, minute: int, second: int, microsecond: int,
                               zone: Zone)

  predicate IsLeapYear(y: int) {
    y % 4 == 0 && (y % 100 != 0 || y % 400 == 0)
  }

  function DaysInYear(y: int): int {
    if IsLeapYear(y) then 366 else 365
  }

  function DaysInMonth(y: int, m: int): (n: int)
    requires 1 <= m <= 12
    ensures 28 <= n <= 31
  {
    if m == 2 then (if IsLeapYear(y) then 29 else 28)
    else if m == 4 || m == 6 || m == 9 || m == 11 then 30
    else 31
  }

  predicate ValidDate(y: int, m: int, d: int) {
    MinYear <= y <= MaxYear && 1 <= m <= 12 && 1 <= d <= DaysInMonth(y, m)
  }

  /** Every Python `datetime` satisfies this: the constructor and every
      arithmetic operation refuse to build anything else. */
  predicate ValidDateTime(t: DateTime) {
    ValidDate(t.year, t.month, t.day) &&
    0 <= t.hour < 24 && 0 <= t.minute < 60 && 0 <= t.second < 60 &&
    0 <= t.microsecond < 1_000_000
  }

  /** The last representable instant, in zone `z`. */
  function LastInstant(z: Zone): DateTime {
    DateTime(MaxYear, 12, 31, 23, 59, 59, 999_999, z)
  }

  // ---------------------------------------------------------------------------
  // Day numbers (Python's `toordinal`: 0001-01-01 is day 1)

  /** Days before January 1st of year `y`, as Python's `_days_before_year`. */
  function DaysBeforeYear(y: int): (n: int)
    requires y >= 1
    ensures n >= 0
  {
    var p := y - 1;
    p * 365 + p / 4 - p / 100 + p / 400
  }

  /** Each year adds its own length to the count of days before it. */
  lemma DaysBeforeNextYear(y: int)
    requires y >= 1
    ensures DaysBeforeYear(y + 1) == DaysBeforeYear(y) + DaysInYear(y)
  {
    MultiplesOfFour(y);
    MultiplesOfHundred(y);
    MultiplesOfFourHundred(y);
    var p := y - 1;
    assert DaysBeforeYear(y + 1) == y * 365 + y / 4 - y / 100 + y / 400;
    assert DaysBeforeYear(y) == p * 365 + p / 4 - p / 100 + p / 400;
  }

  /** `y / 4` exceeds `(y - 1) / 4` by one exactly when 4 divides `y`;
      likewise for 100 and 400 below. */
  lemma MultiplesOfFour(y: int)
    requires y >= 1
    ensures y / 4 == (y - 1) / 4 + (if y % 4 == 0 then 1 else 0)
  {
  }

  lemma MultiplesOfHundred(y: int)
    requires y >= 1
    ensures y / 100 == (y - 1) / 100 + (if y % 100 == 0 then 1 else 0)
    ensures y % 100 == 0 ==> y % 4 == 0
  {
  }

  lemma MultiplesOfFourHundred(y: int)
    requires y >= 1
    ensures y / 400 == (y - 1) / 400 + (if y % 400 == 0 then 1 else 0)
    ensures y % 400 == 0 ==> y % 100 == 0
  {
  }

  /** Days of year `y` before the first of month `m`; month 13 stands for the
      first day of the next year. */
  function DaysBeforeMonth(y: int, m: int): (n: int)
    requires 1 <= m <= 13
    ensures n >= 0
  {
    if m == 1 then 0 else DaysBeforeMonth(y, m - 1) + DaysInMonth(y, m - 1)
  }

  function Ordinal(t: DateTime): int
    requires ValidDateTime(t)
  {
    DaysBeforeYear(t.year) + DaysBeforeMonth(t.year, t.month) + t.day
  }

  function MinuteOfDay(t: DateTime): int {
    t.hour * 60 + t.minute
  }

  function MicrosOfDay(t: DateTime): int {
    ((t.hour * 60 + t.minute) * 60 + t.second) * 1_000_000 + t.microsecond
  }

  /** Microseconds since 0001-01-01 00:00: the number `timedelta` arithmetic
      works on. */
  function Micros(t: DateTime): int
    requires ValidDateTime(t)
  {
    (Ordinal(t) - 1) * 86_400_000_000 + MicrosOfDay(t)
  }

  /** Python's `<` on two datetimes of the same zone: the wall-clock fields
      compared in order (the zone and `fold` play no part). */
  predicate Before(a: DateTime, b: DateTime) {
    if a.year != b.year then a.year < b.year
    else if a.month != b.month then a.month < b.month
    else if a.day != b.day then a.day < b.day
    else if a.hour != b.hour then a.hour < b.hour
    else if a.minute != b.minute then a.minute < b.minute
    else if a.second != b.second then a.second < b.second
    else a.microsecond < b.microsecond
  }

  predicate DateBefore(a: DateTime, b: DateTime) {
    a.year < b.year || (a.year == b.year && a.month < b.month) ||
    (a.year == b.year && a.month == b.month && a.day < b.day)
  }

  // ---------------------------------------------------------------------------
  // Facts about day numbers

  lemma YearIsTwelveMonths(y: int)
    ensures DaysBeforeMonth(y, 13) == DaysInYear(y)
  {
    var feb := DaysInMonth(y, 2);
    assert DaysBeforeMonth(y, 2) == 31;
    assert DaysBeforeMonth(y, 3) == 31 + feb;
    assert DaysBeforeMonth(y, 4) == 62 + feb;
    assert DaysBeforeMonth(y, 5) == 92 + feb;
    assert DaysBeforeMonth(y, 6) == 123 + feb;
    assert DaysBeforeMonth(y, 7) == 153 + feb;
    assert DaysBeforeMonth(y, 8) == 184 + feb;
    assert DaysBeforeMonth(y, 9) == 215 + feb;
    assert DaysBeforeMonth(y, 10) == 245 + feb;
    assert DaysBeforeMonth(y, 11) == 276 + feb;
    assert DaysBeforeMonth(y, 12) == 306 + feb;
  }

  lemma {:induction false} MonthsMonotone(y: int, m1: int, m2: int)
    requires 1 <= m1 < m2 <= 13
    ensures DaysBeforeMonth(y, m1) + DaysInMonth(y, m1) <= DaysBeforeMonth(y, m2)
    decreases m2
  {
    if m1 + 1 < m2 {
      MonthsMonotone(y, m1, m2 - 1);
    }
  }

  lemma {:induction false} YearsMonotone(y1: int, y2: int)
    requires 1 <= y1 < y2
    ensures DaysBeforeYear(y1) + DaysInYear(y1) <= DaysBeforeYear(y2)
    decreases y2 - y1
  {
    DaysBeforeNextYear(y1);
    if y1 + 1 < y2 {
      YearsMonotone(y1 + 1, y2);
      DaysBeforeNextYear(y1 + 1);
    }
  }

  /** The day number of a date lies in its year's block of days. */
  lemma OrdinalWithinYear(t: DateTime)
    requires ValidDateTime(t)
    ensures DaysBeforeYear(t.year) < Ordinal(t) <= DaysBeforeYear(t.year) + DaysInYear(t.year)
  {
    MonthsMonotone(t.year, t.month, 13);
    YearIsTwelveMonths(t.year);
  }

  /** An earlier calendar date has a smaller day number. */
  lemma OrdinalMonotone(a: DateTime, b: DateTime)
    requires ValidDateTime(a) && ValidDateTime(b)
    requires DateBefore(a, b)
    ensures Ordinal(a) < Ordinal(b)
  {
    if a.year < b.year {
      OrdinalWithinYear(a);
      OrdinalWithinYear(b);
      YearsMonotone(a.year, b.year);
    } else if a.month < b.month {
      MonthsMonotone(a.year, a.month, b.month);
    }
  }

  /** `Before` is the order of instants: comparing the fields in order is
      the same as comparing the microsecond counts. */
  lemma OrderAgreesWithMicros(a: DateTime, b: DateTime)
    requires ValidDateTime(a) && ValidDateTime(b)
    ensures Before(a, b) <==> Micros(a) < Micros(b)
  {
    if DateBefore(a, b) {
      OrdinalMonotone(a, b);
    } else if DateBefore(b, a) {
      OrdinalMonotone(b, a);
    } else {
      assert a.year == b.year && a.month == b.month && a.day == b.day;
      assert Ordinal(a) == Ordinal(b);
    }
  }

  // ---------------------------------------------------------------------------
  // Arithmetic

  /** The calendar date `n` days after that of `t`, time of day kept;
      None when it would lie after 9999-12-31 (Python's OverflowError). */
  function AddDays(t: DateTime, n: nat): (r: Option<DateTime>)
    requires ValidDateTime(t)
    ensures r.Some? ==> ValidDateTime(r.value) && Ordinal(r.value) == Ordinal(t) + n
    ensures r.Some? ==> r.value.(year := t.year, month := t.month, day := t.day) == t
    ensures r.None? ==> Ordinal(t) + n > Ordinal(LastInstant(t.zone))
    decreases n
  {
    var dim := DaysInMonth(t.year, t.month);
    if t.day + n <= dim then
      Some(t.(day := t.day + n))
    else if t.month < 12 then
      FirstOfNextMonth(t);
      AddDays(t.(month := t.month + 1, day := 1), n - (dim - t.day + 1))
    else if t.year < MaxYear then
      FirstOfNextYear(t);
      AddDays(t.(year := t.year + 1, month := 1, day := 1), n - (dim - t.day + 1))
    else
      None
  }

  lemma FirstOfNextMonth(t: DateTime)
    requires ValidDateTime(t) && t.month < 12
    ensures ValidDateTime(t.(month := t.month + 1, day := 1))
    ensures Ordinal(t.(month := t.month + 1, day := 1))
            == Ordinal(t) + DaysInMonth(t.year, t.month) - t.day + 1
  {
  }

  lemma FirstOfNextYear(t: DateTime)
    requires ValidDateTime(t) && t.month == 12 && t.year < MaxYear
    ensures ValidDateTime(t.(year := t.year + 1, month := 1, day := 1))
    ensures Ordinal(t.(year := t.year + 1, month := 1, day := 1))
            == Ordinal(t) + DaysInMonth(t.year, t.month) - t.day + 1
  {
    YearIsTwelveMonths(t.year);
    DaysBeforeNextYear(t.year);
  }

  /** `t + timedelta(minutes=k)`: None when the result would lie after the
      last representable instant (Python's OverflowError). */
  function AddMinutes(t: DateTime, k: nat): (r: Option<DateTime>)
    requires ValidDateTime(t)
    ensures r.Some? ==> ValidDateTime(r.value) && Micros(r.value) == Micros(t) + k * 60_000_000
    ensures r.Some? ==> r.value.second == t.second && r.value.microsecond == t.microsecond &&
                        r.value.zone == t.zone
    ensures r.None? ==> Micros(t) + k * 60_000_000 > Micros(LastInstant(t.zone))
  {
    var total := MinuteOfDay(t) + k;
    var rest := total % 1440;
    match AddDays(t, total / 1440)
    case None => None
    case Some(d) => Some(d.(hour := rest / 60, minute := rest % 60))
  }

  /** The next calendar date never has the same day of the month. */
  lemma NextDayChangesDay(t: DateTime)
    requires ValidDateTime(t)
    ensures AddDays(t, 1).Some? ==> AddDays(t, 1).value.day != t.day
  {
  }

  /** For at most one day's worth of minutes, `t + k` minutes keeps its day
      of the month exactly when it stays before midnight. */
  lemma {:induction false} SameDayIffBeforeMidnight(t: DateTime, k: nat)
    requires ValidDateTime(t) && k <= 1440
    ensures (AddMinutes(t, k).Some? && AddMinutes(t, k).value.day == t.day)
            <==> MinuteOfDay(t) + k < 1440
  {
    var total := MinuteOfDay(t) + k;
    if total < 1440 {
      assert total / 1440 == 0;
      assert AddDays(t, 0) == Some(t);
    } else {
      assert total / 1440 == 1;
      NextDayChangesDay(t);
    }
  }
}
