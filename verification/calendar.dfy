/** Proleptic Gregorian date arithmetic, computed the way the source's date
    library computes it: day ordinals with 0001-01-01 as day 1, weekdays with
    Monday as 0, and ISO 8601 week dates (section 4.1.4 of ISO 8601:2004),
    where week 1 of a year is the week holding that year's first Thursday. */
module Calendar {

  datatype Date = Date(year: int, month: int, day: int)

  /** A date and a time of day down to the microsecond, as the source's
      naive datetime values carry it. */
  datatype DateTime = DateTime(date: Date, hour: int, minute: int, second: int, microsecond: int)

  /** An ISO 8601 week date without its day-of-week component. */
  datatype IsoWeek = IsoWeek(year: int, week: int)

  predicate IsLeapYear(y: int) {
    y % 4 == 0 && (y % 100 != 0 || y % 400 == 0)
  }

  function DaysInYear(y: int): int {
    if IsLeapYear(y) then 366 else 365
  }

  function DaysInMonth(y: int, m: int): int
    requires 1 <= m <= 12
  {
    if m == 2 then (if IsLeapYear(y) then 29 else 28)
    else if m == 4 || m == 6 || m == 9 || m == 11 then 30
    else 31
  }

  predicate ValidDate(d: Date) {
    1 <= d.year && 1 <= d.month <= 12 && 1 <= d.day <= DaysInMonth(d.year, d.month)
  }

  predicate ValidDateTime(t: DateTime) {
    && ValidDate(t.date) && 0 <= t.hour < 24 && 0 <= t.minute < 60 && 0 <= t.second < 60
    && 0 <= t.microsecond < 1000000
  }

  /** Chronological order of dates: by year, then month, then day. */
  predicate DateBefore(a: Date, b: Date) {
    || a.year < b.year
    || (a.year == b.year && a.month < b.month)
    || (a.year == b.year && a.month == b.month && a.day < b.day)
  }

  predicate DateAtMost(a: Date, b: Date) {
    !DateBefore(b, a)
  }

  /** Chronological order of timestamps: by date, then time of day. */
  predicate DateTimeBefore(a: DateTime, b: DateTime) {
    || DateBefore(a.date, b.date)
    || (a.date == b.date && a.hour < b.hour)
    || (a.date == b.date && a.hour == b.hour && a.minute < b.minute)
    || (a.date == b.date && a.hour == b.hour && a.minute == b.minute && a.second < b.second)
    || (a.date == b.date && a.hour == b.hour && a.minute == b.minute && a.second == b.second
        && a.microsecond < b.microsecond)
  }

  /** Order of ISO weeks, as a comparison of (year, week) pairs. */
  predicate WeekBefore(a: IsoWeek, b: IsoWeek) {
    a.year < b.year || (a.year == b.year && a.week < b.week)
  }

  /** Number of days in all years before year y, counted from the start of
      year 1 (negative for years before it). */
  function DaysBeforeYear(y: int): int
    decreases if y < 1 then 2 - y else y
  {
    if y == 1 then 0
    else if y > 1 then DaysBeforeYear(y - 1) + DaysInYear(y - 1)
    else DaysBeforeYear(y + 1) - DaysInYear(y)
  }

  /** Number of days in year y before the first of month m. */
  function DaysBeforeMonth(y: int, m: int): int
    requires 1 <= m <= 12
  {
    var table := [0, 31, 59, 90, 120, 151, 181, 212, 243, 273, 304, 334];
    table[m - 1] + (if m > 2 && IsLeapYear(y) then 1 else 0)
  }

  /** Day number of a date, 0001-01-01 being day 1. */
  function Ordinal(d: Date): int
    requires ValidDate(d)
  {
    DaysBeforeYear(d.year) + DaysBeforeMonth(d.year, d.month) + d.day
  }

  /** Day of the week of day number n, Monday being 0 and Sunday 6. */
  function Weekday(n: int): int {
    (n + 6) % 7
  }

  /** The calendar day after d. */
  function NextDay(d: Date): Date
    requires ValidDate(d)
  {
    if d.day < DaysInMonth(d.year, d.month) then Date(d.year, d.month, d.day + 1)
    else if d.month < 12 then Date(d.year, d.month + 1, 1)
    else Date(d.year + 1, 1, 1)
  }

  /** Day number of the Monday that starts ISO week 1 of year y. */
  function Week1Monday(y: int): int {
    MondayOfWeek1(DaysBeforeYear(y) + 1)
  }

  /** Day number of the Monday that starts week 1 of a year whose January 1st
      is day `first`: the Monday of that week when it falls on Monday to
      Thursday, otherwise the Monday after. */
  function MondayOfWeek1(first: int): int {
    var firstWeekday := Weekday(first);
    if firstWeekday > 3 then first - firstWeekday + 7 else first - firstWeekday
  }

  /** The ISO (year, week) of a date, computed as the source's date library does:
      locate the date relative to week 1 of its own year, then step back to the
      previous ISO year or forward to the next one when it falls outside. */
  function IsoCalendar(d: Date): IsoWeek
    requires ValidDate(d)
  {
    IsoWeekOfDay(Ordinal(d), d.year)
  }

  /** The ISO week of day number n, a day of calendar year y. */
  function IsoWeekOfDay(n: int, y: int): IsoWeek {
    LocateWeek(n, y, Week1Monday(y - 1), Week1Monday(y), Week1Monday(y + 1))
  }

  /** The ISO week of day n of calendar year y, given where week 1 of the years
      y - 1, y and y + 1 starts. */
  function LocateWeek(n: int, y: int, prevMonday: int, monday: int, nextMonday: int): IsoWeek {
    var week := (n - monday) / 7;  // floor division: the divisor is positive
    if week < 0 then
      IsoWeek(y - 1, (n - prevMonday) / 7 + 1)
    else if week >= 52 && n >= nextMonday then
      IsoWeek(y + 1, 1)
    else
      IsoWeek(y, week + 1)
  }

  /** The number of ISO weeks in ISO year y: 52 or 53. */
  function WeeksInIsoYear(y: int): int {
    (Week1Monday(y + 1) - Week1Monday(y)) / 7
  }

  /** Week `iso` (a Monday-to-Sunday span of seven days) holds day number n. */
  predicate InIsoWeek(n: int, iso: IsoWeek) {
    && 1 <= iso.week
    && Week1Monday(iso.year) + 7 * (iso.week - 1) <= n < Week1Monday(iso.year) + 7 * iso.week
    && n < Week1Monday(iso.year + 1)
  }

  // ---------------------------------------------------------------------------
  // Day numbers

  /** Going from p to p + 1 years adds one leap day exactly when year p + 1 is a leap year. */
  lemma LeapDayStep(p: int)
    ensures (p + 1) / 4 - p / 4 == if (p + 1) % 4 == 0 then 1 else 0
    ensures (p + 1) / 100 - p / 100 == if (p + 1) % 100 == 0 then 1 else 0
    ensures (p + 1) / 400 - p / 400 == if (p + 1) % 400 == 0 then 1 else 0
  {
  }

  /** Consecutive years start DaysInYear apart. */
  lemma DaysBeforeYearStep(y: int)
    ensures DaysBeforeYear(y + 1) == DaysBeforeYear(y) + DaysInYear(y)
  {
  }

  /** The day count in closed form: 365 days a year plus one leap day for
      every fourth year, except centuries not divisible by 400. */
  lemma {:induction false} DaysBeforeYearClosedForm(y: int)
    requires y >= 1
    ensures var p := y - 1; DaysBeforeYear(y) == 365 * p + p / 4 - p / 100 + p / 400
    decreases y
  {
    if y > 1 {
      DaysBeforeYearClosedForm(y - 1);
      ClosedFormStep(y - 2);
    }
  }

  /** From q to q + 1 elapsed years the closed form grows by the length of
      year q + 1. */
  lemma ClosedFormStep(q: int)
    ensures 365 * (q + 1) + (q + 1) / 4 - (q + 1) / 100 + (q + 1) / 400
         == 365 * q + q / 4 - q / 100 + q / 400 + DaysInYear(q + 1)
  {
    LeapDayStep(q);
    LeapRule(q + 1);
  }

  /** The Gregorian rule as a count of leap days: +1 for multiples of 4, -1
      for multiples of 100, +1 for multiples of 400. */
  lemma LeapRule(y: int)
    ensures (if y % 4 == 0 then 1 else 0) - (if y % 100 == 0 then 1 else 0) + (if y % 400 == 0 then 1 else 0)
         == (if IsLeapYear(y) then 1 else 0)
  {
    if y % 400 == 0 {
      var k := y / 400;
      assert y == 100 * (4 * k) && y == 4 * (100 * k);
    } else if y % 100 == 0 {
      var k := y / 100;
      assert y == 4 * (25 * k);
    }
  }

  lemma {:induction false} DaysBeforeYearGrows(a: int, b: int)
    requires a < b
    ensures DaysBeforeYear(a) + DaysInYear(a) <= DaysBeforeYear(b)
    decreases b - a
  {
    DaysBeforeYearStep(a);
    if a + 1 < b {
      DaysBeforeYearGrows(a + 1, b);
    }
  }

  /** Within a year, a valid date's position lies between 1 and the year's length. */
  lemma DayOfYearBounds(d: Date)
    requires ValidDate(d)
    ensures 1 <= DaysBeforeMonth(d.year, d.month) + d.day <= DaysInYear(d.year)
  {
  }

  lemma MonthsFollow(y: int, m: int)
    requires 1 <= m < 12
    ensures DaysBeforeMonth(y, m + 1) == DaysBeforeMonth(y, m) + DaysInMonth(y, m)
  {
  }

  lemma {:induction false} MonthsGrow(y: int, m1: int, m2: int)
    requires 1 <= m1 < m2 <= 12
    ensures DaysBeforeMonth(y, m1) + DaysInMonth(y, m1) <= DaysBeforeMonth(y, m2)
    decreases m2 - m1
  {
    MonthsFollow(y, m1);
    if m1 + 1 < m2 {
      MonthsGrow(y, m1 + 1, m2);
    }
  }

  /** A valid date's day number lies within its year. */
  lemma OrdinalInYear(d: Date)
    requires ValidDate(d)
    ensures DaysBeforeYear(d.year) + 1 <= Ordinal(d) <= DaysBeforeYear(d.year + 1)
  {
    DayOfYearBounds(d);
    DaysBeforeYearStep(d.year);
  }

  /** Day numbers follow the calendar order of dates. */
  lemma OrdinalMonotone(a: Date, b: Date)
    requires ValidDate(a) && ValidDate(b)
    requires DateBefore(a, b)
    ensures Ordinal(a) < Ordinal(b)
  {
    if a.year < b.year {
      OrdinalInYear(a);
      DaysBeforeYearGrows(a.year, b.year);
      DaysBeforeYearStep(a.year);
    } else if a.month < b.month {
      MonthsGrow(a.year, a.month, b.month);
    }
  }

  /** Comparing day numbers is comparing dates; in particular distinct valid
      dates have distinct day numbers. */
  lemma OrdinalOrder(a: Date, b: Date)
    requires ValidDate(a) && ValidDate(b)
    ensures Ordinal(a) < Ordinal(b) <==> DateBefore(a, b)
    ensures Ordinal(a) == Ordinal(b) <==> a == b
  {
    if DateBefore(a, b) {
      OrdinalMonotone(a, b);
    } else if DateBefore(b, a) {
      OrdinalMonotone(b, a);
    }
  }

  /** The day number of the next calendar day is one more. */
  lemma OrdinalOfNextDay(d: Date)
    requires ValidDate(d)
    ensures ValidDate(NextDay(d))
    ensures Ordinal(NextDay(d)) == Ordinal(d) + 1
  {
    if d.day < DaysInMonth(d.year, d.month) {
    } else if d.month < 12 {
      MonthsFollow(d.year, d.month);
    } else {
      DaysBeforeYearStep(d.year);
    }
  }

  /** Two valid dates are exactly one day apart iff the later is the day after
      the earlier. */
  lemma OneDayApart(a: Date, b: Date)
    requires ValidDate(a) && ValidDate(b)
    ensures Ordinal(b) - Ordinal(a) == 1 <==> b == NextDay(a)
  {
    OrdinalOfNextDay(a);
    OrdinalOrder(b, NextDay(a));
  }

  // ---------------------------------------------------------------------------
  // ISO weeks

  /** Week 1 starts on a Monday at most three days away from January 1st. */
  lemma Week1MondayNearNewYear(y: int)
    ensures Weekday(Week1Monday(y)) == 0
    ensures DaysBeforeYear(y) + 1 - 3 <= Week1Monday(y) <= DaysBeforeYear(y) + 1 + 3
  {
    MondayNearFirst(DaysBeforeYear(y) + 1);
  }

  lemma MondayNearFirst(first: int)
    ensures Weekday(MondayOfWeek1(first)) == 0
    ensures first - 3 <= MondayOfWeek1(first) <= first + 3
  {
  }

  /** Week 1 is the week that holds the year's first Thursday: the Thursday of
      the week that starts on Week1Monday(y) falls within January 1st to 7th. */
  lemma Week1HoldsFirstThursday(y: int)
    ensures Weekday(Week1Monday(y) + 3) == 3
    ensures DaysBeforeYear(y) + 1 <= Week1Monday(y) + 3 <= DaysBeforeYear(y) + 7
  {
    ThursdayNearFirst(DaysBeforeYear(y) + 1);
  }

  lemma ThursdayNearFirst(first: int)
    ensures Weekday(MondayOfWeek1(first) + 3) == 3
    ensures first <= MondayOfWeek1(first) + 3 <= first + 6
  {
    var monday := MondayOfWeek1(first);
    MondayNearFirst(first);
    var q := (monday + 6) / 7;
    assert monday + 6 == 7 * q;
    assert monday + 3 + 6 == 7 * q + 3;
  }

  /** An ISO year is 52 or 53 whole weeks long. */
  lemma IsoYearLength(y: int)
    ensures Week1Monday(y + 1) - Week1Monday(y) == 364 || Week1Monday(y + 1) - Week1Monday(y) == 371
  {
    DaysBeforeYearStep(y);
    MondaysAYearApart(DaysBeforeYear(y) + 1, DaysBeforeYear(y + 1) + 1);
  }

  lemma MondaysAYearApart(first: int, next: int)
    requires next - first == 365 || next - first == 366
    ensures MondayOfWeek1(next) - MondayOfWeek1(first) == 364 || MondayOfWeek1(next) - MondayOfWeek1(first) == 371
  {
    MondayNearFirst(first);
    MondayNearFirst(next);
  }

  lemma {:induction false} Week1MondayGrows(a: int, b: int)
    requires a < b
    ensures Week1Monday(a) + 364 <= Week1Monday(b)
    decreases b - a
  {
    IsoYearLength(a);
    if a + 1 < b {
      Week1MondayGrows(a + 1, b);
    }
  }

  /** The computed ISO week is the week that holds the date, and the ISO year
      it belongs to has begun by then and not yet ended. */
  lemma IsoCalendarHoldsDate(d: Date)
    requires ValidDate(d)
    ensures IsoCalendar(d).year >= 1
    ensures InIsoWeek(Ordinal(d), IsoCalendar(d))
    ensures 1 <= IsoCalendar(d).week <= WeeksInIsoYear(IsoCalendar(d).year) <= 53
  {
    IsoCalendarInWeek(d);
    IsoYearPositive(d);
    var iso := IsoCalendar(d);
    IsoYearLength(iso.year);
    WeekWithinYear(Week1Monday(iso.year), Week1Monday(iso.year + 1), Ordinal(d), iso.week);
  }

  lemma IsoCalendarInWeek(d: Date)
    requires ValidDate(d)
    ensures InIsoWeek(Ordinal(d), IsoCalendar(d))
  {
    DayWithinIsoYears(d);
    LocatedInIsoWeek(Ordinal(d), d.year);
  }

  /** IsoCalendar over a plain day number n that lies in calendar year y. */
  lemma LocatedInIsoWeek(n: int, y: int)
    requires Week1Monday(y - 1) <= n < Week1Monday(y + 1) + 7
    ensures InIsoWeek(n, IsoWeekOfDay(n, y))
  {
    var m0, m1, m2, m3 := Week1Monday(y - 1), Week1Monday(y), Week1Monday(y + 1), Week1Monday(y + 2);
    IsoYearLength(y - 1);
    IsoYearLength(y);
    IsoYearLength(y + 1);
    LocateWeekHolds(n, y, m0, m1, m2, m3);
    InIsoWeekOfNeighbour(n, y, LocateWeek(n, y, m0, m1, m2));
  }

  /** A week of ISO year y - 1, y or y + 1 that holds day n, stated over the
      Mondays that start those years, is an ISO week that holds n. */
  lemma InIsoWeekOfNeighbour(n: int, y: int, iso: IsoWeek)
    requires var m0, m1, m2, m3 := Week1Monday(y - 1), Week1Monday(y), Week1Monday(y + 1), Week1Monday(y + 2);
      1 <= iso.week &&
      (|| (iso.year == y - 1 && m0 + 7 * (iso.week - 1) <= n < m0 + 7 * iso.week && n < m1)
       || (iso.year == y && m1 + 7 * (iso.week - 1) <= n < m1 + 7 * iso.week && n < m2)
       || (iso.year == y + 1 && m2 + 7 * (iso.week - 1) <= n < m2 + 7 * iso.week && n < m3))
    ensures InIsoWeek(n, iso)
  {
  }

  /** Dates from year 1 on never fall in an ISO year before 1: week 1 of year 1
      starts on its first day. */
  lemma IsoYearPositive(d: Date)
    requires ValidDate(d)
    ensures IsoCalendar(d).year >= 1
  {
    if d.year == 1 {
      Week1MondayOfYearOne();
      OrdinalInYear(d);
      assert DaysBeforeYear(1) == 0;
    }
  }

  lemma Week1MondayOfYearOne()
    ensures Week1Monday(1) == 1
  {
  }

  lemma WeekWithinYear(monday: int, nextMonday: int, n: int, week: int)
    requires nextMonday - monday == 364 || nextMonday - monday == 371
    requires monday + 7 * (week - 1) <= n < nextMonday
    ensures week <= (nextMonday - monday) / 7 <= 53
  {
  }

  /** A date lies after the start of the previous ISO year and within a week
      of the start of the next one. */
  lemma DayWithinIsoYears(d: Date)
    requires ValidDate(d)
    ensures Week1Monday(d.year - 1) <= Ordinal(d) < Week1Monday(d.year + 1) + 7
  {
    OrdinalInYear(d);
    DaysBeforeYearStep(d.year - 1);
    Week1MondayNearNewYear(d.year - 1);
    Week1MondayNearNewYear(d.year + 1);
  }

  /** The arithmetic behind IsoCalendarHoldsDate, over plain day numbers: the
      four Mondays start consecutive ISO years, and day n lies in the ISO
      years they bound. */
  lemma LocateWeekHolds(n: int, y: int, m0: int, m1: int, m2: int, m3: int)
    requires m1 - m0 == 364 || m1 - m0 == 371
    requires m2 - m1 == 364 || m2 - m1 == 371
    requires m3 - m2 == 364 || m3 - m2 == 371
    requires m0 <= n < m2 + 7
    ensures var iso := LocateWeek(n, y, m0, m1, m2);
      1 <= iso.week &&
      (|| (iso.year == y - 1 && m0 + 7 * (iso.week - 1) <= n < m0 + 7 * iso.week && n < m1)
       || (iso.year == y && m1 + 7 * (iso.week - 1) <= n < m1 + 7 * iso.week && n < m2)
       || (iso.year == y + 1 && m2 + 7 * (iso.week - 1) <= n < m2 + 7 * iso.week && n < m3))
  {
  }

  /** No other week holds the date: InIsoWeek pins the ISO week date down. */
  lemma IsoWeekUnique(d: Date, iso: IsoWeek)
    requires ValidDate(d)
    requires InIsoWeek(Ordinal(d), iso)
    ensures iso == IsoCalendar(d)
  {
    IsoCalendarInWeek(d);
    WeekOfDayOrder(Ordinal(d), Ordinal(d), iso, IsoCalendar(d));
    WeekOfDayOrder(Ordinal(d), Ordinal(d), IsoCalendar(d), iso);
  }

  /** Later dates never fall in an earlier ISO week. */
  lemma IsoCalendarMonotone(a: Date, b: Date)
    requires ValidDate(a) && ValidDate(b)
    requires DateAtMost(a, b)
    ensures !WeekBefore(IsoCalendar(b), IsoCalendar(a))
  {
    OrdinalOrder(a, b);
    IsoCalendarInWeek(a);
    IsoCalendarInWeek(b);
    WeekOfDayOrder(Ordinal(a), Ordinal(b), IsoCalendar(a), IsoCalendar(b));
  }

  /** Over day numbers: the ISO weeks holding two days are in the days' order. */
  lemma WeekOfDayOrder(na: int, nb: int, a: IsoWeek, b: IsoWeek)
    requires na <= nb && InIsoWeek(na, a) && InIsoWeek(nb, b)
    ensures !WeekBefore(b, a)
  {
    if b.year < a.year {
      Week1MondayAtMost(b.year + 1, a.year);
    }
  }

  lemma Week1MondayAtMost(a: int, b: int)
    requires a <= b
    ensures Week1Monday(a) <= Week1Monday(b)
  {
    if a < b {
      Week1MondayGrows(a, b);
    }
  }

  /** Section 4.1.4 of ISO 8601:2004 gives some years 53 weeks: 2020-12-31 is
      in week 53 of 2020, and the next Monday, 2021-01-04, starts week 1 of 2021. */
  lemma FiftyThreeWeekYear()
    ensures IsoCalendar(Date(2020, 12, 31)) == IsoWeek(2020, 53)
    ensures IsoCalendar(Date(2021, 1, 4)) == IsoWeek(2021, 1)
    ensures Ordinal(Date(2021, 1, 4)) - Ordinal(Date(2020, 12, 31)) == 4
  {
    Years2020To2022();
    IsoWeekUnique(Date(2020, 12, 31), IsoWeek(2020, 53));
    IsoWeekUnique(Date(2021, 1, 4), IsoWeek(2021, 1));
  }

  /** Where the years 2020 and 2021 and their ISO years begin. */
  lemma Years2020To2022()
    ensures DaysBeforeYear(2020) == 737424 && DaysBeforeYear(2021) == 737790
    ensures Week1Monday(2020) == 737423 && Week1Monday(2021) == 737794 && Week1Monday(2022) == 738158
  {
    DaysBeforeYearClosedForm(2020);
    DaysBeforeYearClosedForm(2021);
    DaysBeforeYearClosedForm(2022);
  }
}
