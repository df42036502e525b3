/** The streak calculator on concrete completions: the repository's own test
    cases, and the cases where the calculator as written departs from a
    plain count of consecutive days or weeks. */
module StreakExamples {
  import opened Outcomes
  import opened Calendar
  import opened Timestamp
  import opened Sorting
  import opened Runs
  import opened Streak

  /** Any reordering of valid dates is valid. */
  lemma PermutationKeepsValid(a: seq<Date>, b: seq<Date>)
    requires AllValid(a) && multiset(a) == multiset(b)
    ensures AllValid(b) && |b| == |a|
  {
    assert |b| == |multiset(b)| == |multiset(a)| == |a|;
    forall d | d in b
      ensures ValidDate(d)
    {
      assert d in multiset(b);
    }
  }

  /* ---------------------------------------------------------------------- */
  /* Daily                                                                  */

  /** The dates of the "gaps" test in ascending order: 31 Jan twice, 1 Feb,
      2 Feb, 4 Feb, 5 Feb and 7 Feb 2025. */
  function GapsSorted(): seq<Date> {
    [Date(2025, 1, 31), Date(2025, 1, 31), Date(2025, 2, 1), Date(2025, 2, 2),
     Date(2025, 2, 4), Date(2025, 2, 5), Date(2025, 2, 7)]
  }

  /** The same dates in the order the test lists them. */
  function GapsAsListed(): seq<Date> {
    [Date(2025, 1, 31), Date(2025, 1, 31), Date(2025, 2, 1), Date(2025, 2, 2),
     Date(2025, 2, 5), Date(2025, 2, 4), Date(2025, 2, 7)]
  }

  lemma GapsAsListedIsReordering()
    ensures multiset(GapsAsListed()) == multiset(GapsSorted())
  {
  }

  /** The daily loop over the sorted "gaps" dates: the repeated 31 January
      closes a run of one, 31 Jan - 2 Feb is a run of three, 4-5 Feb a run
      of two. */
  lemma GapsScan()
    ensures ScanPrefix(GapsSorted(), DayAfter, 7) == Tally(1, 3)
  {
  }

  lemma {:induction false} GapsSortedStreak(s: seq<Date>)
    requires s == GapsSorted()
    ensures AllValid(s) && StreakOfDates(s, Daily) == 3
  {
    StreakOfSortedDates(s, Daily);
    GapsScan();
  }

  /** The "gaps" test: the longest daily streak of those seven completions,
      in whatever order they are listed, is 3. */
  lemma GapsTestIsThree(given: seq<Date>)
    requires multiset(given) == multiset(GapsSorted())
    ensures AllValid(given) && |given| == 7
    ensures StreakOfDates(given, Daily) == 3
  {
    var s := GapsSorted();
    GapsSortedStreak(s);
    PermutationKeepsValid(s, given);
    StreakIgnoresOrder(s, given, Daily);
  }

  /** 1, 2, 2 and 3 February 2025: three consecutive days, the middle one twice. */
  function RepeatInside(): seq<Date> {
    [Date(2025, 2, 1), Date(2025, 2, 2), Date(2025, 2, 2), Date(2025, 2, 3)]
  }

  /** 1, 1, 2 and 3 February 2025: the same days, the first one twice. */
  function RepeatFirst(): seq<Date> {
    [Date(2025, 2, 1), Date(2025, 2, 1), Date(2025, 2, 2), Date(2025, 2, 3)]
  }

  lemma RepeatInsideScan()
    ensures Close(ScanDates(RepeatInside(), Daily)) == 2
  {
  }

  lemma RepeatFirstScan()
    ensures Close(ScanDates(RepeatFirst(), Daily)) == 3
  {
  }

  /** A repeated day ends a run just like a missing day: with the middle day
      repeated, three consecutive days count only 2. */
  lemma RepeatedDayInsideRun()
    ensures AllValid(RepeatInside()) && StreakOfDates(RepeatInside(), Daily) == 2
  {
    StreakOfSortedDates(RepeatInside(), Daily);
    RepeatInsideScan();
  }

  /** Repeating the first of the three days merely closes a run of one, and
      they count 3. The "gaps" test reaches 3 only because its repeated day
      comes first. */
  lemma RepeatedDayBeforeRun()
    ensures AllValid(RepeatFirst()) && StreakOfDates(RepeatFirst(), Daily) == 3
  {
    StreakOfSortedDates(RepeatFirst(), Daily);
    RepeatFirstScan();
  }

  /* ---------------------------------------------------------------------- */
  /* Weekly                                                                 */

  /** Where the years 2024 and 2025 and their ISO week 1 begin. */
  lemma Year2024()
    ensures DaysBeforeYear(2024) == 738885
    ensures Week1Monday(2024) == 738886 && Week1Monday(2025) == 739250
  {
    DaysBeforeYearClosedForm(2024);
    DaysBeforeYearClosedForm(2025);
  }

  /** The dates of the weekly test in ascending order: 8, 9, 16 and
      25 January, 5 and 6 February 2024. */
  function WeeklySorted(): seq<Date> {
    [Date(2024, 1, 8), Date(2024, 1, 9), Date(2024, 1, 16), Date(2024, 1, 25),
     Date(2024, 2, 5), Date(2024, 2, 6)]
  }

  /** Their ISO weeks: 2, 2, 3, 4, 6 and 6 of 2024 (1 January 2024 is a Monday). */
  function WeeklySortedWeeks(): seq<IsoWeek> {
    [IsoWeek(2024, 2), IsoWeek(2024, 2), IsoWeek(2024, 3), IsoWeek(2024, 4),
     IsoWeek(2024, 6), IsoWeek(2024, 6)]
  }

  lemma WeeklyTestWeek(i: int)
    requires 0 <= i < 6
    ensures IsoCalendar(WeeklySorted()[i]) == WeeklySortedWeeks()[i]
  {
    Year2024();
    IsoWeekUnique(WeeklySorted()[i], WeeklySortedWeeks()[i]);
  }

  lemma WeeklyTestWeeks()
    ensures AllValid(WeeklySorted()) && Weeks(WeeklySorted()) == WeeklySortedWeeks()
  {
    forall i | 0 <= i < 6
      ensures IsoCalendar(WeeklySorted()[i]) == WeeklySortedWeeks()[i]
    {
      WeeklyTestWeek(i);
    }
  }

  /** The weekly loop over those weeks: the second completion of week 2 and
      of week 6 are skipped, weeks 2-4 form a run of three, week 5 is missing. */
  lemma WeeklyTestScan()
    ensures AllValid(WeeklySorted())
    ensures Close(ScanDates(WeeklySorted(), Weekly)) == 3
  {
    WeeklyTestWeeks();
    assert WeeklyScanPrefix(WeeklySortedWeeks(), 6).tally == Tally(1, 3);
  }

  lemma WeeklySortedStreak()
    ensures AllValid(WeeklySorted()) && StreakOfDates(WeeklySorted(), Weekly) == 3
  {
    StreakOfSortedDates(WeeklySorted(), Weekly);
    WeeklyTestScan();
  }

  /** The weekly test: those six completions, in whatever order they are
      listed, give a streak of 3 weeks. */
  lemma WeeklyTestIsThree(given: seq<Date>)
    requires multiset(given) == multiset(WeeklySorted())
    ensures AllValid(given) && |given| == 6
    ensures StreakOfDates(given, Weekly) == 3
  {
    var s := WeeklySorted();
    WeeklySortedStreak();
    PermutationKeepsValid(s, given);
    StreakIgnoresOrder(s, given, Weekly);
  }

  /** The order the test lists them in is one of those orders. */
  lemma WeeklyAsListedIsReordering()
    ensures multiset([Date(2024, 1, 8), Date(2024, 1, 9), Date(2024, 1, 16), Date(2024, 2, 5),
                      Date(2024, 1, 25), Date(2024, 2, 6)]) == multiset(WeeklySorted())
  {
  }

  /** Thursday 31 December 2020 and Monday 4 January 2021. */
  function AcrossWeek53(): seq<Date> {
    [Date(2020, 12, 31), Date(2021, 1, 4)]
  }

  lemma AcrossWeek53Weeks()
    ensures AllValid(AcrossWeek53())
    ensures IsoCalendar(AcrossWeek53()[0]) == IsoWeek(2020, 53)
    ensures IsoCalendar(AcrossWeek53()[1]) == IsoWeek(2021, 1)
  {
    Years2020To2022();
    IsoWeekUnique(Date(2020, 12, 31), IsoWeek(2020, 53));
    IsoWeekUnique(Date(2021, 1, 4), IsoWeek(2021, 1));
  }

  lemma AcrossWeek53Scan()
    ensures AllValid(AcrossWeek53())
    ensures Close(ScanDates(AcrossWeek53(), Weekly)) == 1
  {
    AcrossWeek53Weeks();
    TwoDatesWeekly(AcrossWeek53());
  }

  lemma AcrossWeek53Streak()
    ensures AllValid(AcrossWeek53()) && StreakOfDates(AcrossWeek53(), Weekly) == 1
  {
    StreakOfSortedDates(AcrossWeek53(), Weekly);
    AcrossWeek53Scan();
  }

  /** The weekly loop over two dates: 2 when the second date's week comes
      after the first's and follows it, 1 otherwise. */
  lemma TwoDatesWeekly(ds: seq<Date>)
    requires |ds| == 2 && AllValid(ds)
    ensures var a, b := IsoCalendar(ds[0]), IsoCalendar(ds[1]);
      Close(ScanDates(ds, Weekly)) == if WeekBefore(a, b) && FollowsWeek(a, b) then 2 else 1
  {
    var ws := Weeks(ds);
    assert ws[0] == IsoCalendar(ds[0]) && ws[1] == IsoCalendar(ds[1]);
    assert ScanDates(ds, Weekly) == WeeklyScanPrefix(ws, 2).tally;
    assert WeeklyScanPrefix(ws, 1) == WeekScan(ws[0], Tally(1, 1));
  }

  /** ISO year 2020 has 53 weeks: 31 December 2020 is in week 53 and 4 January
      2021, four days later, in week 1 of 2021. The weeks are adjacent, yet the
      weekly test only accepts week 52 before week 1, so the streak is 1. */
  lemma Week53ThenWeek1Breaks()
    ensures AllValid(AcrossWeek53())
    ensures IsoCalendar(AcrossWeek53()[0]) == IsoWeek(2020, 53)
    ensures IsoCalendar(AcrossWeek53()[1]) == IsoWeek(2021, 1)
    ensures StreakOfDates(AcrossWeek53(), Weekly) == 1
  {
    AcrossWeek53Weeks();
    AcrossWeek53Streak();
  }

  /** Where ISO weeks 52 of 2021 and 1 of 2023 begin. */
  lemma Years2021To2024()
    ensures Week1Monday(2021) == 737794 && Week1Monday(2022) == 738158
    ensures Week1Monday(2023) == 738522 && Week1Monday(2024) == 738886
    ensures DaysBeforeYear(2021) == 737790 && DaysBeforeYear(2023) == 738520
  {
    DaysBeforeYearClosedForm(2021);
    DaysBeforeYearClosedForm(2022);
    DaysBeforeYearClosedForm(2023);
    DaysBeforeYearClosedForm(2024);
  }

  /** Monday 27 December 2021 and Monday 2 January 2023. */
  function AcrossYear2022(): seq<Date> {
    [Date(2021, 12, 27), Date(2023, 1, 2)]
  }

  lemma AcrossYear2022Weeks()
    ensures AllValid(AcrossYear2022())
    ensures IsoCalendar(AcrossYear2022()[0]) == IsoWeek(2021, 52)
    ensures IsoCalendar(AcrossYear2022()[1]) == IsoWeek(2023, 1)
  {
    Years2021To2024();
    IsoWeekUnique(Date(2021, 12, 27), IsoWeek(2021, 52));
    IsoWeekUnique(Date(2023, 1, 2), IsoWeek(2023, 1));
  }

  lemma AcrossYear2022Scan()
    ensures AllValid(AcrossYear2022())
    ensures Close(ScanDates(AcrossYear2022(), Weekly)) == 2
  {
    AcrossYear2022Weeks();
    TwoDatesWeekly(AcrossYear2022());
  }

  lemma AcrossYear2022Streak()
    ensures AllValid(AcrossYear2022()) && StreakOfDates(AcrossYear2022(), Weekly) == 2
  {
    StreakOfSortedDates(AcrossYear2022(), Weekly);
    AcrossYear2022Scan();
  }

  /** 27 December 2021 is in week 52 of 2021 and 2 January 2023 in week 1 of
      2023: a whole ISO year lies between them, yet the weekly test counts
      them as consecutive weeks and the streak is 2. */
  lemma Week52ThenWeek1YearsLater()
    ensures AllValid(AcrossYear2022())
    ensures IsoCalendar(AcrossYear2022()[0]) == IsoWeek(2021, 52)
    ensures IsoCalendar(AcrossYear2022()[1]) == IsoWeek(2023, 1)
    ensures StreakOfDates(AcrossYear2022(), Weekly) == 2
  {
    AcrossYear2022Weeks();
    AcrossYear2022Streak();
  }

  /* ---------------------------------------------------------------------- */
  /* The two tests on the texts they pass                                   */

  /** The texts the store holds for the given timestamps. */
  function Written(times: seq<DateTime>): (r: seq<string>)
    requires forall i :: 0 <= i < |times| ==> ValidDateTime(times[i])
    ensures |r| == |times| && forall i :: 0 <= i < |times| ==> r[i] == Format(times[i])
  {
    seq(|times|, i requires 0 <= i < |times| => Format(times[i]))
  }

  /** The calendar dates of the given timestamps. */
  function DatesOf(times: seq<DateTime>): (r: seq<Date>)
    ensures |r| == |times| && forall i :: 0 <= i < |times| ==> r[i] == times[i].date
  {
    seq(|times|, i requires 0 <= i < |times| => times[i].date)
  }

  /** The calculator on the texts the store holds for whole-second
      timestamps is the streak of their dates: the time of day plays no
      part. */
  lemma StreakOfWritten(times: seq<DateTime>, periodicity: string)
    requires |times| > 0
    requires forall i :: 0 <= i < |times| ==>
      ValidDateTime(times[i]) && times[i].date.year < 10000 && times[i].microsecond == 0
    ensures CalculateStreak(Written(times), periodicity) == Ok(StreakOfDates(DatesOf(times), periodicity))
  {
    var texts := Written(times);
    forall i | 0 <= i < |times|
      ensures Parse(texts[i]) == Ok(times[i])
    {
      ParseOfFormat(times[i]);
    }
    assert MapSeq(DateOf, texts) == DatesOf(times);
  }

  /** The "gaps" test on completion texts: whole-second completions on the
      test's days, in its order and at any hours (the test mixes 07:00 and
      09:00 on 31 January), give a daily streak of 3. */
  lemma GapsTestTexts(times: seq<DateTime>)
    requires forall i :: 0 <= i < |times| ==>
      ValidDateTime(times[i]) && times[i].date.year < 10000 && times[i].microsecond == 0
    requires DatesOf(times) == GapsAsListed()
    ensures CalculateStreak(Written(times), Daily) == Ok(3)
  {
    StreakOfWritten(times, Daily);
    GapsAsListedIsReordering();
    GapsTestIsThree(GapsAsListed());
  }

  /** The weekly test on completion texts: whole-second completions on the
      test's days, in its order and at any hours, give a weekly streak of 3. */
  lemma WeeklyTestTexts(times: seq<DateTime>)
    requires forall i :: 0 <= i < |times| ==>
      ValidDateTime(times[i]) && times[i].date.year < 10000 && times[i].microsecond == 0
    requires DatesOf(times) == [Date(2024, 1, 8), Date(2024, 1, 9), Date(2024, 1, 16), Date(2024, 2, 5),
                                Date(2024, 1, 25), Date(2024, 2, 6)]
    ensures CalculateStreak(Written(times), Weekly) == Ok(3)
  {
    StreakOfWritten(times, Weekly);
    WeeklyAsListedIsReordering();
    WeeklyTestIsThree(DatesOf(times));
  }
}
