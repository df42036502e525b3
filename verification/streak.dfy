/** The streak calculator (`Analytics._calculate_streak`): parse every
    completion text to a calendar date, sort the dates, scan them once for
    runs of consecutive days or consecutive ISO weeks, and report the longest
    run. It follows the calculator as written, including the places where
    it differs from the ideal streak: repeated days are not merged, and the
    year-boundary test of the weekly branch is tied to week 52. Texts are
    read in their zero-padded form only. */
module Streak {
  import opened Outcomes
  import opened Calendar
  import opened Timestamp
  import opened Sorting
  import opened Runs

  const Daily := "daily"
  const Weekly := "weekly"

  predicate AllValid(dates: seq<Date>) {
    forall d :: d in dates ==> ValidDate(d)
  }

  /* ---------------------------------------------------------------------- */
  /* Parsing                                                                */

  /** The calendar date of a completion text (the time of day is dropped).
      Texts that do not parse never reach the scan, so the value given to
      them is immaterial. */
  function DateOf(s: string): Date {
    match Parse(s)
    case Ok(t) => t.date
    case Err(_) => Date(1, 1, 1)
  }

  /** rows[i] is the first completion text that does not parse. */
  predicate FirstMalformed(rows: seq<string>, i: int) {
    && 0 <= i < |rows|
    && Parse(rows[i]).Err?
    && forall k :: 0 <= k < i ==> Parse(rows[k]).Ok?
  }

  /** Every completion text as a date, in the given order; the conversion
      runs front to back, so the first text that does not parse is the one
      reported. */
  function ParseDates(rows: seq<string>): (r: Result<seq<Date>>)
    ensures r.Ok? <==> forall i :: 0 <= i < |rows| ==> Parse(rows[i]).Ok?
    ensures r.Ok? ==> r.value == MapSeq(DateOf, rows) && AllValid(r.value)
    ensures r.Err? ==> exists i :: FirstMalformed(rows, i) && r.error == MalformedTimestamp(rows[i])
  {
    if |rows| == 0 then Ok([])
    else match Parse(rows[0])
      case Err(e) =>
        assert FirstMalformed(rows, 0);
        Err(e)
      case Ok(t) =>
        match ParseDates(rows[1..])
        case Err(e) =>
          var i :| FirstMalformed(rows[1..], i) && e == MalformedTimestamp(rows[1..][i]);
          FirstMalformedAfterFirst(rows, i);
          Err(e)
        case Ok(ds) =>
          AllParseAfterFirst(rows);
          MapAfterFirst(rows, ds);
          Ok([t.date] + ds)
  }

  /** A text that parses, followed by texts whose first failure is at i,
      gives texts whose first failure is at i + 1. */
  lemma FirstMalformedAfterFirst(rows: seq<string>, i: int)
    requires |rows| > 0 && Parse(rows[0]).Ok? && FirstMalformed(rows[1..], i)
    ensures FirstMalformed(rows, i + 1) && rows[i + 1] == rows[1..][i]
  {
    forall k | 0 <= k < i + 1
      ensures Parse(rows[k]).Ok?
    {
      if k > 0 {
        assert rows[k] == rows[1..][k - 1];
      }
    }
  }

  /** A text that parses, followed by texts that all parse. */
  lemma AllParseAfterFirst(rows: seq<string>)
    requires |rows| > 0 && Parse(rows[0]).Ok?
    requires forall i :: 0 <= i < |rows| - 1 ==> Parse(rows[1..][i]).Ok?
    ensures forall i :: 0 <= i < |rows| ==> Parse(rows[i]).Ok?
  {
    forall i | 0 <= i < |rows|
      ensures Parse(rows[i]).Ok?
    {
      if i > 0 {
        assert rows[i] == rows[1..][i - 1];
      }
    }
  }

  /** The dates of the first text and of the rest are the dates of all texts. */
  lemma MapAfterFirst(rows: seq<string>, ds: seq<Date>)
    requires |rows| > 0 && Parse(rows[0]).Ok?
    requires ds == MapSeq(DateOf, rows[1..]) && AllValid(ds)
    ensures [Parse(rows[0]).value.date] + ds == MapSeq(DateOf, rows)
    ensures AllValid([Parse(rows[0]).value.date] + ds)
  {
    var all := [Parse(rows[0]).value.date] + ds;
    var m := MapSeq(DateOf, rows);
    forall i | 0 <= i < |rows|
      ensures all[i] == m[i]
    {
      if i > 0 {
        assert all[i] == ds[i - 1];
      }
    }
    ConsValid(Parse(rows[0]).value.date, ds);
  }

  lemma ConsValid(d: Date, ds: seq<Date>)
    requires ValidDate(d) && AllValid(ds)
    ensures AllValid([d] + ds)
  {
  }

  /* ---------------------------------------------------------------------- */
  /* The daily branch                                                       */

  /** The daily continuation test: b is exactly one day after a, measured as
      the difference of their day numbers. */
  predicate DayAfter(a: Date, b: Date) {
    ValidDate(a) && ValidDate(b) && Ordinal(b) - Ordinal(a) == 1
  }

  /** The day-number test is the calendar's "next day". */
  lemma DayAfterIsNextDay(a: Date, b: Date)
    requires ValidDate(a) && ValidDate(b)
    ensures DayAfter(a, b) <==> b == NextDay(a)
  {
    OneDayApart(a, b);
  }

  /* ---------------------------------------------------------------------- */
  /* The weekly branch                                                      */

  /** The ISO week of every date. */
  function Weeks(dates: seq<Date>): (ws: seq<IsoWeek>)
    requires AllValid(dates)
    ensures |ws| == |dates| && forall i :: 0 <= i < |dates| ==> ws[i] == IsoCalendar(dates[i])
  {
    seq(|dates|, i requires 0 <= i < |dates| => IsoCalendar(dates[i]))
  }

  /** The weekly continuation test as the calculator writes it: the next week
      of the same ISO year, or week 1 of any later ISO year after week 52. */
  predicate FollowsWeek(last: IsoWeek, w: IsoWeek) {
    || (w.year == last.year && w.week == last.week + 1)
    || (w.year > last.year && last.week == 52 && w.week == 1)
  }

  /** The weekly loop's state: the last recorded week and the counters. */
  datatype WeekScan = WeekScan(last: IsoWeek, tally: Tally)

  /** The weekly loop after the first n weeks: a week is looked at only when
      it comes strictly after the last recorded one, and then it is recorded. */
  function WeeklyScanPrefix(ws: seq<IsoWeek>, n: nat): (s: WeekScan)
    requires 1 <= n <= |ws|
    ensures 1 <= s.tally.current <= n && 1 <= s.tally.best <= n
  {
    if n == 1 then WeekScan(ws[0], Tally(1, 1))
    else
      var s := WeeklyScanPrefix(ws, n - 1);
      var w := ws[n - 1];
      if WeekBefore(s.last, w) then WeekScan(w, Step(s.tally, FollowsWeek(s.last, w))) else s
  }

  /** The weeks the weekly loop records among the first n, in order. */
  function Recorded(ws: seq<IsoWeek>, n: nat): (r: seq<IsoWeek>)
    requires 1 <= n <= |ws|
    ensures 1 <= |r| <= n
  {
    if n == 1 then [ws[0]]
    else
      var r := Recorded(ws, n - 1);
      if WeekBefore(r[|r| - 1], ws[n - 1]) then r + [ws[n - 1]] else r
  }

  /** The weekly loop is the generic run scan over the weeks it records:
      skipped weeks leave no trace in the counters. */
  lemma {:induction false} WeeklyScanRunsOverRecorded(ws: seq<IsoWeek>, n: nat)
    requires 1 <= n <= |ws|
    ensures var r := Recorded(ws, n);
      && WeeklyScanPrefix(ws, n).last == r[|r| - 1]
      && WeeklyScanPrefix(ws, n).tally == ScanPrefix(r, FollowsWeek, |r|)
    decreases n
  {
    if n > 1 {
      WeeklyScanRunsOverRecorded(ws, n - 1);
      WeeklyScanStep(ws, n);
    }
  }

  /** One more week keeps the weekly loop in step with the generic scan. */
  lemma WeeklyScanStep(ws: seq<IsoWeek>, n: nat)
    requires 2 <= n <= |ws|
    requires var r := Recorded(ws, n - 1);
      && WeeklyScanPrefix(ws, n - 1).last == r[|r| - 1]
      && WeeklyScanPrefix(ws, n - 1).tally == ScanPrefix(r, FollowsWeek, |r|)
    ensures var r := Recorded(ws, n);
      && WeeklyScanPrefix(ws, n).last == r[|r| - 1]
      && WeeklyScanPrefix(ws, n).tally == ScanPrefix(r, FollowsWeek, |r|)
  {
    var r := Recorded(ws, n - 1);
    var w := ws[n - 1];
    if WeekBefore(r[|r| - 1], w) {
      var r' := r + [w];
      ScanPrefixOfExtension(r, [w], FollowsWeek, |r|);
      assert r'[|r| - 1] == r[|r| - 1] && r'[|r|] == w;
      assert ScanPrefix(r', FollowsWeek, |r'|) == Step(ScanPrefix(r, FollowsWeek, |r|), FollowsWeek(r[|r| - 1], w));
    }
  }

  /** Weeks in non-decreasing order, as the weeks of sorted dates are. */
  predicate WeeksAscending(ws: seq<IsoWeek>) {
    forall i, j :: 0 <= i < j < |ws| ==> !WeekBefore(ws[j], ws[i])
  }

  /** Weeks in strictly increasing order: no week twice. */
  predicate WeeksStrictlyAscending(ws: seq<IsoWeek>) {
    forall i, j :: 0 <= i < j < |ws| ==> WeekBefore(ws[i], ws[j])
  }

  /** On ascending weeks the loop records each distinct week once, in
      increasing order, ending with the last week seen. */
  lemma {:induction false} RecordedOfAscending(ws: seq<IsoWeek>, n: nat)
    requires 1 <= n <= |ws| && WeeksAscending(ws)
    ensures var r := Recorded(ws, n);
      && WeeksStrictlyAscending(r)
      && r[|r| - 1] == ws[n - 1]
      && forall x :: x in r <==> x in ws[..n]
    decreases n
  {
    if n == 1 {
      assert ws[..1] == [ws[0]];
    } else {
      RecordedOfAscending(ws, n - 1);
      RecordedStep(ws, n);
    }
  }

  /** One more week of an ascending sequence: recorded when it is new, and
      otherwise equal to the last recorded one. */
  lemma RecordedStep(ws: seq<IsoWeek>, n: nat)
    requires 2 <= n <= |ws| && WeeksAscending(ws)
    requires var r := Recorded(ws, n - 1);
      && WeeksStrictlyAscending(r)
      && r[|r| - 1] == ws[n - 2]
      && forall x :: x in r <==> x in ws[..n - 1]
    ensures var r := Recorded(ws, n);
      && WeeksStrictlyAscending(r)
      && r[|r| - 1] == ws[n - 1]
      && forall x :: x in r <==> x in ws[..n]
  {
    var r := Recorded(ws, n - 1);
    var w := ws[n - 1];
    assert ws[..n] == ws[..n - 1] + [w];
    assert !WeekBefore(w, ws[n - 2]);
    if WeekBefore(r[|r| - 1], w) {
      AppendStrictlyAscending(r, w);
    } else {
      assert w == ws[n - 2];
    }
  }

  /** Appending a week after the last keeps weeks strictly ascending. */
  lemma AppendStrictlyAscending(r: seq<IsoWeek>, w: IsoWeek)
    requires |r| > 0 && WeeksStrictlyAscending(r) && WeekBefore(r[|r| - 1], w)
    ensures WeeksStrictlyAscending(r + [w])
  {
    var s := r + [w];
    forall i, j | 0 <= i < j < |s|
      ensures WeekBefore(s[i], s[j])
    {
      assert s[i] == r[i];
      if j < |r| {
        assert s[j] == r[j];
      } else if i < |r| - 1 {
        assert WeekBefore(r[i], r[|r| - 1]);
      }
    }
  }

  /** Two strictly ascending week sequences with the same elements are equal. */
  lemma {:induction false} StrictlyAscendingUnique(a: seq<IsoWeek>, b: seq<IsoWeek>)
    requires WeeksStrictlyAscending(a) && WeeksStrictlyAscending(b)
    requires forall x :: x in a <==> x in b
    ensures a == b
    decreases |a|
  {
    FirstIsElement(a);
    FirstIsElement(b);
    if |a| == 0 {
      assert |b| == 0;
    } else {
      var i :| 0 <= i < |b| && b[i] == a[0];
      var j :| 0 <= j < |a| && a[j] == b[0];
      assert a[0] == b[0];
      forall x
        ensures x in a[1..] <==> x in b[1..]
      {
        if x in a[1..] {
          var k :| 1 <= k < |a| && a[k] == x;
          assert x != a[0];
          assert x in b;
        }
        if x in b[1..] {
          var k :| 1 <= k < |b| && b[k] == x;
          assert x != b[0];
          assert x in a;
        }
      }
      StrictlyAscendingUnique(a[1..], b[1..]);
      assert a == [a[0]] + a[1..];
      assert b == [b[0]] + b[1..];
    }
  }

  /* ---------------------------------------------------------------------- */
  /* The calculator                                                         */

  /** Sorting keeps every date, so it keeps every date valid. */
  lemma SortKeepsValid(dates: seq<Date>)
    requires AllValid(dates)
    ensures AllValid(Sort(dates))
  {
    forall d | d in Sort(dates)
      ensures ValidDate(d)
    {
      assert d in multiset(Sort(dates));
    }
  }

  /** The loop over the sorted dates, for the branch `periodicity` selects;
      any other periodicity runs no loop at all. */
  function ScanDates(sorted: seq<Date>, periodicity: string): (t: Tally)
    requires |sorted| > 0 && AllValid(sorted)
    ensures 1 <= t.current <= |sorted| && 1 <= t.best <= |sorted|
  {
    if periodicity == Daily then ScanPrefix(sorted, DayAfter, |sorted|)
    else if periodicity == Weekly then WeeklyScanPrefix(Weeks(sorted), |sorted|).tally
    else Tally(1, 1)
  }

  /** The streak of a non-empty list of parsed dates. */
  function StreakOfDates(dates: seq<Date>, periodicity: string): (n: nat)
    requires |dates| > 0 && AllValid(dates)
    ensures 1 <= n <= |dates|
    ensures periodicity != Daily && periodicity != Weekly ==> n == 1
  {
    SortKeepsValid(dates);
    Close(ScanDates(Sort(dates), periodicity))
  }

  /** Dates already in ascending order are scanned as given. */
  lemma StreakOfSortedDates(dates: seq<Date>, periodicity: string)
    requires |dates| > 0 && AllValid(dates) && Sorted(dates)
    ensures StreakOfDates(dates, periodicity) == Close(ScanDates(dates, periodicity))
  {
    SortOfSorted(dates);
  }

  /** `_calculate_streak`: 0 for no completions, the failure of the first
      text that does not parse, otherwise the streak of the parsed dates. */
  function CalculateStreak(rows: seq<string>, periodicity: string): (r: Result<nat>)
    ensures |rows| == 0 ==> r == Ok(0)
    ensures r.Ok? <==> forall i :: 0 <= i < |rows| ==> Parse(rows[i]).Ok?
    ensures r.Err? ==> exists i :: FirstMalformed(rows, i) && r.error == MalformedTimestamp(rows[i])
    ensures r.Ok? && |rows| > 0 ==> 1 <= r.value <= |rows|
    ensures r.Ok? && |rows| > 0 && periodicity != Daily && periodicity != Weekly ==> r.value == 1
  {
    if |rows| == 0 then Ok(0)
    else match ParseDates(rows)
      case Err(e) => Err(e)
      case Ok(dates) => Ok(StreakOfDates(dates, periodicity))
  }

  /* ---------------------------------------------------------------------- */
  /* What the calculator computes                                           */

  /** Daily: the streak is the length of a longest stretch of the sorted
      dates in which every date is exactly one day after the one before it.
      A repeated date is zero days after its twin, so it ends a stretch just
      as a missing day does. */
  lemma DailyStreakIsLongestRun(dates: seq<Date>)
    requires |dates| > 0 && AllValid(dates)
    ensures IsLongestRun(Sort(dates), DayAfter, StreakOfDates(dates, Daily))
  {
    LongestRunIsLongest(Sort(dates), DayAfter);
  }

  /** The ISO weeks in which some date falls. */
  ghost function WeekSet(dates: seq<Date>): set<IsoWeek>
    requires AllValid(dates)
  {
    set d | d in dates :: IsoCalendar(d)
  }

  /** The weeks the weekly loop records for these dates. */
  function DistinctWeeks(dates: seq<Date>): (ws: seq<IsoWeek>)
    requires |dates| > 0 && AllValid(dates)
    ensures 1 <= |ws| <= |dates|
  {
    SortKeepsValid(dates);
    Recorded(Weeks(Sort(dates)), |dates|)
  }

  /** Sorted dates have ascending weeks. */
  lemma WeeksOfSortedAscending(s: seq<Date>)
    requires Sorted(s) && AllValid(s)
    ensures WeeksAscending(Weeks(s))
  {
    var ws := Weeks(s);
    forall i, j | 0 <= i < j < |ws|
      ensures !WeekBefore(ws[j], ws[i])
    {
      IsoCalendarMonotone(s[i], s[j]);
    }
  }

  /** The weeks of the sorted dates are the weeks of the dates. */
  lemma WeeksOfSortedAreWeekSet(dates: seq<Date>)
    requires AllValid(dates) && AllValid(Sort(dates))
    ensures forall w :: w in Weeks(Sort(dates)) <==> w in WeekSet(dates)
  {
    forall w
      ensures w in Weeks(Sort(dates)) <==> w in WeekSet(dates)
    {
      if w in Weeks(Sort(dates)) {
        SortedWeekInWeekSet(dates, w);
      }
      if w in WeekSet(dates) {
        WeekSetInSortedWeeks(dates, w);
      }
    }
  }

  lemma SortedWeekInWeekSet(dates: seq<Date>, w: IsoWeek)
    requires AllValid(dates) && AllValid(Sort(dates)) && w in Weeks(Sort(dates))
    ensures w in WeekSet(dates)
  {
    var s := Sort(dates);
    var ws := Weeks(s);
    var i :| 0 <= i < |s| && ws[i] == w;
    assert s[i] in multiset(s);
    assert s[i] in dates;
  }

  lemma WeekSetInSortedWeeks(dates: seq<Date>, w: IsoWeek)
    requires AllValid(dates) && AllValid(Sort(dates)) && w in WeekSet(dates)
    ensures w in Weeks(Sort(dates))
  {
    var s := Sort(dates);
    var ws := Weeks(s);
    var d :| d in dates && IsoCalendar(d) == w;
    assert d in multiset(s);
    var i :| 0 <= i < |s| && s[i] == d;
    assert ws[i] == w;
  }

  /** Weekly: the loop records every ISO week that holds a completion exactly
      once, in increasing order, and the streak is the length of a longest
      stretch of those weeks in which each follows the one before it in the
      calculator's sense (FollowsWeek). */
  lemma WeeklyStreakIsLongestRun(dates: seq<Date>)
    requires |dates| > 0 && AllValid(dates)
    ensures WeeksStrictlyAscending(DistinctWeeks(dates))
    ensures forall w :: w in DistinctWeeks(dates) <==> w in WeekSet(dates)
    ensures IsLongestRun(DistinctWeeks(dates), FollowsWeek, StreakOfDates(dates, Weekly))
  {
    var s := Sort(dates);
    SortKeepsValid(dates);
    var ws := Weeks(s);
    var n := |dates|;
    WeeksOfSortedAscending(s);
    RecordedOfAscending(ws, n);
    WeeklyScanRunsOverRecorded(ws, n);
    var r := Recorded(ws, n);
    assert ws[..n] == ws;
    WeeksOfSortedAreWeekSet(dates);
    LongestRunIsLongest(r, FollowsWeek);
  }

  /** Weekly: only the set of ISO weeks with a completion matters. */
  lemma WeeklyStreakDependsOnWeeksOnly(a: seq<Date>, b: seq<Date>)
    requires |a| > 0 && AllValid(a) && |b| > 0 && AllValid(b)
    requires WeekSet(a) == WeekSet(b)
    ensures StreakOfDates(a, Weekly) == StreakOfDates(b, Weekly)
  {
    WeeklyStreakIsLongestRun(a);
    WeeklyStreakIsLongestRun(b);
    StrictlyAscendingUnique(DistinctWeeks(a), DistinctWeeks(b));
    LongestRunUnique(DistinctWeeks(a), FollowsWeek, StreakOfDates(a, Weekly), StreakOfDates(b, Weekly));
  }

  /** Weekly: one more completion in a week that already has one changes nothing. */
  lemma SameWeekCompletionIgnored(dates: seq<Date>, d: Date)
    requires |dates| > 0 && AllValid(dates) && ValidDate(d)
    requires exists e :: e in dates && IsoCalendar(e) == IsoCalendar(d)
    ensures AllValid(dates + [d])
    ensures StreakOfDates(dates + [d], Weekly) == StreakOfDates(dates, Weekly)
  {
    assert WeekSet(dates + [d]) == WeekSet(dates);
    WeeklyStreakDependsOnWeeksOnly(dates + [d], dates);
  }

  /** The input order never matters: the dates are sorted first. */
  lemma StreakIgnoresOrder(a: seq<Date>, b: seq<Date>, periodicity: string)
    requires |a| > 0 && AllValid(a) && AllValid(b)
    requires multiset(a) == multiset(b)
    ensures |b| > 0
    ensures StreakOfDates(a, periodicity) == StreakOfDates(b, periodicity)
  {
    assert |b| == |multiset(b)| == |multiset(a)| == |a|;
    SortPermutation(a, b);
  }

  /** Whether every text parses depends only on which texts there are. */
  lemma AllParseOfSameTexts(rows1: seq<string>, rows2: seq<string>)
    requires multiset(rows1) == multiset(rows2)
    ensures (forall i :: 0 <= i < |rows1| ==> Parse(rows1[i]).Ok?) ==> (forall i :: 0 <= i < |rows2| ==> Parse(rows2[i]).Ok?)
  {
    forall i | 0 <= i < |rows2| && (forall k :: 0 <= k < |rows1| ==> Parse(rows1[k]).Ok?)
      ensures Parse(rows2[i]).Ok?
    {
      assert rows2[i] in multiset(rows1);
    }
  }

  /** Permuting the completion texts changes neither whether the calculator
      fails nor the streak it reports. */
  lemma CalculateStreakIgnoresOrder(rows1: seq<string>, rows2: seq<string>, periodicity: string)
    requires multiset(rows1) == multiset(rows2)
    ensures CalculateStreak(rows1, periodicity).Ok? <==> CalculateStreak(rows2, periodicity).Ok?
    ensures CalculateStreak(rows1, periodicity).Ok? ==>
      CalculateStreak(rows1, periodicity).value == CalculateStreak(rows2, periodicity).value
  {
    assert |rows1| == |multiset(rows1)| == |multiset(rows2)| == |rows2|;
    AllParseOfSameTexts(rows1, rows2);
    AllParseOfSameTexts(rows2, rows1);
    if |rows1| > 0 && CalculateStreak(rows1, periodicity).Ok? {
      MapPermutation(DateOf, rows1, rows2);
      StreakIgnoresOrder(ParseDates(rows1).value, ParseDates(rows2).value, periodicity);
    }
  }
}
