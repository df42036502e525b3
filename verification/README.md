# Habit tracker: streaks and the habit registry

This project models the core of a small command-line habit tracker.
- The **habit registry** (`HabitManager`) creates habits, deletes them, and records completions of them.
- The **analytics facade** (`Analytics`) reports streaks.
  - A streak is the longest run of consecutive calendar days, for a `daily` habit, or of consecutive ISO weeks, for a `weekly` habit, in which the habit was completed.
  - The facade reports it for one habit or as the longest over all habits.

The SQLite database behind both is modelled as an immutable `Store`:
- the habits table, in insertion order;
- the completion table, whose rows each hold a habit id and the completion time as text: `YYYY-MM-DD HH:MM:SS`, followed by `.ffffff` when the time has a fraction of a second, as the database adapter writes a `datetime`;
- the autoincrement counter that hands out habit ids.

Every registry operation is a function from a store to `Result<Store>`. A `ValueError` of the source becomes an `Err` carrying an `Error` value. The analytics functions return `Result<nat>`, because the streak calculator fails on a completion text that does not parse.

Modules:
- `Outcomes` (outcomes.dfy) holds `Option`, `Result` and the error values.
- `Calendar` (calendar.dfy) holds proleptic Gregorian arithmetic as the source's date library does it.
  - Day numbers (`toordinal`) and the day after a date.
  - ISO 8601 week dates (`isocalendar`), as section 4.1.4 of ISO 8601:2004 defines them: week 1 of a year is the week holding its first Thursday.
  - The fact that an ISO year has 52 or 53 weeks.
- `Timestamp` (timestamp.dfy) reads and writes the stored completion text. On whole-second times, parsing and formatting are inverse to each other. The text written for a time with a fraction of a second does not parse.
- `Sorting` (sorting.dfy) holds the `dates.sort()` step. It is specified as the unique sorted permutation of its input.
- `Runs` (runs.dfy) holds the counting loop the calculator uses for both periodicities.
  - It works over any "linked to its predecessor" relation.
  - It is proved to return the length of a longest run.
- `Streak` (streak.dfy) holds `_calculate_streak`.
- `HabitManager` (habit_manager.dfy) holds the store, the registry operations and the store invariant they keep.
- `Analytics` (analytics.dfy) holds the two facade queries.
- `StreakExamples` and `HabitExamples` hold the scenarios of the project's tests and the edge cases described below, proved on concrete inputs.

## How the code behaves where the description of the program differs

The model follows the code throughout.

- **Duplicate days in a daily streak.** A daily streak does not merge completions made on the same day.
  - After sorting, two completions on one day are 0 days apart, so the run in progress ends there.
  - Completing a habit twice on a day inside a run therefore *shortens* the reported streak (`RepeatedDayInsideRun`).
  - A repeat on the first day of a run does not (`RepeatedDayBeforeRun`).
- **The year boundary in a weekly streak.** A weekly streak crosses a year boundary only from week 52.
  - A completion in week 53 of a 53-week ISO year followed by one in week 1 of the next year starts a new run (`Week53ThenWeek1Breaks`).
  - The test is only "later ISO year". So week 52 of 2021 followed by week 1 of 2023 still counts as consecutive (`Week52ThenWeek1YearsLater`).
  - Several completions in one ISO week count once (`SameWeekCompletionIgnored`).
- **Any other periodicity.** A periodicity other than `daily` or `weekly` is not an error. The calculator reports 1 for any non-empty list of completions.
- **A malformed completion text.** It makes the calculation fail at the first such text in row order. It is never skipped.
  - The model's error carries that text. This is a choice of the model: Python's `ValueError` quotes the text only when its shape does not match the format, not for an out-of-range field or trailing characters.
  - `get_longest_streak` fails on the first habit, in table order, whose calculation fails.
- **A completion time with a fraction of a second.** `mark_habit_completed` accepts any `datetime`.
  - The database adapter stores a time with a non-zero microsecond as `YYYY-MM-DD HH:MM:SS.ffffff`. The calculator's `strptime` refuses that text.
  - From then on the habit's streak and the longest streak over all habits fail (`FractionalMarkBreaksStreaks`).
  - Marking keeps every stored text readable exactly when the marked time is a whole second (`MarkKeepsValid`). On a store whose texts all read, neither query fails (`ValidStoreNeverFails`).
  - The command line always passes a whole-second time, because it parses the time with `%S` (main.py:50).
- **No habits, or no such habit.** With no habits the longest streak is 0. For an id no habit has, the longest streak for that habit is 0.
- **Row order.** Completion rows are fetched without an `ORDER BY`. Their order does not matter, because the calculator sorts the dates first (`CalculateStreakIgnoresOrder`).
- **The current time.** `datetime.now()` becomes a parameter `now`. It is compared with the completion time down to the microsecond.
  - The creation date of a habit becomes a parameter `today`.

## Model

| member | source | states |
|---|---|---|
| Streak.CalculateStreak | analytics.py:58-110 | 0 with no rows. Succeeds exactly when every row's text parses; otherwise the error names the first malformed text. A success lies between 1 and the number of rows, and is 1 for a periodicity other than daily or weekly |
| Streak.ParseDates | analytics.py:63 | succeeds exactly when every text parses, giving the rows' dates in row order, all valid; otherwise reports the first text that does not parse |
| Streak.StreakOfDates | analytics.py:66-110 | the streak of a non-empty date list lies between 1 and its length, and is 1 for an unknown periodicity |
| Streak.StreakOfSortedDates | analytics.py:66 | on dates already in order, the streak is the scan of the dates as given (sorting adds nothing) |
| Streak.DayAfterIsNextDay | analytics.py:75-78 | two dates are one day apart exactly when the second is the calendar day after the first |
| Streak.DailyStreakIsLongestRun | analytics.py:73-83 | the daily streak is the length of a longest run of sorted dates each one day after the previous; duplicates stay in the list |
| Streak.WeeklyScanRunsOverRecorded | analytics.py:90-104 | the weekly loop is the run count over the weeks it records: a week is recorded only when it is later than the last recorded one |
| Streak.RecordedOfAscending | analytics.py:95-104 | on weeks in ascending order the recorded weeks are strictly ascending, end with the latest week, and are exactly the weeks that occur |
| Streak.StrictlyAscendingUnique | analytics.py:95-104 | two strictly ascending week lists with the same elements are equal |
| Streak.WeeklyStreakIsLongestRun | analytics.py:85-108 | the weekly streak is the length of a longest run of the distinct weeks in ascending order, where a week follows the previous one when it is the next week of the same year, or week 1 of a later year after week 52 |
| Streak.WeeklyStreakDependsOnWeeksOnly | analytics.py:85-104 | two date lists covering the same set of ISO weeks have the same weekly streak |
| Streak.SameWeekCompletionIgnored | analytics.py:95 | adding a date in a week already covered leaves the weekly streak unchanged |
| Streak.StreakIgnoresOrder | analytics.py:66 | two date lists that are permutations of each other have the same streak under every periodicity |
| Streak.CalculateStreakIgnoresOrder | analytics.py:63-66 | permuted rows succeed or fail together and give the same streak |
| Streak.SortKeepsValid | analytics.py:66 | sorting valid dates gives valid dates |
| Runs.LongestRun | analytics.py:69-108 | the scan of a non-empty sequence reports between 1 and its length |
| Runs.ScanPrefixInvariant | analytics.py:74-83 | after n elements, the loop's current count is the length of the maximal run ending at element n - 1. Its best count is the length of some run within those elements, and at least the length of every run that ends before the current run starts |
| Runs.LongestRunIsLongest | analytics.py:69-108 | the reported value is the length of some run of linked neighbours, and no run is longer |
| Runs.LongestRunUnique | analytics.py:108 | the longest-run length is a single value |
| Runs.ScanPrefixOfExtension | analytics.py:74 | the loop's counters after n elements do not depend on the elements after them |
| Runs.RunAfterBreak | analytics.py:80-83 | a run that reaches past a break starts no earlier than the break |
| Sorting.Sort | analytics.py:66 | the result is sorted, has the same length, and is a permutation of the input |
| Sorting.Insert | analytics.py:66 | inserting into a sorted list keeps it sorted and adds exactly that element |
| Sorting.SortedUnique | analytics.py:66 | two sorted permutations of each other are equal, so the sort's result is the only possible one |
| Sorting.SortPermutation | analytics.py:66 | inputs that are permutations of each other sort to the same list |
| Sorting.SortOfSorted | analytics.py:66 | a sorted list sorts to itself |
| Sorting.MapPermutation | analytics.py:63 | converting every element of two permutations gives two permutations |
| Timestamp.Parse | analytics.py:63 | a success is a valid date and time with a four-digit year and no fraction of a second; every failure carries the text |
| Timestamp.ParseOfFormat | db_manager.py:69-75 | every whole-second date and time with a four-digit year reads back unchanged from the text stored for it |
| Timestamp.FractionUnreadable | db_manager.py:69-75 | a time with a fraction of a second is stored in 26 characters, and that text does not parse |
| Timestamp.FormatReadable | analytics.py:63 | the stored text of a time parses exactly when the time is a whole second, and then gives the time back |
| Timestamp.FormatOfParse | analytics.py:63 | every text that parses is exactly the stored form of its value, so the parser accepts nothing else |
| Timestamp.DecimalOfZeroPadded | analytics.py:63 | a number written with leading zeros reads back as itself |
| Timestamp.ZeroPaddedOfDecimal | analytics.py:63 | a digit string is the zero-padded form of the number it denotes |
| Calendar.OrdinalOrder | analytics.py:75 | day numbers compare as dates do, and equal day numbers mean equal dates |
| Calendar.OrdinalOfNextDay | analytics.py:78 | the day after a valid date is valid, and its day number is one more |
| Calendar.OneDayApart | analytics.py:75-78 | day numbers differ by exactly one when the later date is the day after the earlier |
| Calendar.DaysBeforeYearClosedForm | analytics.py:75 | the days before year y are 365 per year plus the Gregorian leap days |
| Calendar.Week1HoldsFirstThursday | analytics.py:87 | week 1 of a year starts on a Monday, and its Thursday falls on 1 to 7 January |
| Calendar.IsoYearLength | analytics.py:96-97 | an ISO year is 52 or 53 whole weeks long |
| Calendar.IsoCalendarHoldsDate | analytics.py:87-92 | the computed ISO week holds the date, its year is at least 1, and its number lies between 1 and the number of weeks of that ISO year |
| Calendar.IsoWeekUnique | analytics.py:87-92 | no other ISO week holds the date |
| Calendar.IsoCalendarMonotone | analytics.py:95 | a later date never falls in an earlier ISO week |
| Calendar.FiftyThreeWeekYear | analytics.py:96-97 | 2020-12-31 lies in week 53 of 2020, and 2021-01-04, four days later, in week 1 of 2021 |
| StreakExamples.GapsTestIsThree | test_habit_tracker.py:279-299 | the daily test list, in any order, has a streak of 3 |
| StreakExamples.WeeklyTestIsThree | test_habit_tracker.py:305-322 | the weekly test list, in any order, has a streak of 3 |
| StreakExamples.StreakOfWritten | analytics.py:63-66 | on the stored texts of whole-second times, the calculator gives the streak of their dates: the time of day plays no part |
| StreakExamples.GapsTestTexts | test_habit_tracker.py:279-299 | the calculator on the stored texts of times on the daily test's days, in its order and at any hours, gives 3 |
| StreakExamples.WeeklyTestTexts | test_habit_tracker.py:305-322 | the calculator on the stored texts of times on the weekly test's days, in its order and at any hours, gives 3 |
| StreakExamples.RepeatedDayInsideRun | analytics.py:78-83 | 1, 2, 2 and 3 February give a daily streak of 2, not 3 |
| StreakExamples.RepeatedDayBeforeRun | analytics.py:78-83 | 1, 1, 2 and 3 February give a daily streak of 3 |
| StreakExamples.TwoDatesWeekly | analytics.py:86-108 | two dates give a weekly streak of 2 exactly when the second's week is later and follows the first's, otherwise 1 |
| StreakExamples.Week53ThenWeek1Breaks | analytics.py:96-97 | week 53 of 2020 followed by week 1 of 2021 gives a weekly streak of 1 |
| StreakExamples.Week52ThenWeek1YearsLater | analytics.py:97 | week 52 of 2021 followed by week 1 of 2023 gives a weekly streak of 2 |
| HabitManager.LowerCase | habit_manager.py:15 | the result has the input's length and no capital letter, and differs from the input only at capitals, each replaced by its small letter |
| HabitManager.LowerCaseFixes | habit_manager.py:15 | a name is its own lower case exactly when it has no capital, and lower-casing twice is lower-casing once |
| HabitManager.CompletionTexts | db_manager.py:92-98 | each text is fetched for a habit as many times as the habit has a completion row holding it |
| HabitManager.HabitWithId | db_manager.py:51-54 | a habit found carries the id and is in the table; none is found exactly when no habit has the id |
| HabitManager.Lookup | habit_manager.py:29-30 | a key finds a habit exactly when it is present and some habit has it |
| HabitManager.CreateHabit | habit_manager.py:10-19 | fails with the missing-field error for a missing name or periodicity; otherwise fails exactly when a habit's name matches ignoring case, and then with the duplicate-name error. On success it appends the habit with the counter's id and advances the counter |
| HabitManager.DeleteHabit | habit_manager.py:23-33 | fails with no habits whatever the key, then for an unknown key. On success exactly the habits and completion rows of other ids remain |
| HabitManager.MarkHabitCompleted | habit_manager.py:37-47 | fails for an unknown key, then for a time after `now`. On success it appends one row of that habit whose text parses exactly when the time is a whole second, and then reads back as the time |
| HabitManager.EmptyIsValid | db_manager.py:10-28 | the empty tables satisfy the store invariant |
| HabitManager.LookupOwnId | db_manager.py:15 | with ids increasing along the table, each habit is the one its id fetches |
| HabitManager.CreateKeepsValid | habit_manager.py:10-19 | creating keeps the invariant and the readability of the texts, and the new id fetches the new habit |
| HabitManager.DeleteKeepsValid | db_manager.py:38-49 | deleting a habit together with its completions keeps the invariant (no completion is left pointing at a missing habit) and keeps readable texts readable |
| HabitManager.MarkKeepsValid | habit_manager.py:37-47 | marking keeps the invariant, and leaves every text readable exactly when every text was and the time is a whole second |
| HabitManager.DeleteUndoesCreate | db_manager.py:15 | deleting the habit just created restores both tables, but the counter stays advanced |
| HabitManager.DeleteLeavesOthers | db_manager.py:38-49 | after a delete the habit has no completions and is not found, while every other habit and its completions are as they were |
| HabitManager.MarkAddsOneText | db_manager.py:69-75 | marking adds the stored time to the habit's completion texts and to no other habit's |
| Analytics.LongestStreakForHabit | analytics.py:49-55 | 0 for an id no habit has. A failure names a stored text of that habit; if every such text parses there is no failure; with no completion rows the streak is 0 |
| Analytics.LongestStreakOf | analytics.py:27-37 | 0 with no habits. Succeeds exactly when every habit's calculation does, and the value bounds each habit's streak and equals one of them. A failure is the error of the first failing habit |
| Analytics.LongestStreak | analytics.py:27-37 | 0 when there are no habits |
| Analytics.ForHabitIsHabitStreak | analytics.py:49-53 | in a store with increasing ids, the per-habit query is the calculator on that habit's rows and periodicity |
| Analytics.ValidStoreNeverFails | analytics.py:63 | on a valid store whose texts all read, neither query fails |
| Analytics.FractionalMarkBreaksStreaks | habit_manager.py:37-47 | after marking a time with a fraction of a second, the habit's streak and the longest streak fail; when every earlier text read, the habit's failure names the new text |
| Analytics.OneFailureFailsAll | analytics.py:27-37 | one habit whose streak fails makes the longest streak over all habits fail |
| Analytics.UnreadableLast | analytics.py:63 | a calculation over texts ending in one that does not parse fails, naming that text when all before it parse |
| Analytics.LongestBoundsEach | analytics.py:27-37 | the overall longest streak is at least each habit's streak, and equals one of them when there are habits |
| Analytics.DeleteResetsStreak | analytics.py:49-55 | after a delete the habit's streak is 0, and every other habit's streak is unchanged |
| Analytics.NewHabitStreakIsZero | analytics.py:49-55 | a habit just created has streak 0 |
| HabitExamples.CreateYoga | habit_manager.py:10-19 | creating "Yoga" in an empty store gives it id 1 and moves the counter to 2 |
| HabitExamples.DuplicateNameRejected | test_habit_tracker.py:108-120 | a second "Yoga", or "yoga", is refused as a duplicate |
| HabitExamples.MissingFieldsRejected | test_habit_tracker.py:54-106 | an empty name or periodicity is refused |
| HabitExamples.DeleteFromEmpty | test_habit_tracker.py:157-166 | deleting from a store without habits fails with "no habits" for every key |
| HabitExamples.DeleteUnknownId | test_habit_tracker.py:141-154 | deleting id 9999 fails as an unknown habit |
| HabitExamples.DeleteYoga | test_habit_tracker.py:123-138 | deleting the only habit leaves no habits |
| HabitExamples.MarkUnknown | test_habit_tracker.py:169-201 | marking with no id, or with id 9999, fails as an unknown habit |
| HabitExamples.NoHabitsNoStreak | test_habit_tracker.py:265-272 | with no habits the longest streak is 0 |

## Left out

- SQLite itself is not modelled: connections, transactions, `close()`, and the `print` calls. The tables are sequences in a `Store`.
- The command-line layer (main.py) is not modelled. This includes the `click` choice that limits periodicity to `daily`/`weekly` on the command line (main.py:20); the registry accepts any non-empty periodicity, as the model does.
- `datetime.now()` is a parameter, so the clock is not modelled. So is the creation date.
- Timestamp.Parse: reads only the zero-padded `YYYY-MM-DD HH:MM:SS` form with one space. `strptime` also accepts fields after the year without leading zeros, and its format's space matches any run of whitespace (tabs included). Every text the registry stores is zero-padded with one space, so the difference only shows for rows written outside the registry.
- HabitManager.SameName: compares names after ASCII lower-casing only. Python's `str.lower` also folds non-ASCII letters.
- Completion rows inserted directly with arbitrary text, as the tests do through `insert_completion_datetime`, are covered by the calculator's error path. They are not covered by the registry's invariant.
- `get_habits_by_periodicity`, `delete_all_habits` and the database's own `mark_habit_completed` are not part of this model. None of them is used by the registry or the facade.
- The test fixture that wipes the database is not modelled. The scenarios start from the empty store instead.
- Analytics.LongestStreak: its own contract states only the empty case. The bounds are stated in LongestBoundsEach, and the fold's full contract in LongestStreakOf.
