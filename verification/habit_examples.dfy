/** The registry's error paths and the empty-store streak on the scenarios
    of the project's own tests (test_habit_tracker.py). */
module HabitExamples {
  import opened Outcomes
  import opened Calendar
  import opened HabitManager
  import opened Analytics

  /** The day the scenarios run on. */
  const Today := Date(2025, 2, 12)

  /** A store holding one habit, "Yoga", weekly. */
  function WithYoga(): Store {
    Store([Habit(1, "Yoga", "weekly", Today)], [], 2)
  }

  /** Creating "Yoga" in an empty store gives the store above. */
  lemma CreateYoga()
    ensures CreateHabit(Empty, "Yoga", "weekly", Today) == Ok(WithYoga())
  {
    CreatedStore(Empty, "Yoga", "weekly", Today);
  }

  /** A second "Yoga", or "yoga", is refused, whatever its periodicity. */
  lemma DuplicateNameRejected(periodicity: string)
    requires |periodicity| > 0
    ensures CreateHabit(WithYoga(), "Yoga", periodicity, Today) == Err(DuplicateName("Yoga"))
    ensures CreateHabit(WithYoga(), "yoga", periodicity, Today) == Err(DuplicateName("yoga"))
  {
    assert SameName(WithYoga().habits[0].name, "Yoga");
    assert LowerCase("Yoga") == "yoga" == LowerCase("yoga");
    assert SameName(WithYoga().habits[0].name, "yoga");
  }

  /** A missing name or periodicity is refused before anything else. */
  lemma MissingFieldsRejected(st: Store, text: string)
    ensures CreateHabit(st, "", text, Today) == Err(MissingNameOrPeriodicity)
    ensures CreateHabit(st, text, "", Today) == Err(MissingNameOrPeriodicity)
  {
  }

  /** Deleting from a store without habits fails that way for every key. */
  lemma DeleteFromEmpty(key: Option<int>)
    ensures DeleteHabit(Empty, key) == Err(NoHabits)
  {
  }

  /** Deleting an id no habit has fails once there are habits. */
  lemma DeleteUnknownId()
    ensures DeleteHabit(WithYoga(), Some(9999)) == Err(UnknownHabit(Some(9999)))
  {
  }

  /** Deleting the one habit leaves no habit with its id. */
  lemma DeleteYoga()
    ensures DeleteHabit(WithYoga(), Some(1)) == Ok(Store([], [], 2))
  {
    DeletedStore(WithYoga(), 1);
    assert WithYoga().habits[1..] == [];
  }

  /** Marking without an id, or with an unknown one, fails. */
  lemma MarkUnknown(at: DateTime, now: DateTime)
    requires ValidDateTime(at) && at.date.year < 10000
    ensures MarkHabitCompleted(WithYoga(), None, at, now) == Err(UnknownHabit(None))
    ensures MarkHabitCompleted(WithYoga(), Some(9999), at, now) == Err(UnknownHabit(Some(9999)))
  {
  }

  /** With no habits the longest streak is 0. */
  lemma NoHabitsNoStreak()
    ensures LongestStreak(Empty) == Ok(0)
  {
  }
}
