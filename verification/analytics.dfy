/** The analytics facade (`Analytics`): the longest streak of one habit, and
    the longest streak over every habit, each computed by the streak
    calculator from the habit's stored completion texts and periodicity. */
module Analytics {
  import opened Outcomes
  import opened Calendar
  import opened Timestamp
  import opened Runs
  import opened Streak
  import opened HabitManager

  /** The streak calculator run on one habit's rows. */
  function HabitStreak(st: Store, h: Habit): Result<nat> {
    CalculateStreak(CompletionTexts(st, h.id), h.periodicity)
  }

  /** `get_longest_streak_for_habit`: 0 for an id no habit has, otherwise the
      streak of that habit's completions under its periodicity. */
  function LongestStreakForHabit(st: Store, id: int): (r: Result<nat>)
    ensures Lookup(st, Some(id)).None? ==> r == Ok(0)
    ensures r.Err? ==> exists t :: Completion(id, t) in st.completions && r.error == MalformedTimestamp(t)
    ensures (forall t :: Completion(id, t) in st.completions ==> Parse(t).Ok?) ==> r.Ok?
    ensures (forall t :: Completion(id, t) !in st.completions) ==> r == Ok(0)
  {
    match Lookup(st, Some(id))
    case None => Ok(0)
    case Some(h) =>
      var rows := CompletionTexts(st, id);
      TextsParse(rows, st, id);
      MalformedIsStored(rows, st, id);
      EmptyTexts(rows, st, id);
      CalculateStreak(rows, h.periodicity)
  }

  /** Every one of a habit's texts reads when every stored one does. */
  lemma TextsParse(rows: seq<string>, st: Store, id: int)
    requires rows == CompletionTexts(st, id)
    ensures (forall t :: Completion(id, t) in st.completions ==> Parse(t).Ok?) ==>
      forall i :: 0 <= i < |rows| ==> Parse(rows[i]).Ok?
  {
    forall i | 0 <= i < |rows|
      ensures rows[i] in rows
    {
    }
  }

  /** The text a failing calculation names is one of the habit's rows. */
  lemma MalformedIsStored(rows: seq<string>, st: Store, id: int)
    requires rows == CompletionTexts(st, id)
    ensures forall i :: FirstMalformed(rows, i) ==> Completion(id, rows[i]) in st.completions
  {
    forall i | FirstMalformed(rows, i)
      ensures rows[i] in rows
    {
    }
  }

  /** A habit with no completion rows has no texts. */
  lemma EmptyTexts(rows: seq<string>, st: Store, id: int)
    requires rows == CompletionTexts(st, id)
    ensures (forall t :: Completion(id, t) !in st.completions) ==> |rows| == 0
  {
    if |rows| > 0 {
      assert rows[0] in rows;
    }
  }

  /** The fold of `get_longest_streak` over the habits hs, in table order:
      the first habit whose rows do not read stops it with that error;
      otherwise the largest streak, or 0 with no habits. */
  function LongestStreakOf(st: Store, hs: seq<Habit>): (r: Result<nat>)
    ensures |hs| == 0 ==> r == Ok(0)
    ensures r.Ok? <==> forall i :: 0 <= i < |hs| ==> HabitStreak(st, hs[i]).Ok?
    ensures r.Ok? ==> forall i :: 0 <= i < |hs| ==> HabitStreak(st, hs[i]).value <= r.value
    ensures r.Ok? && |hs| > 0 ==> exists i :: 0 <= i < |hs| && HabitStreak(st, hs[i]).value == r.value
    ensures r.Err? ==> exists i :: FirstFailing(st, hs, i) && r.error == HabitStreak(st, hs[i]).error
    decreases |hs|
  {
    if |hs| == 0 then Ok(0)
    else
      var init := hs[..|hs| - 1];
      var last := hs[|hs| - 1];
      var sofar := LongestStreakOf(st, init);
      PrefixStreaks(st, hs);
      match sofar
      case Err(e) =>
        FailingInPrefix(st, hs, init, e);
        Err(e)
      case Ok(m) =>
        match HabitStreak(st, last)
        case Err(e) => Err(e)
        case Ok(s) =>
          var r := Max(m, s);
          LastStep(st, hs, m, s);
          Ok(r)
  }

  /** Habit i is the first one in hs whose streak cannot be computed. */
  predicate FirstFailing(st: Store, hs: seq<Habit>, i: int) {
    && 0 <= i < |hs|
    && HabitStreak(st, hs[i]).Err?
    && forall j :: 0 <= j < i ==> HabitStreak(st, hs[j]).Ok?
  }

  /** The habits of the prefix are the first habits of hs. */
  lemma PrefixStreaks(st: Store, hs: seq<Habit>)
    requires |hs| > 0
    ensures forall i :: 0 <= i < |hs| - 1 ==> HabitStreak(st, hs[..|hs| - 1][i]) == HabitStreak(st, hs[i])
  {
  }

  /** A first failure in the prefix is a first failure of the whole. */
  lemma FailingInPrefix(st: Store, hs: seq<Habit>, init: seq<Habit>, e: Error)
    requires |hs| > 0 && init == hs[..|hs| - 1]
    requires exists i :: FirstFailing(st, init, i) && e == HabitStreak(st, init[i]).error
    ensures exists i :: FirstFailing(st, hs, i) && e == HabitStreak(st, hs[i]).error
  {
    var i :| FirstFailing(st, init, i) && e == HabitStreak(st, init[i]).error;
    assert init[i] == hs[i];
    forall j | 0 <= j < i
      ensures HabitStreak(st, hs[j]).Ok?
    {
      assert init[j] == hs[j];
    }
  }

  /** Taking the larger of the prefix's maximum and the last streak. */
  lemma LastStep(st: Store, hs: seq<Habit>, m: nat, s: nat)
    requires |hs| > 0 && HabitStreak(st, hs[|hs| - 1]) == Ok(s)
    requires forall i :: 0 <= i < |hs| - 1 ==> HabitStreak(st, hs[i]).Ok? && HabitStreak(st, hs[i]).value <= m
    requires |hs| > 1 ==> exists i :: 0 <= i < |hs| - 1 && HabitStreak(st, hs[i]).value == m
    requires |hs| == 1 ==> m == 0
    ensures forall i :: 0 <= i < |hs| ==> HabitStreak(st, hs[i]).Ok? && HabitStreak(st, hs[i]).value <= Max(m, s)
    ensures exists i :: 0 <= i < |hs| && HabitStreak(st, hs[i]).value == Max(m, s)
  {
    if s < m {
      var i :| 0 <= i < |hs| - 1 && HabitStreak(st, hs[i]).value == m;
    }
  }

  /** `get_longest_streak`: the fold over every habit of the store. */
  function LongestStreak(st: Store): (r: Result<nat>)
    ensures |st.habits| == 0 ==> r == Ok(0)
  {
    LongestStreakOf(st, st.habits)
  }

  /* ---------------------------------------------------------------------- */
  /* The facade on the stores the registry builds                           */

  /** A habit's own streak is the one the registry's lookup finds. */
  lemma ForHabitIsHabitStreak(st: Store, h: Habit)
    requires Ordered(st.habits) && h in st.habits
    ensures LongestStreakForHabit(st, h.id) == HabitStreak(st, h)
  {
    LookupOwnId(st, h);
  }

  /** In a store whose every text reads, no streak fails. */
  lemma ValidStoreNeverFails(st: Store, id: int)
    requires Valid(st) && Readable(st)
    ensures LongestStreakForHabit(st, id).Ok?
    ensures LongestStreak(st).Ok?
  {
    forall i | 0 <= i < |st.habits|
      ensures HabitStreak(st, st.habits[i]).Ok?
    {
      var h := st.habits[i];
      ForHabitIsHabitStreak(st, h);
    }
  }

  /** The overall longest streak bounds every habit's streak and is one of
      them when there are habits. */
  lemma LongestBoundsEach(st: Store)
    requires Ordered(st.habits) && LongestStreak(st).Ok?
    ensures forall h :: h in st.habits ==>
      LongestStreakForHabit(st, h.id).Ok? && LongestStreakForHabit(st, h.id).value <= LongestStreak(st).value
    ensures |st.habits| > 0 ==> exists h :: h in st.habits && LongestStreakForHabit(st, h.id) == LongestStreak(st)
  {
    forall h | h in st.habits
      ensures LongestStreakForHabit(st, h.id).Ok? && LongestStreakForHabit(st, h.id).value <= LongestStreak(st).value
    {
      ForHabitIsHabitStreak(st, h);
    }
    if |st.habits| > 0 {
      var i :| 0 <= i < |st.habits| && HabitStreak(st, st.habits[i]).value == LongestStreak(st).value;
      ForHabitIsHabitStreak(st, st.habits[i]);
    }
  }

  /** After a delete the habit's streak is 0 and every other habit's streak
      is what it was. */
  lemma DeleteResetsStreak(st: Store, id: int, other: int)
    requires DeleteHabit(st, Some(id)).Ok? && other != id
    ensures LongestStreakForHabit(DeleteHabit(st, Some(id)).value, id) == Ok(0)
    ensures LongestStreakForHabit(DeleteHabit(st, Some(id)).value, other) == LongestStreakForHabit(st, other)
  {
    DeleteLeavesOthers(st, id, other);
  }

  /** Every completion row names an id the counter has already handed out. */
  lemma RowsOfOlderHabits(st: Store)
    requires Valid(st)
    ensures forall c :: c in st.completions ==> c.habit < st.nextId
  {
    forall c | c in st.completions
      ensures c.habit < st.nextId
    {
      var g :| g in st.habits && g.id == c.habit;
    }
  }

  /** A new habit has no completions yet, so its streak is 0. */
  lemma NewHabitStreakIsZero(st: Store, name: string, periodicity: string, today: Date)
    requires Valid(st) && CreateHabit(st, name, periodicity, today).Ok?
    ensures LongestStreakForHabit(CreateHabit(st, name, periodicity, today).value, st.nextId) == Ok(0)
  {
    CreatedStore(st, name, periodicity, today);
    RowsOfOlderHabits(st);
  }

  /** Marking a time with a fraction of a second stores a text the streak
      calculator refuses, so from then on the habit's streak, and the longest
      streak over all habits, fail; when every earlier text read, the failure
      names the new text. */
  lemma FractionalMarkBreaksStreaks(st: Store, id: int, at: DateTime, now: DateTime)
    requires ValidDateTime(at) && at.date.year < 10000 && at.microsecond != 0
    requires Lookup(st, Some(id)).Some? && !DateTimeBefore(now, at)
    ensures LongestStreakForHabit(MarkHabitCompleted(st, Some(id), at, now).value, id).Err?
    ensures Readable(st) ==>
      LongestStreakForHabit(MarkHabitCompleted(st, Some(id), at, now).value, id) == Err(MalformedTimestamp(Format(at)))
    ensures LongestStreak(MarkHabitCompleted(st, Some(id), at, now).value).Err?
  {
    var st' := MarkHabitCompleted(st, Some(id), at, now).value;
    var h := Lookup(st, Some(id)).value;
    var rows := CompletionTexts(st, id);
    MarkedStore(st, Some(id), at, now);
    MarkAddsOneText(st, id, at, now, id + 1);
    assert Lookup(st', Some(id)) == Some(h);
    UnreadableLast(rows, Format(at), h.periodicity);
    if Readable(st) {
      forall k | 0 <= k < |rows|
        ensures Parse(rows[k]).Ok?
      {
        assert rows[k] in rows;
      }
    }
    OneFailureFailsAll(st', h);
  }

  /** One habit whose streak fails makes the longest streak fail. */
  lemma OneFailureFailsAll(st: Store, h: Habit)
    requires h in st.habits && HabitStreak(st, h).Err?
    ensures LongestStreak(st).Err?
  {
    var i :| 0 <= i < |st.habits| && st.habits[i] == h;
  }

  /** A calculation over texts ending in one that does not read fails, and
      names that text when every text before it reads. */
  lemma UnreadableLast(rows: seq<string>, last: string, periodicity: string)
    requires Parse(last).Err?
    ensures CalculateStreak(rows + [last], periodicity).Err?
    ensures (forall k :: 0 <= k < |rows| ==> Parse(rows[k]).Ok?) ==>
      CalculateStreak(rows + [last], periodicity) == Err(MalformedTimestamp(last))
  {
    var all := rows + [last];
    assert all[|rows|] == last;
    assert forall k :: 0 <= k < |rows| ==> all[k] == rows[k];
  }
}
