/** The habit registry (`HabitManager`) over an in-memory picture of the two
    tables it keeps: the habits, each with an id handed out by an
    autoincrement counter, and the completion rows, each naming the habit it
    belongs to and holding the completion time as text (see `Format`).
    Every operation either fails with the error the registry raises, leaving
    the store as it was, or returns the updated store. */
module HabitManager {
  import opened Outcomes
  import opened Calendar
  import opened Timestamp

  /** A row of the habits table. */
  datatype Habit = Habit(id: int, name: string, periodicity: string, created: Date)

  /** A row of the completion table: the habit's id and the stored text. */
  datatype Completion = Completion(habit: int, at: string)

  /** Both tables in insertion order, and the id the next habit will get. */
  datatype Store = Store(habits: seq<Habit>, completions: seq<Completion>, nextId: int)

  /** A fresh store: no rows, and the counter at its first id. */
  const Empty := Store([], [], 1)

  /* ---------------------------------------------------------------------- */
  /* Names                                                                  */

  predicate IsCapital(c: char) {
    'A' <= c <= 'Z'
  }

  /** ASCII lower case of one character. */
  function Lower(c: char): char {
    if IsCapital(c) then (c as int - 'A' as int + 'a' as int) as char else c
  }

  /** `str.lower` on ASCII text: the result has the length of s and holds no
      capital letter, and it differs from s only where s holds a capital,
      which it replaces by the small letter 32 code points further on. */
  function LowerCase(s: string): (r: string)
    ensures |r| == |s|
    ensures forall i :: 0 <= i < |r| ==> !IsCapital(r[i])
    ensures forall i :: 0 <= i < |s| && r[i] != s[i] ==> IsCapital(s[i]) && r[i] as int == s[i] as int + 32
  {
    seq(|s|, i requires 0 <= i < |s| => Lower(s[i]))
  }

  /** Two names clash when they agree once lower-cased. */
  predicate SameName(a: string, b: string) {
    LowerCase(a) == LowerCase(b)
  }

  /** A text without capitals is its own lower case; in particular
      lower-casing changes nothing the second time. */
  lemma LowerCaseFixes(s: string)
    ensures (forall i :: 0 <= i < |s| ==> !IsCapital(s[i])) <==> LowerCase(s) == s
    ensures LowerCase(LowerCase(s)) == LowerCase(s)
  {
  }

  /* ---------------------------------------------------------------------- */
  /* Rows                                                                   */

  /** The elements of s that p accepts, in order (a `WHERE` clause). */
  function Keep<T(!new)>(s: seq<T>, p: T -> bool): (r: seq<T>)
    ensures |r| <= |s|
    ensures forall x :: x in r <==> x in s && p(x)
  {
    if |s| == 0 then []
    else (if p(s[0]) then [s[0]] else []) + Keep(s[1..], p)
  }

  /** Filtering by a weaker condition first changes nothing. */
  lemma {:induction false} KeepKeep<T(!new)>(s: seq<T>, p: T -> bool, q: T -> bool)
    requires forall x :: q(x) ==> p(x)
    ensures Keep(Keep(s, p), q) == Keep(s, q)
    decreases |s|
  {
    if |s| > 0 {
      KeepKeep(s[1..], p, q);
      KeepConcat(if p(s[0]) then [s[0]] else [], Keep(s[1..], p), q);
      assert Keep([s[0]], q) == if q(s[0]) then [s[0]] else [] by {
        assert [s[0]][1..] == [];
      }
    }
  }

  /** Filtering distributes over concatenation. */
  lemma {:induction false} KeepConcat<T(!new)>(a: seq<T>, b: seq<T>, p: T -> bool)
    ensures Keep(a + b, p) == Keep(a, p) + Keep(b, p)
    decreases |a|
  {
    if |a| > 0 {
      assert (a + b)[1..] == a[1..] + b;
      KeepConcat(a[1..], b, p);
    } else {
      assert a + b == b;
    }
  }

  /** A filter that accepts every element keeps the sequence whole. */
  lemma {:induction false} KeepAll<T(!new)>(s: seq<T>, p: T -> bool)
    requires forall x :: x in s ==> p(x)
    ensures Keep(s, p) == s
    decreases |s|
  {
    if |s| > 0 {
      assert forall x :: x in s[1..] ==> x in s;
      KeepAll(s[1..], p);
    }
  }

  /** The condition a completion row of habit `id` meets. */
  function BelongsTo(id: int): Completion -> bool {
    (c: Completion) => c.habit == id
  }

  /** The condition of every row the deletion of habit `id` keeps. */
  function CompletionNotOf(id: int): Completion -> bool {
    (c: Completion) => c.habit != id
  }

  function HabitNotWithId(id: int): Habit -> bool {
    (h: Habit) => h.id != id
  }

  /** The stored text of every row. */
  function Texts(cs: seq<Completion>): (r: seq<string>)
    ensures |r| == |cs| && forall i :: 0 <= i < |cs| ==> r[i] == cs[i].at
  {
    seq(|cs|, i requires 0 <= i < |cs| => cs[i].at)
  }

  /** `get_completion_dates`: the texts of the habit's completion rows, each
      text as many times as the habit has a row holding it. */
  function CompletionTexts(st: Store, id: int): (r: seq<string>)
    ensures forall t :: multiset(r)[t] == multiset(st.completions)[Completion(id, t)]
    ensures forall t :: t in r <==> Completion(id, t) in st.completions
  {
    var rows := Keep(st.completions, BelongsTo(id));
    TextsOfRows(rows, id);
    RowCounts(st.completions, id);
    Texts(rows)
  }

  /** Each text occurs among a habit's texts as often as a row of the habit
      holds it. */
  lemma RowCounts(cs: seq<Completion>, id: int)
    ensures forall t :: multiset(Texts(Keep(cs, BelongsTo(id))))[t] == multiset(cs)[Completion(id, t)]
  {
    forall t
      ensures multiset(Texts(Keep(cs, BelongsTo(id))))[t] == multiset(cs)[Completion(id, t)]
    {
      RowCount(cs, id, t);
    }
  }

  lemma {:induction false} RowCount(cs: seq<Completion>, id: int, t: string)
    ensures multiset(Texts(Keep(cs, BelongsTo(id))))[t] == multiset(cs)[Completion(id, t)]
    decreases |cs|
  {
    if |cs| > 0 {
      var head := if BelongsTo(id)(cs[0]) then [cs[0]] else [];
      TextsConcat(head, Keep(cs[1..], BelongsTo(id)));
      RowCount(cs[1..], id, t);
      assert cs == [cs[0]] + cs[1..];
    }
  }

  /** The texts of rows that all belong to habit `id`. */
  lemma TextsOfRows(rows: seq<Completion>, id: int)
    requires forall c :: c in rows ==> c.habit == id
    ensures forall t :: t in Texts(rows) <==> Completion(id, t) in rows
  {
    forall t | t in Texts(rows)
      ensures Completion(id, t) in rows
    {
      var i :| 0 <= i < |rows| && Texts(rows)[i] == t;
      assert rows[i] in rows;
    }
    forall t | Completion(id, t) in rows
      ensures t in Texts(rows)
    {
      var i :| 0 <= i < |rows| && rows[i] == Completion(id, t);
      assert Texts(rows)[i] == t;
    }
  }

  /* ---------------------------------------------------------------------- */
  /* Looking habits up                                                      */

  /** The first habit with this id, as `get_habit_by_id` fetches it. */
  function HabitWithId(habits: seq<Habit>, id: int): (r: Option<Habit>)
    ensures r.Some? ==> r.value in habits && r.value.id == id
    ensures r.None? <==> forall i :: 0 <= i < |habits| ==> habits[i].id != id
  {
    if |habits| == 0 then None
    else if habits[0].id == id then Some(habits[0])
    else
      var r := HabitWithId(habits[1..], id);
      assert forall i :: 1 <= i < |habits| ==> habits[i] == habits[1..][i - 1];
      r
  }

  /** The habit a key names. A missing key (Python's `None`) names none, as
      does an id no habit has. */
  function Lookup(st: Store, key: Option<int>): (r: Option<Habit>)
    ensures r.Some? <==> key.Some? && exists i :: 0 <= i < |st.habits| && st.habits[i].id == key.value
    ensures r.Some? ==> r.value in st.habits && r.value.id == key.value
  {
    if key.None? then None else HabitWithId(st.habits, key.value)
  }

  /* ---------------------------------------------------------------------- */
  /* The store invariant                                                    */

  /** Ids come from the counter, and every habit has a name and a periodicity. */
  predicate Filled(st: Store) {
    && st.nextId >= 1
    && forall h :: h in st.habits ==> 1 <= h.id < st.nextId && |h.name| > 0 && |h.periodicity| > 0
  }

  /** Ids increase along the table, and no two names clash. */
  predicate Ordered(habits: seq<Habit>) {
    forall i, j :: 0 <= i < j < |habits| ==>
      habits[i].id < habits[j].id && !SameName(habits[i].name, habits[j].name)
  }

  /** Every completion row belongs to a habit. */
  predicate Linked(st: Store) {
    forall c :: c in st.completions ==> exists h :: h in st.habits && h.id == c.habit
  }

  /** What every store the registry builds satisfies. */
  predicate Valid(st: Store) {
    Filled(st) && Ordered(st.habits) && Linked(st)
  }

  /** Every stored text is one the streak calculator reads. The registry
      keeps this only while every marked time is a whole second. */
  predicate Readable(st: Store) {
    forall c :: c in st.completions ==> Parse(c.at).Ok?
  }

  lemma EmptyIsValid()
    ensures Valid(Empty) && Readable(Empty) && |Empty.habits| == 0
  {
  }

  /** In a valid store a habit is the one its id names. */
  lemma LookupOwnId(st: Store, h: Habit)
    requires Ordered(st.habits) && h in st.habits
    ensures Lookup(st, Some(h.id)) == Some(h)
  {
    var i :| 0 <= i < |st.habits| && st.habits[i] == h;
    var r := Lookup(st, Some(h.id));
    var j :| 0 <= j < |st.habits| && st.habits[j] == r.value;
    SameIdSamePlace(st.habits, i, j);
  }

  lemma SameIdSamePlace(habits: seq<Habit>, i: int, j: int)
    requires Ordered(habits) && 0 <= i < |habits| && 0 <= j < |habits|
    ensures habits[i].id == habits[j].id ==> i == j
  {
  }

  /* ---------------------------------------------------------------------- */
  /* Operations                                                             */

  /** `create_habit`: a name and a periodicity are required (any non-empty
      periodicity text is accepted), and no habit may have the same name up
      to case. The new habit gets the counter's id and the given day as its
      creation date. */
  function CreateHabit(st: Store, name: string, periodicity: string, today: Date): (r: Result<Store>)
    ensures |name| == 0 || |periodicity| == 0 ==> r == Err(MissingNameOrPeriodicity)
    ensures |name| > 0 && |periodicity| > 0 ==>
      (r.Err? <==> exists i :: 0 <= i < |st.habits| && SameName(st.habits[i].name, name))
    ensures |name| > 0 && |periodicity| > 0 && (exists i :: 0 <= i < |st.habits| && SameName(st.habits[i].name, name)) ==>
      r == Err(DuplicateName(name))
    ensures r.Ok? ==>
      && |r.value.habits| == |st.habits| + 1
      && r.value.habits[..|st.habits|] == st.habits
      && r.value.habits[|st.habits|] == Habit(st.nextId, name, periodicity, today)
      && r.value.completions == st.completions
      && r.value.nextId == st.nextId + 1
  {
    if |name| == 0 || |periodicity| == 0 then Err(MissingNameOrPeriodicity)
    else if exists i :: 0 <= i < |st.habits| && SameName(st.habits[i].name, name) then Err(DuplicateName(name))
    else
      var habits := st.habits + [Habit(st.nextId, name, periodicity, today)];
      assert habits[..|st.habits|] == st.habits;
      Ok(Store(habits, st.completions, st.nextId + 1))
  }

  /** `delete_habit`: fails when the store has no habits at all, whatever the
      key, then when no habit has the key; otherwise removes the habit and
      every completion row of it. */
  function DeleteHabit(st: Store, key: Option<int>): (r: Result<Store>)
    ensures |st.habits| == 0 ==> r == Err(NoHabits)
    ensures |st.habits| > 0 && Lookup(st, key).None? ==> r == Err(UnknownHabit(key))
    ensures r.Ok? <==> Lookup(st, key).Some?
    ensures r.Ok? ==> forall h :: h in r.value.habits <==> h in st.habits && h.id != key.value
    ensures r.Ok? ==> forall c :: c in r.value.completions <==> c in st.completions && c.habit != key.value
    ensures r.Ok? ==> r.value.nextId == st.nextId
  {
    if |st.habits| == 0 then Err(NoHabits)
    else if Lookup(st, key).None? then Err(UnknownHabit(key))
    else
      var id := key.value;
      Ok(Store(Keep(st.habits, HabitNotWithId(id)), Keep(st.completions, CompletionNotOf(id)), st.nextId))
  }

  /** `mark_habit_completed`: fails when no habit has the key, then when the
      completion lies after `now`; otherwise stores one more completion row
      with the time as text, which the streak calculator reads back only
      when the time is a whole second. */
  function MarkHabitCompleted(st: Store, key: Option<int>, at: DateTime, now: DateTime): (r: Result<Store>)
    requires ValidDateTime(at) && at.date.year < 10000
    ensures Lookup(st, key).None? ==> r == Err(UnknownHabit(key))
    ensures Lookup(st, key).Some? && DateTimeBefore(now, at) ==> r == Err(FutureCompletion)
    ensures r.Ok? <==> Lookup(st, key).Some? && !DateTimeBefore(now, at)
    ensures r.Ok? ==>
      && r.value.habits == st.habits
      && r.value.nextId == st.nextId
      && |r.value.completions| == |st.completions| + 1
      && r.value.completions[..|st.completions|] == st.completions
      && r.value.completions[|st.completions|].habit == key.value
      && (Parse(r.value.completions[|st.completions|].at).Ok? <==> at.microsecond == 0)
      && (at.microsecond == 0 ==> Parse(r.value.completions[|st.completions|].at) == Ok(at))
  {
    if Lookup(st, key).None? then Err(UnknownHabit(key))
    else if DateTimeBefore(now, at) then Err(FutureCompletion)
    else
      FormatReadable(at);
      var completions := st.completions + [Completion(key.value, Format(at))];
      assert completions[..|st.completions|] == st.completions;
      Ok(Store(st.habits, completions, st.nextId))
  }

  /* ---------------------------------------------------------------------- */
  /* The operations keep the store valid                                    */

  lemma CreateKeepsValid(st: Store, name: string, periodicity: string, today: Date)
    requires Valid(st) && CreateHabit(st, name, periodicity, today).Ok?
    ensures Valid(CreateHabit(st, name, periodicity, today).value)
    ensures Readable(CreateHabit(st, name, periodicity, today).value) == Readable(st)
    ensures Lookup(CreateHabit(st, name, periodicity, today).value, Some(st.nextId)) == Some(Habit(st.nextId, name, periodicity, today))
  {
    var st' := CreateHabit(st, name, periodicity, today).value;
    var h := Habit(st.nextId, name, periodicity, today);
    assert st'.habits == st.habits + [h];
    AppendOrdered(st, h);
    assert Linked(st') by {
      forall c | c in st'.completions
        ensures exists g :: g in st'.habits && g.id == c.habit
      {
        var g :| g in st.habits && g.id == c.habit;
        assert g in st'.habits;
      }
    }
    LookupOwnId(st', h);
  }

  /** A habit with the counter's id and a name no habit has goes last. */
  lemma AppendOrdered(st: Store, h: Habit)
    requires Filled(st) && Ordered(st.habits) && h.id == st.nextId
    requires forall i :: 0 <= i < |st.habits| ==> !SameName(st.habits[i].name, h.name)
    ensures Ordered(st.habits + [h])
  {
    var s := st.habits + [h];
    forall i, j | 0 <= i < j < |s|
      ensures s[i].id < s[j].id && !SameName(s[i].name, s[j].name)
    {
      assert s[i] == st.habits[i] && st.habits[i] in st.habits;
      if j < |st.habits| {
        assert s[j] == st.habits[j];
      }
    }
  }

  lemma DeleteKeepsValid(st: Store, key: Option<int>)
    requires Valid(st) && DeleteHabit(st, key).Ok?
    ensures Valid(DeleteHabit(st, key).value)
    ensures Readable(st) ==> Readable(DeleteHabit(st, key).value)
  {
    var st' := DeleteHabit(st, key).value;
    KeepOrdered(st.habits, HabitNotWithId(key.value));
    assert Linked(st') by {
      forall c | c in st'.completions
        ensures exists g :: g in st'.habits && g.id == c.habit
      {
        var g :| g in st.habits && g.id == c.habit;
        assert g in st'.habits;
      }
    }
  }

  /** Removing habits keeps the remaining ones in increasing id order with
      their names apart. */
  lemma {:induction false} KeepOrdered(habits: seq<Habit>, p: Habit -> bool)
    requires Ordered(habits)
    ensures Ordered(Keep(habits, p))
    decreases |habits|
  {
    if |habits| > 0 {
      var tail := habits[1..];
      var rest := Keep(tail, p);
      assert Ordered(tail) by {
        forall i, j | 0 <= i < j < |tail|
          ensures tail[i].id < tail[j].id && !SameName(tail[i].name, tail[j].name)
        {
          assert tail[i] == habits[i + 1] && tail[j] == habits[j + 1];
        }
      }
      KeepOrdered(tail, p);
      if p(habits[0]) {
        PrependOrdered(habits, rest);
        assert Keep(habits, p) == [habits[0]] + rest;
      } else {
        assert Keep(habits, p) == rest;
      }
    }
  }

  /** The first habit of an ordered table goes before any of the others. */
  lemma PrependOrdered(habits: seq<Habit>, rest: seq<Habit>)
    requires |habits| > 0 && Ordered(habits) && Ordered(rest)
    requires forall h :: h in rest ==> h in habits[1..]
    ensures Ordered([habits[0]] + rest)
  {
    var r := [habits[0]] + rest;
    forall i, j | 0 <= i < j < |r|
      ensures r[i].id < r[j].id && !SameName(r[i].name, r[j].name)
    {
      assert r[j] == rest[j - 1] && rest[j - 1] in rest;
      if i == 0 {
        var k :| 0 <= k < |habits[1..]| && habits[1..][k] == r[j];
        assert habits[k + 1] == r[j];
      } else {
        assert r[i] == rest[i - 1];
      }
    }
  }

  /** Marking keeps the store valid, and keeps its texts readable exactly
      when the marked time is a whole second. */
  lemma MarkKeepsValid(st: Store, key: Option<int>, at: DateTime, now: DateTime)
    requires ValidDateTime(at) && at.date.year < 10000
    requires Valid(st) && Lookup(st, key).Some? && !DateTimeBefore(now, at)
    ensures Valid(MarkHabitCompleted(st, key, at, now).value)
    ensures Readable(MarkHabitCompleted(st, key, at, now).value) <==> Readable(st) && at.microsecond == 0
  {
    var h := Lookup(st, key).value;
    var row := Completion(h.id, Format(at));
    MarkedStore(st, key, at, now);
    FormatReadable(at);
    AppendLinked(st, h, row);
  }

  /** The store a successful mark leaves. */
  lemma MarkedStore(st: Store, key: Option<int>, at: DateTime, now: DateTime)
    requires ValidDateTime(at) && at.date.year < 10000
    requires Lookup(st, key).Some? && !DateTimeBefore(now, at)
    ensures key.Some? && Lookup(st, key).value.id == key.value
    ensures MarkHabitCompleted(st, key, at, now).value
         == Store(st.habits, st.completions + [Completion(key.value, Format(at))], st.nextId)
  {
  }

  /** A row of an existing habit keeps the rows linked, and the texts
      readable exactly when its own text reads. */
  lemma AppendLinked(st: Store, h: Habit, row: Completion)
    requires Linked(st) && h in st.habits && row.habit == h.id
    ensures Linked(Store(st.habits, st.completions + [row], st.nextId))
    ensures Readable(Store(st.habits, st.completions + [row], st.nextId)) <==> Readable(st) && Parse(row.at).Ok?
  {
    var cs := st.completions + [row];
    forall c | c in cs
      ensures exists g :: g in st.habits && g.id == c.habit
    {
      if c != row {
        assert c in st.completions;
      }
    }
    assert row in cs;
    assert forall c :: c in st.completions ==> c in cs;
  }

  /* ---------------------------------------------------------------------- */
  /* What each operation does to the other habits                           */

  /** Deleting a habit just created gives back the store it was created in,
      but for the id counter, which never goes back. */
  lemma DeleteUndoesCreate(st: Store, name: string, periodicity: string, today: Date)
    requires Valid(st) && CreateHabit(st, name, periodicity, today).Ok?
    ensures DeleteHabit(CreateHabit(st, name, periodicity, today).value, Some(st.nextId))
         == Ok(Store(st.habits, st.completions, st.nextId + 1))
  {
    var h := Habit(st.nextId, name, periodicity, today);
    var st' := Store(st.habits + [h], st.completions, st.nextId + 1);
    CreatedStore(st, name, periodicity, today);
    AppendOrdered(st, h);
    LookupOwnId(st', h);
    DeletedStore(st', st.nextId);
    RemoveNewest(st.habits, h, st.nextId);
    CompletionsOfOlder(st, st.nextId);
  }

  /** The store a successful create leaves. */
  lemma CreatedStore(st: Store, name: string, periodicity: string, today: Date)
    requires CreateHabit(st, name, periodicity, today).Ok?
    ensures CreateHabit(st, name, periodicity, today).value
         == Store(st.habits + [Habit(st.nextId, name, periodicity, today)], st.completions, st.nextId + 1)
  {
  }

  /** The store a successful delete leaves. */
  lemma DeletedStore(st: Store, id: int)
    requires Lookup(st, Some(id)).Some?
    ensures DeleteHabit(st, Some(id))
         == Ok(Store(Keep(st.habits, HabitNotWithId(id)), Keep(st.completions, CompletionNotOf(id)), st.nextId))
  {
  }

  /** Removing the id of the last habit, which no other habit has. */
  lemma RemoveNewest(habits: seq<Habit>, h: Habit, id: int)
    requires h.id == id && forall g :: g in habits ==> g.id < id
    ensures Keep(habits + [h], HabitNotWithId(id)) == habits
  {
    KeepConcat(habits, [h], HabitNotWithId(id));
    KeepAll(habits, HabitNotWithId(id));
    assert Keep([h], HabitNotWithId(id)) == [] by {
      assert [h][1..] == [];
    }
  }

  /** No completion row belongs to an id at or past the counter. */
  lemma CompletionsOfOlder(st: Store, id: int)
    requires Valid(st) && id >= st.nextId
    ensures Keep(st.completions, CompletionNotOf(id)) == st.completions
  {
    forall c | c in st.completions
      ensures CompletionNotOf(id)(c)
    {
      var g :| g in st.habits && g.id == c.habit;
    }
    KeepAll(st.completions, CompletionNotOf(id));
  }

  /** Deleting a habit removes its completions and leaves every other habit,
      and every other habit's completions, as they were. */
  lemma DeleteLeavesOthers(st: Store, id: int, other: int)
    requires DeleteHabit(st, Some(id)).Ok? && other != id
    ensures CompletionTexts(DeleteHabit(st, Some(id)).value, id) == []
    ensures CompletionTexts(DeleteHabit(st, Some(id)).value, other) == CompletionTexts(st, other)
    ensures Lookup(DeleteHabit(st, Some(id)).value, Some(id)).None?
    ensures Lookup(DeleteHabit(st, Some(id)).value, Some(other)) == Lookup(st, Some(other))
  {
    var st' := DeleteHabit(st, Some(id)).value;
    KeepKeep(st.completions, CompletionNotOf(id), BelongsTo(other));
    assert multiset(CompletionTexts(st', id)) == multiset{};
    KeepLookup(st.habits, HabitNotWithId(id), other);
  }

  /** Looking an id up after removing habits that do not carry it. */
  lemma {:induction false} KeepLookup(habits: seq<Habit>, p: Habit -> bool, id: int)
    requires forall h: Habit :: h.id == id ==> p(h)
    ensures HabitWithId(Keep(habits, p), id) == HabitWithId(habits, id)
    decreases |habits|
  {
    if |habits| > 0 {
      var rest := Keep(habits[1..], p);
      KeepLookup(habits[1..], p, id);
      if p(habits[0]) {
        var r := [habits[0]] + rest;
        assert Keep(habits, p) == r;
        assert r[0] == habits[0] && r[1..] == rest;
      } else {
        assert Keep(habits, p) == rest;
        assert habits[0].id != id;
      }
    }
  }

  /** Marking a completion adds its text to that habit's completions and to
      no other habit's. */
  lemma MarkAddsOneText(st: Store, id: int, at: DateTime, now: DateTime, other: int)
    requires ValidDateTime(at) && at.date.year < 10000
    requires Lookup(st, Some(id)).Some? && !DateTimeBefore(now, at) && other != id
    ensures CompletionTexts(MarkHabitCompleted(st, Some(id), at, now).value, id) == CompletionTexts(st, id) + [Format(at)]
    ensures CompletionTexts(MarkHabitCompleted(st, Some(id), at, now).value, other) == CompletionTexts(st, other)
  {
    var row := Completion(id, Format(at));
    MarkedStore(st, Some(id), at, now);
    OneRowTexts(st.completions, row, id);
    OneRowTexts(st.completions, row, other);
  }

  /** Appending a row adds its text to the texts of its own habit only. */
  lemma OneRowTexts(cs: seq<Completion>, row: Completion, id: int)
    ensures Texts(Keep(cs + [row], BelongsTo(id)))
         == Texts(Keep(cs, BelongsTo(id))) + (if row.habit == id then [row.at] else [])
  {
    KeepConcat(cs, [row], BelongsTo(id));
    assert [row][1..] == [];
    TextsConcat(Keep(cs, BelongsTo(id)), Keep([row], BelongsTo(id)));
  }

  lemma TextsConcat(a: seq<Completion>, b: seq<Completion>)
    ensures Texts(a + b) == Texts(a) + Texts(b)
  {
  }
}
