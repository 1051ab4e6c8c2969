/** The derived views of the Today page: the habits due today, today's completion flag
    and logged value per habit, the `values` record the page prefills once the store has
    loaded, and the value each checkbox passes to `toggleToday`. */
module Today {
  import opened Wrappers
  import opened Models
  import opened Collections
  import Calendar
  import Store
  import Db

  // ---- dueHabits ----

  function NotArchived(h: Habit): bool {
    !IsArchived(h)
  }

  /** `habits.filter(h => !h.archived)`: an absent `archived` flag counts as not
      archived, so such a habit is due. */
  function DueHabits(habits: seq<Habit>): (r: seq<Habit>)
    ensures |r| <= |habits|
    ensures forall h :: h in r <==> h in habits && h.archived != Some(true)
  {
    FilterMembers(habits, NotArchived);
    Filter(habits, NotArchived)
  }

  /** The due list keeps the order of the habit list: the due habits of a concatenation
      are those of the first part followed by those of the second. */
  lemma DueHabitsInOrder(a: seq<Habit>, b: seq<Habit>)
    ensures DueHabits(a + b) == DueHabits(a) + DueHabits(b)
  {
    FilterConcat(a, b, NotArchived);
  }

  /** A list without archived habits is due in full. */
  lemma DueHabitsAll(habits: seq<Habit>)
    requires forall i :: 0 <= i < |habits| ==> habits[i].archived != Some(true)
    ensures DueHabits(habits) == habits
  {
    FilterAll(habits, NotArchived);
  }

  // ---- completedMap and valueMap ----

  /** The record `completedMap` builds from a list of entries: each entry in turn sets
      its habit's key, so a later entry of the same habit overwrites an earlier one. */
  function CompletedOf(es: seq<Entry>): map<string, bool>
  {
    if es == [] then map[]
    else
      var e := es[|es| - 1];
      CompletedOf(es[..|es| - 1])[e.habitId := e.completed]
  }

  /** The record `valueMap` builds: only entries with a value set their habit's key. */
  function ValuesOf(es: seq<Entry>): map<string, real>
  {
    if es == [] then map[]
    else
      var e := es[|es| - 1];
      var m := ValuesOf(es[..|es| - 1]);
      if e.value.Some? then m[e.habitId := e.value.value] else m
  }

  /** Entry `i` is the last one of its habit in `es`. */
  ghost predicate LastOfHabit(es: seq<Entry>, i: int) {
    0 <= i < |es| && forall j :: i < j < |es| ==> es[j].habitId != es[i].habitId
  }

  /** Entry `i` is the last one of its habit in `es` that carries a value. */
  ghost predicate LastValueOfHabit(es: seq<Entry>, i: int) {
    && 0 <= i < |es| && es[i].value.Some?
    && forall j :: i < j < |es| && es[j].habitId == es[i].habitId ==> es[j].value.None?
  }

  /** One more entry at the end of the list: its habit's key is set to its flag. */
  lemma CompletedOfSnoc(es: seq<Entry>, i: int)
    requires 0 <= i < |es|
    ensures CompletedOf(es[..i + 1]) == CompletedOf(es[..i])[es[i].habitId := es[i].completed]
  {
    assert es[..i + 1][..i] == es[..i];
  }

  /** One more entry at the end of the list: with a value, its habit's key is set to it;
      without one, nothing changes. */
  lemma ValuesOfSnoc(es: seq<Entry>, i: int)
    requires 0 <= i < |es|
    ensures ValuesOf(es[..i + 1]) ==
      if es[i].value.Some? then ValuesOf(es[..i])[es[i].habitId := es[i].value.value] else ValuesOf(es[..i])
  {
    assert es[..i + 1][..i] == es[..i];
  }

  /** `completedMap` has a key exactly for the habits with an entry. */
  lemma {:induction false} CompletedOfKeys(es: seq<Entry>)
    ensures forall k :: k in CompletedOf(es) <==> exists i :: 0 <= i < |es| && es[i].habitId == k
  {
    if es != [] {
      var n := |es| - 1;
      var front := es[..n];
      CompletedOfKeys(front);
      forall k ensures k in CompletedOf(es) <==> exists i :: 0 <= i < |es| && es[i].habitId == k {
        if k in CompletedOf(front) && k != es[n].habitId {
          var i :| 0 <= i < |front| && front[i].habitId == k;
          assert es[i].habitId == k;
        }
        if exists i :: 0 <= i < |es| && es[i].habitId == k {
          var i :| 0 <= i < |es| && es[i].habitId == k;
          if i < n {
            assert front[i].habitId == k;
          }
        }
      }
    }
  }

  /** `completedMap` maps a habit to the `completed` flag of that habit's last entry. */
  lemma {:induction false} CompletedOfLastWins(es: seq<Entry>)
    ensures forall i :: LastOfHabit(es, i) ==>
      es[i].habitId in CompletedOf(es) && CompletedOf(es)[es[i].habitId] == es[i].completed
  {
    CompletedOfKeys(es);
    if es != [] {
      var n := |es| - 1;
      var front := es[..n];
      CompletedOfLastWins(front);
      forall i | LastOfHabit(es, i) ensures CompletedOf(es)[es[i].habitId] == es[i].completed {
        if i < n {
          assert es[n].habitId != es[i].habitId;
          assert LastOfHabit(front, i);
        }
      }
    }
  }

  /** `valueMap` has a key exactly for the habits with an entry carrying a value. */
  lemma {:induction false} ValuesOfKeys(es: seq<Entry>)
    ensures forall k :: k in ValuesOf(es) <==> exists i :: 0 <= i < |es| && es[i].habitId == k && es[i].value.Some?
  {
    if es != [] {
      var n := |es| - 1;
      var front := es[..n];
      ValuesOfKeys(front);
      forall k ensures k in ValuesOf(es) <==> exists i :: 0 <= i < |es| && es[i].habitId == k && es[i].value.Some? {
        if k in ValuesOf(front) {
          var i :| 0 <= i < |front| && front[i].habitId == k && front[i].value.Some?;
          assert es[i].habitId == k && es[i].value.Some?;
        }
        if exists i :: 0 <= i < |es| && es[i].habitId == k && es[i].value.Some? {
          var i :| 0 <= i < |es| && es[i].habitId == k && es[i].value.Some?;
          if i < n {
            assert front[i].habitId == k && front[i].value.Some?;
          }
        }
      }
    }
  }

  /** `valueMap` maps a habit to the value of that habit's last entry carrying one. */
  lemma {:induction false} ValuesOfLastWins(es: seq<Entry>)
    ensures forall i :: LastValueOfHabit(es, i) ==>
      es[i].habitId in ValuesOf(es) && ValuesOf(es)[es[i].habitId] == es[i].value.value
  {
    ValuesOfKeys(es);
    if es != [] {
      var n := |es| - 1;
      var front := es[..n];
      ValuesOfLastWins(front);
      forall i | LastValueOfHabit(es, i) ensures ValuesOf(es)[es[i].habitId] == es[i].value.value {
        if i < n {
          assert LastValueOfHabit(front, i);
        }
      }
    }
  }

  /** A habit whose entries carry no value has no key in `valueMap`, even when it has a
      key in `completedMap`. */
  lemma ValuesOfWithinCompleted(es: seq<Entry>)
    ensures ValuesOf(es).Keys <= CompletedOf(es).Keys
  {
    CompletedOfKeys(es);
    ValuesOfKeys(es);
  }

  /** Setting a key after a union is the union with the key set in its right part. */
  lemma UnionUpdate(a: map<string, real>, b: map<string, real>, k: string, v: real)
    ensures (a + b)[k := v] == a + b[k := v]
  {
  }

  // ---- the value passed to toggleToday ----

  /** `h.target ? values[h.id] ?? h.target.value : undefined`. */
  function ToggleArgument(h: Habit, values: map<string, real>): (r: Option<real>)
    ensures r.Some? <==> h.target.Some?
    ensures r.Some? ==> r.value == (if h.id in values then values[h.id] else h.target.value.value)
  {
    match h.target
    case None => None
    case Some(t) => Some(if h.id in values then values[h.id] else t.value)
  }

  /** After the prefill, a habit with a target that logged a value today passes the last
      value it logged back to `toggleToday`; one that logged none passes what `values`
      held before, or else its target amount. */
  lemma ToggleArgumentAfterPrefill(h: Habit, values: map<string, real>, es: seq<Entry>, i: int)
    requires h.target.Some?
    requires LastValueOfHabit(es, i) && es[i].habitId == h.id
    ensures ToggleArgument(h, values + ValuesOf(es)) == es[i].value
  {
    ValuesOfLastWins(es);
  }

  lemma ToggleArgumentWithoutLog(h: Habit, values: map<string, real>, es: seq<Entry>)
    requires h.target.Some?
    requires forall i :: 0 <= i < |es| && es[i].habitId == h.id ==> es[i].value.None?
    ensures ToggleArgument(h, values + ValuesOf(es)) == ToggleArgument(h, values)
  {
    ValuesOfKeys(es);
  }

  /** A habit with a target that has no amount typed in and logged no value today passes
      its target amount, even after the prefill. */
  lemma ToggleArgumentDefault(h: Habit, values: map<string, real>, es: seq<Entry>)
    requires h.target.Some? && h.id !in values
    requires forall i :: 0 <= i < |es| && es[i].habitId == h.id ==> es[i].value.None?
    ensures ToggleArgument(h, values + ValuesOf(es)) == Some(h.target.value.value)
  {
    ValuesOfKeys(es);
  }

  /** The Today page over the shared store. `values` holds the amounts typed in (or
      prefilled) per habit id. */
  class TodayPage {
    const store: Store.HabitStore
    var values: map<string, real>

    constructor (store: Store.HabitStore)
      ensures this.store == store && values == map[]
    {
      this.store := store;
      values := map[];
    }

    /** `completedMap`: fold today's entries into habit id -> completed. */
    method CompletedMap(today: Calendar.Date) returns (m: map<string, bool>)
      requires Calendar.Valid(today)
      ensures m == CompletedOf(store.TodayEntries(today))
    {
      var es := store.TodayEntries(today);
      m := map[];
      for i := 0 to |es|
        invariant m == CompletedOf(es[..i])
      {
        CompletedOfSnoc(es, i);
        m := m[es[i].habitId := es[i].completed];
      }
      assert es[..|es|] == es;
    }

    /** `valueMap`: fold today's entries that carry a value into habit id -> value. */
    method ValueMap(today: Calendar.Date) returns (m: map<string, real>)
      requires Calendar.Valid(today)
      ensures m == ValuesOf(store.TodayEntries(today))
    {
      var es := store.TodayEntries(today);
      m := map[];
      for i := 0 to |es|
        invariant m == ValuesOf(es[..i])
      {
        ValuesOfSnoc(es, i);
        if es[i].value.Some? {
          m := m[es[i].habitId := es[i].value.value];
        }
      }
      assert es[..|es|] == es;
    }

    /** The prefill loop: every today-entry with a value writes it under its habit id,
        in list order; keys of habits without such an entry are left as they were. */
    method Prefill(today: Calendar.Date)
      requires Calendar.Valid(today)
      modifies this
      ensures values == old(values) + ValuesOf(store.TodayEntries(today))
    {
      var es := store.TodayEntries(today);
      ghost var before := values;
      for i := 0 to |es|
        invariant values == before + ValuesOf(es[..i])
      {
        ValuesOfSnoc(es, i);
        if es[i].value.Some? {
          UnionUpdate(before, ValuesOf(es[..i]), es[i].habitId, es[i].value.value);
          values := values[es[i].habitId := es[i].value.value];
        }
      }
      assert es[..|es|] == es;
    }

    /** `ngOnInit`: load the store, then prefill `values`. Without storage the load does
        nothing but still resolves, so the prefill runs over the unchanged mirror. */
    method OnInit(today: Calendar.Date)
      requires store.Valid() && Calendar.Valid(today)
      modifies this, store
      ensures store.Valid()
      ensures store.db.available ==>
        && store.habits == Db.Snapshot(store.db.habits.rows)
        && store.entries == Db.Snapshot(store.db.entries.rows)
        && !store.loading && store.InSync()
      ensures !store.db.available ==> unchanged(store)
      ensures values == old(values) + ValuesOf(store.TodayEntries(today))
    {
      store.LoadAll();
      Prefill(today);
    }
  }
}
