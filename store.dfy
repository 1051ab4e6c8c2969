/** The reactive state container `HabitStore`: an in-memory mirror (`habits`, `entries`,
    `loading`) of the two tables. Every operation first checks that storage exists,
    writes the table, and only then assigns the mirror. The clock (`todayKey()`,
    `new Date().toISOString()`) and `crypto.randomUUID()` are parameters. */
module Store {
  import opened Wrappers
  import opened Models
  import opened Collections
  import Calendar
  import opened Db

  /** What `addHabit` receives: a habit without `id` and `createdAt`. */
  datatype HabitDraft = HabitDraft(
    title: string,
    frequency: Frequency,
    customDays: Option<seq<Weekday>>,
    target: Option<Target>,
    archived: Option<bool>)

  /** A `Partial<Habit>`. A field is `None` when the patch does not have it; for the
      optional fields `Some(None)` is a field present with the value undefined. */
  datatype HabitPatch = HabitPatch(
    id: Option<string>,
    title: Option<string>,
    frequency: Option<Frequency>,
    customDays: Option<Option<seq<Weekday>>>,
    target: Option<Option<Target>>,
    archived: Option<Option<bool>>,
    createdAt: Option<string>)

  /** `{ ...h, ...patch }`: a shallow merge in which the patch's fields win. */
  function Merge(h: Habit, p: HabitPatch): Habit {
    Habit(
      p.id.GetOr(h.id),
      p.title.GetOr(h.title),
      p.frequency.GetOr(h.frequency),
      p.customDays.GetOr(h.customDays),
      p.target.GetOr(h.target),
      p.archived.GetOr(h.archived),
      p.createdAt.GetOr(h.createdAt))
  }

  /** `{ ...current, archived }`: archiving is the merge of a one-field patch. */
  function ArchivePatch(archived: bool): HabitPatch {
    HabitPatch(None, None, None, None, None, Some(Some(archived)), None)
  }

  function HasId(id: string): Habit -> bool {
    (h: Habit) => h.id == id
  }

  function EntryHasId(id: string): Entry -> bool {
    (e: Entry) => e.id == id
  }

  /** The entry the store treats as a habit's entry for the day `key`. */
  function IsDayEntryOf(habitId: string, key: string): Entry -> bool {
    (e: Entry) => e.habitId == habitId && e.date == key
  }

  function OnDay(key: string): Entry -> bool {
    (e: Entry) => e.date == key
  }

  // ---- the effect of each operation, as functions of the old mirror ----

  /** The record `archiveHabit`/`updateHabit` write: the first listed habit with that id,
      patched; `None` when the id is not listed. */
  function Patched(habits: seq<Habit>, habitId: string, p: HabitPatch): Option<Habit> {
    match FindFirst(habits, HasId(habitId))
    case None => None
    case Some(i) => Some(Merge(habits[i], p))
  }

  /** The mirror after a patch: every listed habit with that id replaced by the written
      record (`habits.map(h => h.id === habitId ? updated : h)`). */
  function PatchedHabits(habits: seq<Habit>, habitId: string, p: HabitPatch): seq<Habit> {
    match Patched(habits, habitId, p)
    case None => habits
    case Some(u) => ReplaceWhere(habits, HasId(habitId), u)
  }

  /** A patch replaces the habit in place: same length, same positions, the habit with
      that id merged with the patch and every other habit untouched; with no such habit,
      nothing changes. */
  lemma PatchInPlace(habits: seq<Habit>, habitId: string, p: HabitPatch)
    requires UniqueBy(habits, (h: Habit) => h.id)
    ensures |PatchedHabits(habits, habitId, p)| == |habits|
    ensures forall i :: 0 <= i < |habits| ==>
      PatchedHabits(habits, habitId, p)[i] == if habits[i].id == habitId then Merge(habits[i], p) else habits[i]
  {
  }

  /** Archiving changes the one habit with that id, and of it only the `archived` flag. */
  lemma ArchiveInPlace(habits: seq<Habit>, habitId: string, archived: bool)
    requires UniqueBy(habits, (h: Habit) => h.id)
    ensures |PatchedHabits(habits, habitId, ArchivePatch(archived))| == |habits|
    ensures forall i :: 0 <= i < |habits| ==>
      PatchedHabits(habits, habitId, ArchivePatch(archived))[i]
        == if habits[i].id == habitId then habits[i].(archived := Some(archived)) else habits[i]
  {
    PatchInPlace(habits, habitId, ArchivePatch(archived));
  }

  /** The entry `toggleToday` writes: the first entry of the habit for the day with
      `completed` flipped and `value` overwritten (even by an absent value), or else a
      new completed entry. */
  function ToggledRecord(entries: seq<Entry>, habitId: string, key: string, value: Option<real>,
                         newId: string, now: string): Entry
  {
    match FindFirst(entries, IsDayEntryOf(habitId, key))
    case Some(i) => entries[i].(completed := !entries[i].completed, value := value)
    case None => Entry(newId, habitId, key, value, true, now)
  }

  /** The mirror after a toggle that was written: the toggled entry replaced in place
      by id, or the new entry prepended. */
  function ToggledEntries(entries: seq<Entry>, habitId: string, key: string, value: Option<real>,
                          newId: string, now: string): seq<Entry>
  {
    var u := ToggledRecord(entries, habitId, key, value, newId, now);
    match FindFirst(entries, IsDayEntryOf(habitId, key))
    case Some(_) => ReplaceWhere(entries, EntryHasId(u.id), u)
    case None => [u] + entries
  }

  /** A habit's entries for a day. */
  function DayEntries(entries: seq<Entry>, habitId: string, key: string): seq<Entry> {
    Filter(entries, IsDayEntryOf(habitId, key))
  }

  ghost predicate UniqueEntryIds(entries: seq<Entry>) {
    UniqueBy(entries, (e: Entry) => e.id)
  }

  /** Toggling an existing day entry flips it in place: the list keeps its length, the
      entry keeps its position and id and gets the flipped flag and the new value, and
      every other entry is untouched. */
  lemma ToggleExistingInPlace(entries: seq<Entry>, habitId: string, key: string, value: Option<real>,
                              newId: string, now: string, i: nat)
    requires UniqueEntryIds(entries)
    requires FindFirst(entries, IsDayEntryOf(habitId, key)) == Some(i)
    ensures var r := ToggledEntries(entries, habitId, key, value, newId, now);
      && |r| == |entries|
      && r[i] == entries[i].(completed := !entries[i].completed, value := value)
      && forall j :: 0 <= j < |entries| && j != i ==> r[j] == entries[j]
  {
    var r := ToggledEntries(entries, habitId, key, value, newId, now);
    forall j | 0 <= j < |entries| && j != i ensures r[j] == entries[j] {
      var a, b := if j < i then j else i, if j < i then i else j;
      assert entries[a].id != entries[b].id;
    }
  }

  /** With exactly one entry of the habit for the day, a toggle leaves exactly one: the
      same entry, flipped, carrying the new value. Entry ids stay unique. */
  lemma {:induction false} ToggleOne(entries: seq<Entry>, habitId: string, key: string, value: Option<real>,
                                     newId: string, now: string, e: Entry)
    requires UniqueEntryIds(entries)
    requires DayEntries(entries, habitId, key) == [e]
    ensures var r := ToggledEntries(entries, habitId, key, value, newId, now);
      && UniqueEntryIds(r)
      && DayEntries(r, habitId, key) == [e.(completed := !e.completed, value := value)]
  {
    hide Filter, FindFirst, ReplaceWhere;
    var p := IsDayEntryOf(habitId, key);
    FilterSingle(entries, p, e);
    var i := FindFirst(entries, p).value;
    var u := e.(completed := !e.completed, value := value);
    ToggleExistingInPlace(entries, habitId, key, value, newId, now, i);
    var r := ToggledEntries(entries, habitId, key, value, newId, now);
    var before, after := entries[..i], entries[i + 1..];
    assert r == before + [u] + after;
    FilterNone(before, p);
    FilterNone(after, p);
    FilterAround(before, u, after, p);
    forall a, b | 0 <= a < b < |r| ensures r[a].id != r[b].id {
      assert entries[a].id != entries[b].id;
    }
  }

  /** With no entry of the habit for the day, a toggle under a fresh id creates exactly
      one, completed. Entry ids stay unique. */
  lemma ToggleNone(entries: seq<Entry>, habitId: string, key: string, value: Option<real>,
                   newId: string, now: string)
    requires UniqueEntryIds(entries)
    requires DayEntries(entries, habitId, key) == []
    requires forall j :: 0 <= j < |entries| ==> entries[j].id != newId
    ensures var r := ToggledEntries(entries, habitId, key, value, newId, now);
      && UniqueEntryIds(r)
      && DayEntries(r, habitId, key) == [Entry(newId, habitId, key, value, true, now)]
  {
    var p := IsDayEntryOf(habitId, key);
    FilterMembers(entries, p);
    match FindFirst(entries, p)
    case Some(i) =>
      assert false;
    case None =>
      var u := Entry(newId, habitId, key, value, true, now);
      FilterConcat([u], entries, p);
  }

  /** The arguments of one `toggleToday` call, with the id and timestamp it would use for
      a new entry. */
  datatype ToggleCall = ToggleCall(value: Option<real>, newId: string, now: string)

  /** The mirror after a series of toggles of one habit on one day, each written. */
  function ToggleSeries(entries: seq<Entry>, habitId: string, key: string, calls: seq<ToggleCall>): seq<Entry>
    decreases |calls|
  {
    if calls == [] then entries
    else
      var c := calls[0];
      ToggleSeries(ToggledEntries(entries, habitId, key, c.value, c.newId, c.now), habitId, key, calls[1..])
  }

  /** The day entry after `n` further toggles, the last of them with value `last`. */
  function Retoggled(e: Entry, n: nat, last: Option<real>): Entry {
    if n == 0 then e else e.(completed := e.completed != (n % 2 == 1), value := last)
  }

  function LastValue(calls: seq<ToggleCall>, default: Option<real>): Option<real> {
    if calls == [] then default else calls[|calls| - 1].value
  }

  /** One more toggle in front of `n` others. */
  lemma RetoggledStep(e: Entry, calls: seq<ToggleCall>)
    requires calls != []
    ensures Retoggled(e.(completed := !e.completed, value := calls[0].value), |calls| - 1, LastValue(calls[1..], calls[0].value))
      == Retoggled(e, |calls|, LastValue(calls, e.value))
  {
  }

  lemma {:induction false} ToggleSeriesFromOne(entries: seq<Entry>, habitId: string, key: string,
                                               calls: seq<ToggleCall>, e: Entry)
    requires UniqueEntryIds(entries)
    requires DayEntries(entries, habitId, key) == [e]
    ensures DayEntries(ToggleSeries(entries, habitId, key, calls), habitId, key)
      == [Retoggled(e, |calls|, LastValue(calls, e.value))]
    decreases |calls|
  {
    if calls == [] {
      assert ToggleSeries(entries, habitId, key, calls) == entries;
    } else {
      var c := calls[0];
      var next := ToggledEntries(entries, habitId, key, c.value, c.newId, c.now);
      assert ToggleSeries(entries, habitId, key, calls) == ToggleSeries(next, habitId, key, calls[1..]);
      ToggleOne(entries, habitId, key, c.value, c.newId, c.now, e);
      ToggleSeriesFromOne(next, habitId, key, calls[1..], e.(completed := !e.completed, value := c.value));
      RetoggledStep(e, calls);
    }
  }

  /** After n >= 1 toggles of one habit on one day, starting with no entry for it, there
      is exactly one entry for that habit and day: the one the first call created, with
      `completed` equal to "n is odd" and the value of the last call. */
  lemma ToggleParity(entries: seq<Entry>, habitId: string, key: string, calls: seq<ToggleCall>)
    requires UniqueEntryIds(entries)
    requires DayEntries(entries, habitId, key) == []
    requires |calls| >= 1
    requires forall j :: 0 <= j < |entries| ==> entries[j].id != calls[0].newId
    ensures DayEntries(ToggleSeries(entries, habitId, key, calls), habitId, key)
      == [Entry(calls[0].newId, habitId, key, calls[|calls| - 1].value, |calls| % 2 == 1, calls[0].now)]
  {
    var c := calls[0];
    ToggleNone(entries, habitId, key, c.value, c.newId, c.now);
    var e := Entry(c.newId, habitId, key, c.value, true, c.now);
    var next := ToggledEntries(entries, habitId, key, c.value, c.newId, c.now);
    assert ToggleSeries(entries, habitId, key, calls) == ToggleSeries(next, habitId, key, calls[1..]);
    ToggleSeriesFromOne(next, habitId, key, calls[1..], e);
    assert LastValue(calls[1..], c.value) == calls[|calls| - 1].value;
  }

  /** A patch that keeps the id keeps the mirror in step with the table it was put
      into. */
  lemma PatchKeepsMirror(habits: seq<Habit>, rows: map<string, Habit>, key: Habit -> string,
                         habitId: string, p: HabitPatch)
    requires forall h: Habit :: key(h) == h.id
    requires Mirrors(habits, rows, key)
    requires p.id.None? || p.id == Some(habitId)
    ensures Patched(habits, habitId, p).Some? ==> Patched(habits, habitId, p).value.id == habitId
    ensures Mirrors(PatchedHabits(habits, habitId, p),
                    match Patched(habits, habitId, p) case None => rows case Some(u) => rows[u.id := u], key)
  {
    match FindFirst(habits, HasId(habitId))
    case None =>
    case Some(i) =>
      var u := Merge(habits[i], p);
      assert key(habits[i]) == habitId;
      MirrorsReplace(habits, rows, key, HasId(habitId), u);
  }

  /** A toggle, written, keeps the entry mirror in step with the table: the flipped
      entry is replaced under its own id, or the new entry goes in under a fresh one. */
  lemma ToggleKeepsMirror(entries: seq<Entry>, rows: map<string, Entry>, key: Entry -> string,
                          habitId: string, day: string, value: Option<real>, newId: string, now: string)
    requires forall e: Entry :: key(e) == e.id
    ensures Mirrors(entries, rows, key) && (FindFirst(entries, IsDayEntryOf(habitId, day)).None? ==> newId !in rows)
      ==> var u := ToggledRecord(entries, habitId, day, value, newId, now);
          Mirrors(ToggledEntries(entries, habitId, day, value, newId, now), rows[u.id := u], key)
  {
    if !Mirrors(entries, rows, key) || (FindFirst(entries, IsDayEntryOf(habitId, day)).None? && newId in rows) {
      return;
    }
    var u := ToggledRecord(entries, habitId, day, value, newId, now);
    match FindFirst(entries, IsDayEntryOf(habitId, day))
    case Some(i) =>
      assert key(entries[i]) == u.id;
      MirrorsReplace(entries, rows, key, EntryHasId(u.id), u);
    case None =>
      MirrorsPrepend(entries, rows, key, u);
  }

  /** The store. `db` is the shared database; the three fields are the signals. */
  class HabitStore {
    const db: Database
    var habits: seq<Habit>
    var entries: seq<Entry>
    var loading: bool

    ghost predicate Valid()
      reads this, db, db.habits, db.entries
    {
      db.Valid()
    }

    /** The mirror agrees with the tables (write-through). */
    ghost predicate InSync()
      reads this, db, db.habits, db.entries
    {
      && Mirrors(habits, db.habits.rows, db.habits.key)
      && Mirrors(entries, db.entries.rows, db.entries.key)
    }

    constructor (db: Database)
      requires db.Valid()
      ensures this.db == db && Valid()
      ensures habits == [] && entries == [] && !loading
    {
      this.db := db;
      habits := [];
      entries := [];
      loading := false;
    }

    /** `todayEntries`: the entries dated `today`, in mirror order. */
    function TodayEntries(today: Calendar.Date): (r: seq<Entry>)
      requires Calendar.Valid(today)
      reads this
      ensures forall x :: x in r <==> x in entries && x.date == Calendar.Key(today)
    {
      FilterMembers(entries, OnDay(Calendar.Key(today)));
      Filter(entries, OnDay(Calendar.Key(today)))
    }

    /** `loadAll`: read both tables whole; afterwards the mirror agrees with them and
        `loading` is off again. Without storage nothing happens. */
    method LoadAll()
      requires Valid()
      modifies this
      ensures Valid()
      ensures !db.available ==> unchanged(this)
      ensures db.available ==> && habits == Snapshot(db.habits.rows)
                               && entries == Snapshot(db.entries.rows)
                               && !loading && InSync()
    {
      if !db.available {
        return;
      }
      loading := true;
      var h := db.habits.ToArray();
      var e := db.entries.ToArray();
      habits := h;
      entries := e;
      loading := false;
      SnapshotMirrors(db.habits.rows, db.habits.key);
      SnapshotMirrors(db.entries.rows, db.entries.key);
    }

    /** `addHabit`: insert a new habit under a fresh id, then put it first in the mirror.
        When the insert fails (the id is taken) the mirror is left as it was. */
    method AddHabit(data: HabitDraft, newId: string, now: string) returns (ok: bool)
      requires Valid()
      modifies this, db.habits
      ensures Valid()
      ensures !db.available ==> !ok && unchanged(this) && unchanged(db.habits)
      ensures unchanged(db.entries) && entries == old(entries) && loading == old(loading)
      ensures var h := Habit(newId, data.title, data.frequency, data.customDays, data.target, data.archived, now);
        && (ok <==> db.available && newId !in old(db.habits.rows))
        && habits == (if ok then [h] + old(habits) else old(habits))
        && db.habits.rows == (if ok then old(db.habits.rows)[newId := h] else old(db.habits.rows))
      ensures old(InSync()) ==> InSync()
    {
      if !db.available {
        return false;
      }
      var h := Habit(newId, data.title, data.frequency, data.customDays, data.target, data.archived, now);
      if InSync() && newId !in db.habits.rows {
        MirrorsPrepend(habits, db.habits.rows, db.habits.key, h);
      }
      ok := db.habits.Add(h);
      if ok {
        habits := [h] + habits;
      }
    }

    /** `updateHabit`: merge the patch into the listed habit with that id, write it, and
        replace that habit in the mirror; with no such habit nothing happens. The mirror
        keeps agreeing with the table when the patch keeps the id. */
    method UpdateHabit(habitId: string, patch: HabitPatch)
      requires Valid()
      modifies this, db.habits
      ensures Valid()
      ensures unchanged(db.entries) && entries == old(entries) && loading == old(loading)
      ensures !db.available ==> unchanged(this) && unchanged(db.habits)
      ensures db.available ==>
        && habits == PatchedHabits(old(habits), habitId, patch)
        && db.habits.rows == match Patched(old(habits), habitId, patch)
             case None => old(db.habits.rows)
             case Some(u) => old(db.habits.rows)[u.id := u]
      ensures old(InSync()) && (patch.id.None? || patch.id == Some(habitId)) ==> InSync()
    {
      hide Mirrors, KeyedBy, UniqueBy, ReplaceWhere;
      if !db.available {
        return;
      }
      var i := FindFirst(habits, HasId(habitId));
      if i.None? {
        return;
      }
      var updated := Merge(habits[i.value], patch);
      if InSync() && (patch.id.None? || patch.id == Some(habitId)) {
        PatchKeepsMirror(habits, db.habits.rows, db.habits.key, habitId, patch);
      }
      db.habits.Put(updated);
      habits := ReplaceWhere(habits, HasId(habitId), updated);
    }

    /** `archiveHabit`: `updateHabit` with the one-field patch `{ archived }`. */
    method ArchiveHabit(habitId: string, archived: bool := true)
      requires Valid()
      modifies this, db.habits
      ensures Valid()
      ensures unchanged(db.entries) && entries == old(entries) && loading == old(loading)
      ensures !db.available ==> unchanged(this) && unchanged(db.habits)
      ensures db.available ==>
        && habits == PatchedHabits(old(habits), habitId, ArchivePatch(archived))
        && db.habits.rows == match Patched(old(habits), habitId, ArchivePatch(archived))
             case None => old(db.habits.rows)
             case Some(u) => old(db.habits.rows)[u.id := u]
      ensures old(InSync()) ==> InSync()
    {
      hide Mirrors, KeyedBy, UniqueBy, ReplaceWhere;
      if !db.available {
        return;
      }
      var i := FindFirst(habits, HasId(habitId));
      if i.None? {
        return;
      }
      var updated := habits[i.value].(archived := Some(archived));
      assert updated == Merge(habits[i.value], ArchivePatch(archived));
      if InSync() {
        PatchKeepsMirror(habits, db.habits.rows, db.habits.key, habitId, ArchivePatch(archived));
      }
      db.habits.Put(updated);
      habits := ReplaceWhere(habits, HasId(habitId), updated);
    }

    /** `toggleToday`: flip the habit's entry for today, overwriting its value, or else
        insert a new completed entry under a fresh id and put it first. A failed insert
        leaves the mirror as it was. */
    method ToggleToday(habitId: string, value: Option<real>, today: Calendar.Date, newId: string, now: string)
      returns (ok: bool)
      requires Valid() && Calendar.Valid(today)
      modifies this, db.entries
      ensures Valid()
      ensures unchanged(db.habits) && habits == old(habits) && loading == old(loading)
      ensures !db.available ==> !ok && unchanged(this) && unchanged(db.entries)
      ensures var key := Calendar.Key(today);
        var u := ToggledRecord(old(entries), habitId, key, value, newId, now);
        && (ok <==> db.available && (FindFirst(old(entries), IsDayEntryOf(habitId, key)).None? ==> newId !in old(db.entries.rows)))
        && entries == (if ok then ToggledEntries(old(entries), habitId, key, value, newId, now) else old(entries))
        && db.entries.rows == (if ok then old(db.entries.rows)[u.id := u] else old(db.entries.rows))
      ensures old(InSync()) ==> InSync()
    {
      hide Mirrors, KeyedBy, UniqueBy, ReplaceWhere, Calendar.Key;
      if !db.available {
        return false;
      }
      var key := Calendar.Key(today);
      ghost var u := ToggledRecord(entries, habitId, key, value, newId, now);
      ghost var after := ToggledEntries(entries, habitId, key, value, newId, now);
      ToggleKeepsMirror(entries, db.entries.rows, db.entries.key, habitId, key, value, newId, now);
      var existing := FindFirst(entries, IsDayEntryOf(habitId, key));
      if existing.Some? {
        var e := entries[existing.value];
        var updated := e.(completed := !e.completed, value := value);
        assert updated == u;
        db.entries.Put(updated);
        entries := ReplaceWhere(entries, EntryHasId(updated.id), updated);
        assert entries == after;
        return true;
      }
      var entry := Entry(newId, habitId, key, value, true, now);
      ok := db.entries.Add(entry);
      if ok {
        entries := [entry] + entries;
      }
    }
  }
}
