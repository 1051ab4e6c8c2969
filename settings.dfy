/** The data logic of the Settings page: export, a snapshot of both tables, and import,
    which upserts the records of the chosen file into both tables in one transaction.
    Reading the file and parsing its JSON are abstracted into the `Document` the parse
    yields; the download of the export and the alerts are not modelled. */
module Settings {
  import opened Wrappers
  import opened Models
  import Strings
  import opened Db

  /** One top-level field of the parsed document as `Array.isArray` sees it: an array
      of items, or anything else (absent, `null`, an object, a number, ...). */
  datatype Field<T> = NotArray | Array(items: seq<Item<T>>)

  /** What reading and parsing the chosen file yields. `Unreadable`: reading the text or
      `JSON.parse` threw. `Null`: the text is `null`, whose fields cannot be read, so
      the first field access throws. `Value`: any other JSON value, seen through its
      `habits` and `entries` fields (a number, string or array has neither). */
  datatype Document = Unreadable | Null | Value(habits: Field<Habit>, entries: Field<Entry>)

  /** How an import ends, one per alert (or silent return) of the page. */
  datatype Outcome = Unavailable | NoFile | Completed | Failed

  /** The tables after an import, with how it ended. */
  datatype ImportResult = ImportResult(outcome: Outcome, habits: map<string, Habit>, entries: map<string, Entry>)

  /** The document an export writes. */
  datatype ExportData = ExportData(habits: seq<Habit>, entries: seq<Entry>)

  /** A field's effect on its table inside the transaction: an array is `bulkPut`,
      anything else is skipped; `None` when the `bulkPut` fails. */
  function PutField<T>(rows: map<string, T>, f: Field<T>, key: T -> string): (r: Option<map<string, T>>)
    ensures f.NotArray? ==> r == Some(rows)
    ensures f.Array? ==> (r.Some? <==> AllKeyed(f.items))
    ensures f.Array? && r.Some? ==> r.value == rows + BatchTable(f.items, key)
  {
    match f
    case NotArray => Some(rows)
    case Array(items) =>
      UpsertedMerges(rows, items, key);
      Upserted(rows, items, key)
  }

  lemma UpsertedMerges<T>(rows: map<string, T>, items: seq<Item<T>>, key: T -> string)
    ensures AllKeyed(items) ==> Upserted(rows, items, key) == Some(rows + BatchTable(items, key))
  {
    if AllKeyed(items) {
      UpsertedIsUnion(rows, items, key);
    }
  }

  /** The effect of `import`: nothing without storage or without a file; a failure,
      with both tables as they were, when the file cannot be read or parsed or a
      `bulkPut` fails (the transaction rolls back); otherwise both fields applied. */
  function Imported(habits: map<string, Habit>, entries: map<string, Entry>, available: bool,
                    file: Option<Document>, habitKey: Habit -> string, entryKey: Entry -> string): (r: ImportResult)
    ensures r.outcome != Completed ==> r.habits == habits && r.entries == entries
    ensures r.outcome == Unavailable <==> !available
    ensures r.outcome == NoFile <==> available && file.None?
    ensures r.outcome == Completed <==>
      && available && file.Some? && file.value.Value?
      && PutField(habits, file.value.habits, habitKey).Some?
      && PutField(entries, file.value.entries, entryKey).Some?
    ensures r.outcome == Completed ==>
      && r.habits == PutField(habits, file.value.habits, habitKey).value
      && r.entries == PutField(entries, file.value.entries, entryKey).value
  {
    if !available then ImportResult(Unavailable, habits, entries)
    else if file.None? then ImportResult(NoFile, habits, entries)
    else match file.value
      case Unreadable => ImportResult(Failed, habits, entries)
      case Null => ImportResult(Failed, habits, entries)
      case Value(hf, ef) =>
        match (PutField(habits, hf, habitKey), PutField(entries, ef, entryKey))
        case (Some(h), Some(e)) => ImportResult(Completed, h, e)
        case _ => ImportResult(Failed, habits, entries)
  }

  /** The parsed form of an exported document: both fields arrays of records. */
  function Reimport(x: ExportData): (d: Document)
    ensures d.Value? && d.habits.Array? && d.entries.Array?
    ensures AllKeyed(d.habits.items) && AllKeyed(d.entries.items)
  {
    Value(Array(seq(|x.habits|, i requires 0 <= i < |x.habits| => Record(x.habits[i]))),
          Array(seq(|x.entries|, i requires 0 <= i < |x.entries| => Record(x.entries[i]))))
  }

  /** A snapshot lists exactly the rows of the table. */
  lemma SnapshotContents<T>(rows: map<string, T>)
    ensures forall x :: x in Snapshot(rows) <==> x in rows.Values
  {
    var ks := Strings.SortSet(rows.Keys);
    var s := Snapshot(rows);
    forall x | x in rows.Values ensures x in s {
      var k :| k in rows && rows[k] == x;
      var i :| 0 <= i < |ks| && ks[i] == k;
      assert s[i] == x;
    }
  }

  /** Import merges: rows under ids the document does not list are kept, rows under ids
      it lists are overwritten by the document's record, and a field that is not an
      array leaves its table alone. */
  lemma ImportMerges(habits: map<string, Habit>, entries: map<string, Entry>, available: bool,
                     file: Option<Document>, habitKey: Habit -> string, entryKey: Entry -> string)
    requires Imported(habits, entries, available, file, habitKey, entryKey).outcome == Completed
    ensures var r := Imported(habits, entries, available, file, habitKey, entryKey);
      && (file.value.habits.NotArray? ==> r.habits == habits)
      && (file.value.entries.NotArray? ==> r.entries == entries)
      && (file.value.habits.Array? ==>
            var batch := BatchTable(file.value.habits.items, habitKey);
            r.habits.Keys == habits.Keys + batch.Keys
            && (forall k :: k in batch ==> r.habits[k] == batch[k])
            && (forall k :: k in habits && k !in batch ==> r.habits[k] == habits[k]))
      && (file.value.entries.Array? ==>
            var batch := BatchTable(file.value.entries.items, entryKey);
            r.entries.Keys == entries.Keys + batch.Keys
            && (forall k :: k in batch ==> r.entries[k] == batch[k])
            && (forall k :: k in entries && k !in batch ==> r.entries[k] == entries[k]))
  {
  }

  /** A field that is not an array is skipped, not rejected: the other table is still
      written. */
  lemma NonArraySkipped(habits: map<string, Habit>, entries: map<string, Entry>,
                        hs: seq<Item<Habit>>, es: seq<Item<Entry>>,
                        habitKey: Habit -> string, entryKey: Entry -> string)
    requires AllKeyed(hs) && AllKeyed(es)
    ensures Imported(habits, entries, true, Some(Value(NotArray, Array(es))), habitKey, entryKey)
      == ImportResult(Completed, habits, entries + BatchTable(es, entryKey))
    ensures Imported(habits, entries, true, Some(Value(Array(hs), NotArray)), habitKey, entryKey)
      == ImportResult(Completed, habits + BatchTable(hs, habitKey), entries)
  {
  }

  /** All or nothing: a `bulkPut` that fails on the second table also undoes the first
      table's write, even though that one alone would have succeeded. */
  lemma SecondFailureRollsBack(habits: map<string, Habit>, entries: map<string, Entry>,
                               hs: seq<Item<Habit>>, es: seq<Item<Entry>>,
                               habitKey: Habit -> string, entryKey: Entry -> string)
    requires AllKeyed(hs) && !AllKeyed(es)
    ensures PutField(habits, Array(hs), habitKey).Some?
    ensures Imported(habits, entries, true, Some(Value(Array(hs), Array(es))), habitKey, entryKey)
      == ImportResult(Failed, habits, entries)
  {
  }

  /** Importing the same document twice has the effect of importing it once. */
  lemma ImportIdempotent(habits: map<string, Habit>, entries: map<string, Entry>, available: bool,
                         file: Option<Document>, habitKey: Habit -> string, entryKey: Entry -> string)
    ensures var r := Imported(habits, entries, available, file, habitKey, entryKey);
      Imported(r.habits, r.entries, available, file, habitKey, entryKey).habits == r.habits
      && Imported(r.habits, r.entries, available, file, habitKey, entryKey).entries == r.entries
  {
    var r := Imported(habits, entries, available, file, habitKey, entryKey);
    if r.outcome == Completed {
      var d := file.value;
      if d.habits.Array? {
        var b := BatchTable(d.habits.items, habitKey);
        assert (habits + b) + b == habits + b;
      }
      if d.entries.Array? {
        var b := BatchTable(d.entries.items, entryKey);
        assert (entries + b) + b == entries + b;
      }
    }
  }

  /** Importing what an export just produced changes neither table. */
  lemma ExportRoundTrip(habits: map<string, Habit>, entries: map<string, Entry>,
                        habitKey: Habit -> string, entryKey: Entry -> string)
    requires KeyedBy(habits, habitKey) && KeyedBy(entries, entryKey)
    ensures Imported(habits, entries, true, Some(Reimport(ExportData(Snapshot(habits), Snapshot(entries)))), habitKey, entryKey)
      == ImportResult(Completed, habits, entries)
  {
    hide Snapshot, Upserted, BatchTable, KeyedBy;
    var hs, es := Snapshot(habits), Snapshot(entries);
    var d := Reimport(ExportData(hs, es));
    SnapshotContents(habits);
    SnapshotContents(entries);
    forall i | 0 <= i < |d.habits.items| ensures d.habits.items[i].Record? && d.habits.items[i].value in habits.Values {
      assert d.habits.items[i].value == hs[i];
    }
    forall i | 0 <= i < |d.entries.items| ensures d.entries.items[i].Record? && d.entries.items[i].value in entries.Values {
      assert d.entries.items[i].value == es[i];
    }
    BatchOfOwnRows(habits, d.habits.items, habitKey);
    BatchOfOwnRows(entries, d.entries.items, entryKey);
  }

  /** The Settings page over the shared database. */
  class SettingsPage {
    const db: Database

    constructor (db: Database)
      ensures this.db == db
    {
      this.db := db;
    }

    /** `export`: without storage nothing is read; otherwise every habit and every
        entry, unfiltered, in primary-key order. */
    method Export() returns (r: Option<ExportData>)
      ensures !db.available ==> r.None?
      ensures db.available ==> r == Some(ExportData(Snapshot(db.habits.rows), Snapshot(db.entries.rows)))
      ensures r.Some? ==>
        && (forall h :: h in r.value.habits <==> h in db.habits.rows.Values)
        && (forall e :: e in r.value.entries <==> e in db.entries.rows.Values)
    {
      if !db.available {
        return None;
      }
      var hs := db.habits.ToArray();
      var es := db.entries.ToArray();
      SnapshotContents(db.habits.rows);
      SnapshotContents(db.entries.rows);
      r := Some(ExportData(hs, es));
    }

    /** `import`: the storage guard, the file guard, then both `bulkPut`s in one
        transaction; when either fails, the transaction aborts and both tables are
        restored. */
    method Import(file: Option<Document>) returns (outcome: Outcome)
      requires db.Valid()
      modifies db.habits, db.entries
      ensures db.Valid()
      ensures var r := Imported(old(db.habits.rows), old(db.entries.rows), db.available, file,
                                db.habits.key, db.entries.key);
        outcome == r.outcome && db.habits.rows == r.habits && db.entries.rows == r.entries
    {
      if !db.available {
        return Unavailable;
      }
      if file.None? {
        return NoFile;
      }
      match file.value
      case Unreadable =>
        return Failed;
      case Null =>
        return Failed;
      case Value(hf, ef) =>
        var savedHabits, savedEntries := db.habits.rows, db.entries.rows;
        var ok := true;
        if hf.Array? {
          ok := db.habits.BulkPut(hf.items);
        }
        if ok && ef.Array? {
          ok := db.entries.BulkPut(ef.items);
        }
        if !ok {
          // the transaction aborts: every write made inside it is undone
          db.habits.rows := savedHabits;
          db.entries.rows := savedEntries;
          return Failed;
        }
        return Completed;
    }
  }
}
