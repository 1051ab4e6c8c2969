/** The persistent store: two tables keyed by the records' `id`, and whether durable
    storage exists in this execution context at all (`isBrowser && db`). Only the
    contract of the storage library is modelled: `toArray`, `put`, `add`, `bulkPut`
    and a transaction that commits all of its writes or none. */
module Db {
  import opened Wrappers
  import Strings
  import opened Models
  import opened Collections

  /** The rows of a table in primary-key order: what `toArray()` returns. */
  ghost function Snapshot<T>(rows: map<string, T>): (r: seq<T>)
    ensures |r| == |rows|
  {
    var ks := Strings.SortSet(rows.Keys);
    seq(|ks|, i requires 0 <= i < |ks| => rows[ks[i]])
  }

  /** An in-memory list mirrors a table: keys are unique in the list, every listed
      record is the table's row under its key, and every row is listed. */
  ghost predicate Mirrors<T>(s: seq<T>, rows: map<string, T>, key: T -> string) {
    && UniqueBy(s, key)
    && (forall i :: 0 <= i < |s| ==> key(s[i]) in rows && rows[key(s[i])] == s[i])
    && (forall k :: k in rows ==> exists i :: 0 <= i < |s| && key(s[i]) == k)
  }

  ghost predicate KeyedBy<T>(rows: map<string, T>, key: T -> string) {
    forall k :: k in rows ==> key(rows[k]) == k
  }

  /** A snapshot of a table mirrors it. */
  lemma SnapshotMirrors<T>(rows: map<string, T>, key: T -> string)
    requires KeyedBy(rows, key)
    ensures Mirrors(Snapshot(rows), rows, key)
  {
    var ks := Strings.SortSet(rows.Keys);
    var s := Snapshot(rows);
    forall i, j | 0 <= i < j < |s| ensures key(s[i]) != key(s[j]) {
      Strings.LessIrreflexive(ks[i]);
    }
    forall k | k in rows ensures exists i :: 0 <= i < |s| && key(s[i]) == k {
      var i :| 0 <= i < |ks| && ks[i] == k;
      assert key(s[i]) == k;
    }
  }

  /** Write-through for an insert: prepending the record written under a fresh key
      keeps the list mirroring the table. */
  lemma MirrorsPrepend<T>(s: seq<T>, rows: map<string, T>, key: T -> string, x: T)
    requires Mirrors(s, rows, key) && key(x) !in rows
    ensures Mirrors([x] + s, rows[key(x) := x], key)
  {
    var s', rows' := [x] + s, rows[key(x) := x];
    forall k | k in rows' ensures exists i :: 0 <= i < |s'| && key(s'[i]) == k {
      if k != key(x) {
        var i :| 0 <= i < |s| && key(s[i]) == k;
        assert key(s'[i + 1]) == k;
      } else {
        assert key(s'[0]) == k;
      }
    }
  }

  /** Write-through for an update in place: replacing the listed record with key `k` by
      the record just written under `k` keeps the list mirroring the table. */
  lemma MirrorsReplace<T>(s: seq<T>, rows: map<string, T>, key: T -> string, p: T -> bool, x: T)
    requires Mirrors(s, rows, key) && key(x) in rows
    requires forall y :: p(y) <==> key(y) == key(x)
    ensures Mirrors(ReplaceWhere(s, p, x), rows[key(x) := x], key)
  {
    var s', rows' := ReplaceWhere(s, p, x), rows[key(x) := x];
    forall i | 0 <= i < |s| ensures key(s'[i]) == key(s[i]) && (key(s[i]) != key(x) ==> s'[i] == s[i]) {
      assert p(s[i]) <==> key(s[i]) == key(x);
    }
    forall i | 0 <= i < |s'| ensures key(s'[i]) in rows' && rows'[key(s'[i])] == s'[i] {
      assert p(s[i]) <==> key(s[i]) == key(x);
    }
    forall k | k in rows' ensures exists i :: 0 <= i < |s'| && key(s'[i]) == k {
      var i :| 0 <= i < |s| && key(s[i]) == k;
      assert key(s'[i]) == k;
    }
  }

  /** An element of a `bulkPut` batch: a record, or a value from which no primary key
      can be read (which makes the request fail). */
  datatype Item<T> = Record(value: T) | Keyless

  /** The table a batch describes on its own: each record under its key, a later
      record with the same key winning. */
  function BatchTable<T>(items: seq<Item<T>>, key: T -> string): map<string, T>
  {
    if items == [] then map[]
    else match items[0]
      case Record(x) => map[key(x) := x] + BatchTable(items[1..], key)
      case Keyless => BatchTable(items[1..], key)
  }

  predicate AllKeyed<T>(items: seq<Item<T>>) {
    forall i :: 0 <= i < |items| ==> items[i].Record?
  }

  /** The rows after `bulkPut(items)`, one upsert after another; `None` when an item has
      no key, in which case the request fails. */
  function Upserted<T>(rows: map<string, T>, items: seq<Item<T>>, key: T -> string): (r: Option<map<string, T>>)
    ensures r.Some? <==> AllKeyed(items)
    decreases |items|
  {
    if items == [] then Some(rows)
    else match items[0]
      case Keyless => None
      case Record(x) => Upserted(rows[key(x) := x], items[1..], key)
  }

  /** `bulkPut` merges: it is the union of the old rows with the batch's own table, the
      batch winning on shared keys and every other row kept. */
  lemma {:induction false} UpsertedIsUnion<T>(rows: map<string, T>, items: seq<Item<T>>, key: T -> string)
    requires AllKeyed(items)
    ensures Upserted(rows, items, key) == Some(rows + BatchTable(items, key))
    decreases |items|
  {
    if items != [] {
      var x := items[0].value;
      assert items[0] == Record(x);
      UpsertedIsUnion(rows[key(x) := x], items[1..], key);
      assert BatchTable(items, key) == map[key(x) := x] + BatchTable(items[1..], key);
      assert rows[key(x) := x] + BatchTable(items[1..], key) == rows + (map[key(x) := x] + BatchTable(items[1..], key));
    } else {
      assert rows + map[] == rows;
    }
  }

  /** Every row of a batch's table sits under its own key. */
  lemma {:induction false} BatchTableKeyed<T>(items: seq<Item<T>>, key: T -> string)
    ensures KeyedBy(BatchTable(items, key), key)
  {
    if items != [] {
      BatchTableKeyed(items[1..], key);
    }
  }

  /** A `bulkPut` of the records a table already holds changes nothing. */
  lemma {:induction false} BatchOfOwnRows<T>(rows: map<string, T>, items: seq<Item<T>>, key: T -> string)
    requires KeyedBy(rows, key)
    requires forall i :: 0 <= i < |items| ==> items[i].Record? && items[i].value in rows.Values
    ensures rows + BatchTable(items, key) == rows
  {
    if items != [] {
      BatchOfOwnRows(rows, items[1..], key);
      var x := items[0].value;
      var k :| k in rows && rows[k] == x;
      assert rows + (map[key(x) := x] + BatchTable(items[1..], key)) == (rows + BatchTable(items[1..], key))[key(x) := x];
    }
  }

  /** One table of the store. */
  class Table<T> {
    /** The inbound primary key (`id`). */
    const key: T -> string
    var rows: map<string, T>

    ghost predicate Valid()
      reads this
    {
      KeyedBy(rows, key)
    }

    constructor (key: T -> string)
      ensures this.key == key && rows == map[] && Valid()
    {
      this.key := key;
      rows := map[];
    }

    /** `toArray()`: every row, in primary-key order. */
    method ToArray() returns (r: seq<T>)
      ensures r == Snapshot(rows)
    {
      var all := rows;
      var ks := Strings.SortKeys(all.Keys);
      r := seq(|ks|, i requires 0 <= i < |ks| => all[ks[i]]);
    }

    /** `put(x)`: insert or replace the row under the record's key. */
    method Put(x: T)
      requires Valid()
      modifies this
      ensures Valid()
      ensures rows == old(rows)[key(x) := x]
    {
      rows := rows[key(x) := x];
    }

    /** `add(x)`: insert; the request fails, writing nothing, when the key is taken. */
    method Add(x: T) returns (ok: bool)
      requires Valid()
      modifies this
      ensures Valid()
      ensures ok <==> key(x) !in old(rows)
      ensures rows == if ok then old(rows)[key(x) := x] else old(rows)
    {
      ok := key(x) !in rows;
      if ok {
        rows := rows[key(x) := x];
      }
    }

    /** `bulkPut(items)` as the import runs it, inside a transaction: upsert the records in
        order; a keyless item fails the request and nothing of it is written. Outside a
        transaction the store would keep the records that succeeded; here the batch is all
        or nothing because the enclosing transaction rolls back every write of a failed
        request. */
    method BulkPut(items: seq<Item<T>>) returns (ok: bool)
      requires Valid()
      modifies this
      ensures Valid()
      ensures ok <==> AllKeyed(items)
      ensures rows == if ok then old(rows) + BatchTable(items, key) else old(rows)
    {
      var staged := rows;
      var i := 0;
      while i < |items|
        invariant 0 <= i <= |items|
        invariant KeyedBy(staged, key)
        invariant Upserted(rows, items, key) == Upserted(staged, items[i..], key)
      {
        match items[i]
        case Keyless =>
          return false;
        case Record(x) =>
          assert items[i..][1..] == items[i + 1..];
          staged := staged[key(x) := x];
        i := i + 1;
      }
      assert items[i..] == [];
      UpsertedIsUnion(rows, items, key);
      rows := staged;
      ok := true;
    }
  }

  /** The application's database: the two tables, and whether durable storage exists in
      this execution context (`isBrowser && db`), fixed for the life of the process. */
  class Database {
    const available: bool
    const habits: Table<Habit>
    const entries: Table<Entry>

    ghost predicate Valid()
      reads this, habits, entries
    {
      && habits.Valid() && entries.Valid()
      && (forall h: Habit :: habits.key(h) == h.id)
      && (forall e: Entry :: entries.key(e) == e.id)
    }

    constructor (available: bool)
      ensures Valid() && this.available == available
      ensures fresh(habits) && fresh(entries)
      ensures habits.rows == map[] && entries.rows == map[]
    {
      this.available := available;
      habits := new Table((h: Habit) => h.id);
      entries := new Table((e: Entry) => e.id);
    }
  }
}
