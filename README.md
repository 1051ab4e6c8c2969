# streaksmith core in Dafny

A verified model of the data layer and analytics engine of streaksmith, a local-first habit
tracker. Users define habits and log completions per calendar day. The application keeps
both in two IndexedDB tables and mirrors them in memory. From that mirror it derives the
Today view, the analytics (streaks, the 7-day rate, the 30-day heat map), and a JSON
export and import.

The modules follow the source:

- `Models` (models.dfy): `Habit` and `Entry`. Optional fields are `Option`s.
  - `frequency` is a two-constructor datatype, so it is exactly one of daily or custom.
  - Custom days are the subset type `Weekday` (0..6, 0 = Sunday).
  - A target is a kind (count or minutes) and an amount.
  - `IsArchived` reads an absent `archived` flag as false.
- `Db` (db.dfy): the contract of the storage library. It provides:
  - `Table`, a map from id to record, with `toArray`, `put`, `add` and `bulkPut`;
  - `Database`, the two tables plus the one availability flag `isBrowser && db`;
  - `Mirrors`, the write-through invariant between a list and a table.
- `Store` (store.dfy): the class `HabitStore`, whose fields are the mirror and whose
  methods are the five operations. Each operation is tied to a function of the old state,
  with lemmas about that function.
- `Calendar` (calendar.dfy) models the date handling:
  - the proleptic Gregorian calendar;
  - the `yyyy-MM-dd` key;
  - the day arithmetic of `addDays`/`subDays`;
  - reading a key back as a day.

  `Strings` (strings.dfy) models JavaScript's default string order and the sort built on it.
- `Analytics` (analytics.dfy): every computed member of the analytics page. Each loop is a
  method proved equal to a specification function, and the properties are lemmas about
  that function.
- `Today` (today.dfy): the Today page's derived views, its `values` record and its
  prefill.
- `Settings` (settings.dfy): export and the transactional import.
- `Collections` (collections.dfy) and `Wrappers` (wrappers.dfy): `filter`, `find`, the
  replacing `map`, and `Option`.

"Today", the new-record id (`crypto.randomUUID()`) and the ISO timestamp are parameters.
The parsed import file is an abstract `Document`.

A `habits` or `entries` field of an import document that is not an array is skipped,
not rejected, and the other field is still written (settings.page.ts:57-58;
`Settings.NonArraySkipped`).

## Model

| member | source | states |
|---|---|---|
| Calendar.NextDay | src/app/features/analytics/analytics.page.ts:202 | the day after a valid day is a valid day and comes after it |
| Calendar.PrevDay | src/app/features/analytics/analytics.page.ts:179 | the day before a valid day is a valid day and comes before it |
| Calendar.PrevNext | src/app/features/analytics/analytics.page.ts:132-136 | stepping back and forward one day are inverse to each other |
| Calendar.NextDayIsSuccessor | src/app/features/analytics/analytics.page.ts:200-204 | no day lies strictly between a day and its next day |
| Calendar.AddDaysSucc | src/app/features/analytics/analytics.page.ts:132-136 | adding n+1 days is adding n days, then one more (and inversely for one less) |
| Calendar.AddDaysAdd | src/app/features/analytics/analytics.page.ts:132-136 | `addDays(subDays(today, 29), i)` is `today + (i - 29)`: offsets compose |
| Calendar.AddDaysMonotone | src/app/features/analytics/analytics.page.ts:135-137 | a larger offset gives a later day |
| Calendar.Decimal | src/app/core/store/habit.store.ts:6 | zero-padded decimal digits: at least the requested width, all digits |
| Calendar.DecimalInjective | src/app/features/analytics/analytics.page.ts:228 | different numbers print differently |
| Calendar.DecimalOrder | src/app/features/analytics/analytics.page.ts:189 | for fixed width, string order of padded numerals is numeric order |
| Calendar.KeyInjective | src/app/core/store/habit.store.ts:6 | two days with the same `yyyy-MM-dd` key are the same day |
| Calendar.KeyOrder | src/app/features/analytics/analytics.page.ts:189 | for years 1..9999 the lexicographic order of keys is the chronological order of days, in both directions |
| Calendar.DecimalRoundTrip | src/app/features/analytics/analytics.page.ts:201 | reading back the digits of a padded numeral gives the number |
| Calendar.ParseKey | src/app/features/analytics/analytics.page.ts:201-203 | a string read back as a day is a day of years 1..9999 whose key is that very string |
| Calendar.ParseKeyOfKey | src/app/features/analytics/analytics.page.ts:201-203 | every key of a day of years 1..9999 reads back as that day |
| Strings.LessTotal | src/app/features/analytics/analytics.page.ts:189 | the default sort order is total: two strings are equal or one sorts first |
| Strings.LessTransitive | src/app/features/analytics/analytics.page.ts:189 | the default sort order is transitive |
| Strings.SortSet | src/app/features/analytics/analytics.page.ts:189 | the sorted listing of a set of keys is strictly increasing and holds exactly the set |
| Strings.SortedUnique | src/app/features/analytics/analytics.page.ts:189 | a strictly sorted listing of a set is unique |
| Strings.SortKeys | src/app/features/analytics/analytics.page.ts:189 | sorting the map's keys yields the unique strictly sorted listing of them |
| Collections.FilterMembers | src/app/core/store/habit.store.ts:16 | a filter keeps exactly the elements that pass |
| Collections.FilterConcat | src/app/core/store/habit.store.ts:16 | a filter keeps the order: the filter of a concatenation is the concatenation of the filters |
| Collections.FindFirst | src/app/core/store/habit.store.ts:37 | `find` returns the first element that passes, or none when none passes |
| Collections.FilterSingle | src/app/core/store/habit.store.ts:47 | when exactly one element passes, `find` finds it and no other element passes |
| Db.Snapshot | src/app/core/store/habit.store.ts:22 | `toArray()` lists one record per row |
| Db.SnapshotMirrors | src/app/core/store/habit.store.ts:22-24 | a table's snapshot mirrors the table |
| Db.MirrorsPrepend | src/app/core/store/habit.store.ts:31-32 | writing a record under a fresh id and prepending it keeps the mirror in step |
| Db.MirrorsReplace | src/app/core/store/habit.store.ts:40-41 | putting a record under an existing id and replacing it in place keeps the mirror in step |
| Db.Upserted | src/app/features/settings/settings.page.ts:57-58 | `bulkPut` succeeds exactly when every item has a key |
| Db.UpsertedIsUnion | src/app/features/settings/settings.page.ts:57-58 | `bulkPut` merges: old rows united with the batch's own table, the batch winning |
| Db.BatchTableKeyed | src/app/core/db/dexie-db.ts:15-16 | every record of a batch lands under its own primary key |
| Db.BatchOfOwnRows | src/app/features/settings/settings.page.ts:34 | a `bulkPut` of records the table already holds changes nothing |
| Db.Table.ToArray | src/app/core/store/habit.store.ts:22 | `toArray()` returns the rows in primary-key order |
| Db.Table.Put | src/app/core/store/habit.store.ts:40 | `put` inserts or replaces the row under the record's key and nothing else |
| Db.Table.Add | src/app/core/store/habit.store.ts:31 | `add` inserts when the key is free and otherwise fails, writing nothing |
| Db.Table.BulkPut | src/app/features/settings/settings.page.ts:57 | the call succeeds exactly when every item has a key, and then the rows are the old rows overridden by the batch, otherwise the rows are unchanged |
| Db.Database.constructor | src/app/core/db/dexie-db.ts:12-22 | two empty tables keyed by `id`, with a fixed availability flag |
| Store.PatchInPlace | src/app/core/store/habit.store.ts:70-74 | `updateHabit` keeps length and positions; the habit with that id becomes the shallow merge with the patch, the others stay; an absent id changes nothing |
| Store.ArchiveInPlace | src/app/core/store/habit.store.ts:37-41 | archiving keeps length and positions and changes only the `archived` field of the habit with that id |
| Store.ToggleExistingInPlace | src/app/core/store/habit.store.ts:47-53 | toggling an existing entry flips `completed`, overwrites `value` even with undefined, keeps length, and leaves every other entry alone |
| Store.ToggleOne | src/app/core/store/habit.store.ts:47-53 | with exactly one (habit, today) entry, a toggle leaves exactly one, flipped, and ids stay unique |
| Store.ToggleNone | src/app/core/store/habit.store.ts:56-65 | with no (habit, today) entry, a toggle creates exactly one, completed, dated today |
| Store.ToggleSeriesFromOne | src/app/core/store/habit.store.ts:47-53 | n further toggles of a single entry leave that single entry with its parity flipped n times |
| Store.ToggleParity | src/app/core/store/habit.store.ts:44-65 | after n >= 1 toggles from none, exactly one (habit, today) entry exists; `completed` is (n odd) and `value` is the last call's |
| Store.PatchKeepsMirror | src/app/core/store/habit.store.ts:72-74 | a patch that keeps the id keeps the habit mirror in step with the table |
| Store.ToggleKeepsMirror | src/app/core/store/habit.store.ts:50-52 | a toggle keeps the entry mirror in step with the table |
| Store.HabitStore.constructor | src/app/core/store/habit.store.ts:11-13 | the mirror starts empty and not loading |
| Store.HabitStore.TodayEntries | src/app/core/store/habit.store.ts:16 | `todayEntries` holds exactly the entries dated with today's key |
| Store.HabitStore.LoadAll | src/app/core/store/habit.store.ts:19-26 | without storage nothing changes; otherwise both mirrors become the table snapshots, `loading` ends false, and the mirror is in sync |
| Store.HabitStore.AddHabit | src/app/core/store/habit.store.ts:28-33 | the new habit carries the given id and timestamp, is written, and is prepended before the previous habits in order; a failed insert or missing storage changes nothing; sync is kept |
| Store.HabitStore.ArchiveHabit | src/app/core/store/habit.store.ts:35-42 | without storage or with an absent id nothing changes; otherwise the archived record is written and replaced in place; sync is kept |
| Store.HabitStore.UpdateHabit | src/app/core/store/habit.store.ts:68-75 | without storage or with an absent id nothing changes; otherwise the merged record is written and replaced in place; sync is kept when the patch keeps the id |
| Store.HabitStore.ToggleToday | src/app/core/store/habit.store.ts:44-66 | without storage nothing changes; otherwise the flipped or new entry is written and the mirror updated in place or by prepending; sync is kept |
| Analytics.ByDate | src/app/features/analytics/analytics.page.ts:120-127 | the count for a day is the number of completed entries on that day; only days with a count of at least 1 are keys |
| Analytics.ByDateKeys | src/app/features/analytics/analytics.page.ts:120-127 | a day is a key exactly when some completed entry carries it |
| Analytics.EntriesByDate | src/app/features/analytics/analytics.page.ts:120-127 | the loop builds exactly that map |
| Analytics.Last30Days | src/app/features/analytics/analytics.page.ts:130-141 | 30 cells; cell i is day today+(i-29) with its count or 0; the last cell is today |
| Analytics.Last30Consecutive | src/app/features/analytics/analytics.page.ts:130-141 | neighbouring cells are consecutive days, oldest first |
| Analytics.Last30Cells | src/app/features/analytics/analytics.page.ts:130-141 | the loop builds exactly that window |
| Analytics.Pad | src/app/features/analytics/analytics.page.ts:160-166 | a padded row has 7 cells, starts with the row, and the rest are blanks (`""`, 0) |
| Analytics.WeeksShape | src/app/features/analytics/analytics.page.ts:148-166 | grouping n cells gives ceil(n/7) rows of exactly 7 |
| Analytics.WeeksFlatten | src/app/features/analytics/analytics.page.ts:148-166 | concatenating the rows gives back the input followed by only blank cells |
| Analytics.Weeks30 | src/app/features/analytics/analytics.page.ts:146-166 | 30 days make 5 rows; the last holds the final 2 days and 5 blanks |
| Analytics.PadRowsWeeks | src/app/features/analytics/analytics.page.ts:157-166 | full rows plus the short last row, padded, are the grouping |
| Analytics.CellsByWeek | src/app/features/analytics/analytics.page.ts:143-167 | the loop builds exactly the grouping |
| Analytics.CloseRow | src/app/features/analytics/analytics.page.ts:152-155 | a row closed at seven cells is the next row of the grouping |
| Analytics.DaysAgo | src/app/features/analytics/analytics.page.ts:179 | `subDays(today, j)` is a valid day |
| Analytics.DaysAgoKeysDiffer | src/app/features/analytics/analytics.page.ts:176-179 | the streak loop never visits the same key twice |
| Analytics.RunKeysCard | src/app/features/analytics/analytics.page.ts:170-183 | k steps back from today visit k distinct keys |
| Analytics.ActiveRunBound | src/app/features/analytics/analytics.page.ts:170-183 | an active run is no longer than the number of days in the map, so the `while (true)` loop ends |
| Analytics.CurrentStreakUnique | src/app/features/analytics/analytics.page.ts:170-183 | at most one k has today..today-(k-1) active and today-k inactive |
| Analytics.CurrentStreakFacts | src/app/features/analytics/analytics.page.ts:170-183 | the streak is 0 exactly when today has no completion, and is at most the number of completed days |
| Analytics.CurrentStreak | src/app/features/analytics/analytics.page.ts:170-183 | the loop returns the k where today..today-(k-1) all have a count and today-k has none |
| Analytics.ScanKeysFails | src/app/features/analytics/analytics.page.ts:193-211 | the scan throws exactly when a truthy key other than the last does not read back as a day |
| Analytics.StepCur | src/app/features/analytics/analytics.page.ts:200-210 | one step extends `cur` when the key is the day after `prev` and active, restarts it otherwise, and keeps `best` as the maximum |
| Analytics.ScanKeysSound | src/app/features/analytics/analytics.page.ts:193-211 | after the scan, `cur` is the longest run ending at the last key and `best` the longest run anywhere, attained by some run |
| Analytics.BestStreakThrows | src/app/features/analytics/analytics.page.ts:185-213 | `bestStreak` throws exactly when a sorted key other than the last is truthy and unreadable |
| Analytics.BestStreakBound | src/app/features/analytics/analytics.page.ts:185-213 | every run of consecutive active days in sorted key order is at most `bestStreak` |
| Analytics.BestStreakAttained | src/app/features/analytics/analytics.page.ts:185-213 | a positive `bestStreak` is the length of some run, so it is the longest |
| Analytics.BestStreakAtMost | src/app/features/analytics/analytics.page.ts:185-213 | `bestStreak` is at most the number of distinct completed days |
| Analytics.BestStreakPositive | src/app/features/analytics/analytics.page.ts:185-213 | any completed day makes `bestStreak` at least 1 |
| Analytics.BestStreakZero | src/app/features/analytics/analytics.page.ts:186-187 | `bestStreak` is 0 exactly when there are no completions |
| Analytics.BestStreak | src/app/features/analytics/analytics.page.ts:185-213 | the loop's result equals `BestStreakOf`, the longest run of active days each one day after the previous in sorted key order, or `None` exactly where the source's `format` throws |
| Analytics.ActiveDays | src/app/features/analytics/analytics.page.ts:218-221 | the number of active days among the last n is at most n |
| Analytics.PercentTable | src/app/features/analytics/analytics.page.ts:222 | `Math.round(ok / 7 * 100)` for ok = 0..7 is 0, 14, 29, 43, 57, 71, 86, 100 |
| Analytics.PercentRange | src/app/features/analytics/analytics.page.ts:222 | the rate lies in [0, 100], is 0 iff ok = 0, is 100 iff ok = 7, and never decreases as ok grows |
| Analytics.ActiveRunAllActive | src/app/features/analytics/analytics.page.ts:215-221 | with a current streak of at least n, all of the last n days count as active |
| Analytics.SevenDayPct | src/app/features/analytics/analytics.page.ts:215-223 | the loop returns the rounded percentage of active days among today..today-6 |
| Analytics.Tooltip | src/app/features/analytics/analytics.page.ts:225-230 | the tooltip is empty exactly for padding cells; otherwise it starts with the day key |
| Analytics.TooltipWording | src/app/features/analytics/analytics.page.ts:228-229 | "date — 1 habit" for a count of 1, "date — N habits" otherwise |
| Analytics.HabitsLabelInjective | src/app/features/analytics/analytics.page.ts:228 | different counts get different labels |
| Analytics.TooltipDeterminesCell | src/app/features/analytics/analytics.page.ts:225-230 | among real cells whose dates have the same length, equal tooltips mean equal day and count |
| Analytics.LinkedDays | src/app/features/analytics/analytics.page.ts:201-204 | when every key of the map reads back as a day, the key of a day in the map is followed, by the scan's test, by the key of the next day |
| Analytics.NextDayAdjacent | src/app/features/analytics/analytics.page.ts:189 | when every key of the map reads back as a day and a day and the next both have keys, they are neighbours in sorted order |
| Analytics.StreakIsRun | src/app/features/analytics/analytics.page.ts:170-211 | when every key of the map reads back as a day, the current streak's days form a run in sorted key order, ending at today's key |
| Analytics.WellFormedScans | src/app/features/analytics/analytics.page.ts:201-203 | when every key reads back as a day, `bestStreak` does not throw |
| Analytics.BestStreakAtLeastCurrent | src/app/features/analytics/analytics.page.ts:170-213 | when every key reads back as a day, `bestStreak` is at least `currentStreak` |
| Today.DueHabits | src/app/features/today/today.page.ts:97 | the due habits are exactly the listed habits whose `archived` is not true (an absent flag counts as false) |
| Today.DueHabitsInOrder | src/app/features/today/today.page.ts:97 | the due list is an order-preserving subsequence |
| Today.DueHabitsAll | src/app/features/today/today.page.ts:97 | a list without archived habits is due in full |
| Today.CompletedOfKeys | src/app/features/today/today.page.ts:99-103 | `completedMap` has a key exactly for the habits with a today-entry |
| Today.CompletedOfLastWins | src/app/features/today/today.page.ts:99-103 | a habit's flag is the `completed` of its last today-entry in list order |
| Today.ValuesOfKeys | src/app/features/today/today.page.ts:106-112 | `valueMap` has a key exactly for the habits with a today-entry carrying a value |
| Today.ValuesOfLastWins | src/app/features/today/today.page.ts:106-112 | a habit's value is that of its last today-entry carrying one |
| Today.ValuesOfWithinCompleted | src/app/features/today/today.page.ts:99-112 | every key of `valueMap` is a key of `completedMap` |
| Today.ToggleArgumentAfterPrefill | src/app/features/today/today.page.ts:33 | after the prefill, a habit with a target re-sends the last value it logged today |
| Today.ToggleArgumentWithoutLog | src/app/features/today/today.page.ts:33 | the prefill does not change the argument of a habit that logged no value today |
| Today.ToggleArgumentDefault | src/app/features/today/today.page.ts:33 | a habit with a target, no amount typed in and no value logged today passes its target amount |
| Today.TodayPage.constructor | src/app/features/today/today.page.ts:85 | `values` starts empty |
| Today.TodayPage.CompletedMap | src/app/features/today/today.page.ts:99-103 | the loop builds exactly the fold of today's entries |
| Today.TodayPage.ValueMap | src/app/features/today/today.page.ts:106-112 | the loop builds exactly the fold of today's entries that carry a value |
| Today.TodayPage.Prefill | src/app/features/today/today.page.ts:90-92 | `values` becomes the old record overridden by today's logged values; other keys are untouched |
| Today.TodayPage.OnInit | src/app/features/today/today.page.ts:87-94 | with storage both mirrors become the tables' snapshots and `loading` ends false; without storage the store is unchanged; then `values` is prefilled from today's entries |
| Settings.PutField | src/app/features/settings/settings.page.ts:57-58 | a non-array field is skipped; an array field fails exactly when an item has no key, and otherwise merges into the table |
| Settings.Imported | src/app/features/settings/settings.page.ts:44-65 | Unavailable iff no storage, NoFile iff no file; Completed iff the document is readable and non-null and both `bulkPut`s succeed; every other outcome leaves both tables unchanged |
| Settings.Reimport | src/app/features/settings/settings.page.ts:34 | an exported document re-reads as two arrays of keyed records |
| Settings.SnapshotContents | src/app/features/settings/settings.page.ts:34 | the export lists exactly the rows of each table |
| Settings.ImportMerges | src/app/features/settings/settings.page.ts:57-58 | import merges by id: listed ids are overwritten, unlisted rows kept, non-array fields leave their table alone |
| Settings.NonArraySkipped | src/app/features/settings/settings.page.ts:57-58 | a non-array field is skipped, not rejected: the other table is still written |
| Settings.SecondFailureRollsBack | src/app/features/settings/settings.page.ts:56-59 | when the entries `bulkPut` fails, the habits write that would have succeeded is undone too |
| Settings.ImportIdempotent | src/app/features/settings/settings.page.ts:56-59 | importing the same document twice equals importing it once |
| Settings.ExportRoundTrip | src/app/features/settings/settings.page.ts:34 | importing what export just produced completes and leaves both tables equal to their state before |
| Settings.SettingsPage.Export | src/app/features/settings/settings.page.ts:28-42 | without storage nothing is read; otherwise both full snapshots, holding every row unfiltered |
| Settings.SettingsPage.Import | src/app/features/settings/settings.page.ts:44-65 | the tables and the outcome are those of `Imported`: guard, file check, both `bulkPut`s in one all-or-nothing transaction |

## Left out

- Time zones, daylight saving and the JavaScript `Date` object are not modelled. "Today" is a calendar day passed as a parameter. The source's separate `new Date()` calls can straddle midnight; the model uses one "today" per computation.
- The date library (`format`, `addDays`, `subDays`, `new Date(key + 'T00:00:00')`) is replaced by an exact Gregorian calendar. A key reads back as a day only in its canonical `yyyy-MM-dd` form for years 1..9999. The lenient parsing of other strings by the JavaScript engine is not modelled: every other string counts as an invalid date, on which `format` throws.
- `Strings.Less` compares characters by code point, while JavaScript compares UTF-16 code units. These agree on the digit-and-dash keys the model reasons about.
- Analytics.SevenDayPct: the rate is computed in exact rational arithmetic, not floating point. No ratio k/7·100 falls on .5, so rounding agrees.
- Analytics.BestStreakAtLeastCurrent: requires every key of the count map to read back as a day of a year in 1..9999. Two kinds of key fall outside this: keys the JavaScript engine's lenient `Date` parse reads although they are not canonical `yyyy-MM-dd` keys, and keys of years outside 1..9999, whose string order is not chronological. The model reads every non-canonical key as unreadable, so `BestStreakOf` is `None` on such a key, while the source may read it leniently and break the run there.
- Analytics.BestStreak: returns `None` where the source's `format` throws (an unreadable key followed by another key); the exception itself, and the lenient `Date` parse of non-canonical keys, are not modelled.
- Store.HabitStore.UpdateHabit: write-through is proved only for patches whose `id` is absent or equals the target id. A patch that changes the id writes a new row and leaves the old one in the table.
- Asynchronous interleaving of operations and `Promise.all` are not modelled: each operation runs to completion.
- `crypto.randomUUID()` and `new Date().toISOString()` are parameters (`newId`, `now`). A colliding id makes `add` fail, and the model covers that path rather than assuming freshness.
- JSON text, `JSON.stringify`/`JSON.parse`, `file.text()`, the Blob download, `alert` and `console.error` are I/O. The parsed file is the abstract `Settings.Document`, and an export is re-read as its `Settings.Reimport` form.
- Imported records are either well-typed records or items without a key. Other record shapes, and extra or wrongly typed fields, are not modelled.
- The Today page's number input writes user edits into `values` through a two-way binding (possibly as null). This binding is presentation and is not modelled, so `values` holds only numbers.
- The displayed amount `(valueMap()[h.id] ?? values[h.id]) || 0` and the rest of the page templates are presentation and are not modelled.
- The Analytics page's `ngOnInit`, which only calls `loadAll`, is not modelled separately.
- Seed and wipe operations do not appear in the modelled files.
- Calendar.Key: for a year of 0 or below the key starts with a minus sign, which is this model's own injective choice. The formatter's `yyyy` writes the year of the era there instead.
- Db.Table.BulkPut: models `bulkPut` only as the import runs it, inside a transaction, so a failed batch writes nothing. Called outside a transaction, the store would keep the records that succeeded; no modelled operation does that.
