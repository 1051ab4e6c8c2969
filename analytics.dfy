/** The computed members of the analytics page: completions per day, the 30-day
    heat-map window and its grouping into rows of seven, the current and best streaks,
    the 7-day completion rate and the cell tooltip. Each loop of the source is a method
    proved equal to a specification function; "today" is a parameter. */
module Analytics {
  import opened Wrappers
  import opened Models
  import opened Collections
  import Strings
  import Calendar

  /** A heat-map cell: a day key (empty for padding) and its completion count. */
  datatype DayCell = DayCell(date: string, count: nat)

  /** The cell used to pad a short row. */
  const Blank := DayCell("", 0)

  // ---- completions per day (entriesByDate) ----

  function CompletedOn(date: string): Entry -> bool {
    (e: Entry) => e.completed && e.date == date
  }

  /** The number of completed entries dated `date`. */
  function Count(entries: seq<Entry>, date: string): nat {
    |Filter(entries, CompletedOn(date))|
  }

  /** The days on which something was completed. */
  function CompletedDays(entries: seq<Entry>): set<string> {
    set e | e in entries && e.completed :: e.date
  }

  /** `byDate.get(key) ?? 0`. */
  function CountOf(byDate: map<string, nat>, key: string): nat {
    if key in byDate then byDate[key] else 0
  }

  /** The completion-count map, one entry at a time: a completed entry adds one to
      its day's count. It holds exactly the days with a completion, each with its
      count. */
  function ByDate(entries: seq<Entry>): (m: map<string, nat>)
    ensures forall d :: CountOf(m, d) == Count(entries, d)
    ensures forall d :: d in m <==> Count(entries, d) > 0
    decreases |entries|
  {
    if entries == [] then map[]
    else
      var rest, e := entries[..|entries| - 1], entries[|entries| - 1];
      var m := ByDate(rest);
      assert entries == rest + [e];
      forall d ensures Count(entries, d) == Count(rest, d) + (if e.completed && e.date == d then 1 else 0) {
        CountStep(rest, e, d);
      }
      if e.completed then m[e.date := CountOf(m, e.date) + 1] else m
  }

  lemma CountStep(entries: seq<Entry>, e: Entry, d: string)
    ensures Count(entries + [e], d) == Count(entries, d) + (if e.completed && e.date == d then 1 else 0)
  {
    FilterConcat(entries, [e], CompletedOn(d));
    assert Filter([e], CompletedOn(d)) == (if CompletedOn(d)(e) then [e] else []) + Filter([], CompletedOn(d));
  }

  /** A day is in the map exactly when some completed entry carries it. */
  lemma ByDateKeys(entries: seq<Entry>, d: string)
    ensures d in ByDate(entries) <==> exists e :: e in entries && e.completed && e.date == d
  {
    var f := Filter(entries, CompletedOn(d));
    FilterMembers(entries, CompletedOn(d));
    if f != [] {
      assert f[0] in f;
    }
  }

  /** `entriesByDate`: one pass over the entries, skipping incomplete ones. */
  method EntriesByDate(entries: seq<Entry>) returns (m: map<string, nat>)
    ensures m == ByDate(entries)
  {
    m := map[];
    for i := 0 to |entries|
      invariant m == ByDate(entries[..i])
    {
      var e := entries[i];
      assert entries[..i + 1][..i] == entries[..i];
      if !e.completed {
        continue;
      }
      m := m[e.date := CountOf(m, e.date) + 1];
    }
    assert entries[..|entries|] == entries;
  }

  // ---- the last 30 days (last30) ----

  /** The heat-map cell of a day: its key and its count, 0 when absent. */
  function Cell(byDate: map<string, nat>, d: Calendar.Date): (c: DayCell)
    requires Calendar.Valid(d)
  {
    var key := Calendar.Key(d);
    DayCell(key, CountOf(byDate, key))
  }

  /** The heat-map cells of the 30 days from `today - 29` to `today`. */
  function Last30(byDate: map<string, nat>, today: Calendar.Date): seq<DayCell>
    requires Calendar.Valid(today)
  {
    var start := Calendar.AddDays(today, -29);
    seq(30, i requires 0 <= i < 30 => Cell(byDate, Calendar.AddDays(start, i)))
  }

  /** Thirty cells, oldest first: cell `i` is the day `29 - i` days before today, with
      the count the map holds for it or 0; the last cell is today. */
  lemma Last30Days(byDate: map<string, nat>, today: Calendar.Date)
    requires Calendar.Valid(today)
    ensures |Last30(byDate, today)| == 30
    ensures forall i :: 0 <= i < 30 ==>
      Last30(byDate, today)[i] == Cell(byDate, Calendar.AddDays(today, i - 29))
    ensures Last30(byDate, today)[29].date == Calendar.Key(today)
  {
    forall i | 0 <= i < 30
      ensures Calendar.AddDays(Calendar.AddDays(today, -29), i) == Calendar.AddDays(today, i - 29)
    {
      Calendar.AddDaysAdd(today, -29, i);
    }
  }

  /** Consecutive cells are consecutive days. */
  lemma Last30Consecutive(byDate: map<string, nat>, today: Calendar.Date, i: nat)
    requires Calendar.Valid(today) && i < 29
    ensures var d := Calendar.AddDays(today, i - 29);
      && Last30(byDate, today)[i].date == Calendar.Key(d)
      && Last30(byDate, today)[i + 1].date == Calendar.Key(Calendar.NextDay(d))
  {
    Last30Days(byDate, today);
    Calendar.AddDaysSucc(today, i - 29);
  }

  /** `last30`: push one cell per day of the window. */
  method Last30Cells(byDate: map<string, nat>, today: Calendar.Date) returns (out: seq<DayCell>)
    requires Calendar.Valid(today)
    ensures out == Last30(byDate, today)
  {
    hide Calendar.Key, Calendar.AddDays, Calendar.NextDay, Calendar.PrevDay;
    var start := Calendar.AddDays(today, -29);
    out := [];
    for i := 0 to 30
      invariant |out| == i
      invariant forall j :: 0 <= j < i ==> out[j] == Cell(byDate, Calendar.AddDays(start, j))
    {
      var key := Calendar.Key(Calendar.AddDays(start, i));
      out := out + [DayCell(key, CountOf(byDate, key))];
    }
    ghost var cells := Last30(byDate, today);
    assert |cells| == 30;
    forall j | 0 <= j < 30 ensures out[j] == cells[j] {
    }
  }

  // ---- rows of seven (cellsByWeek) ----

  /** A row filled up to seven cells with blank cells. */
  function Pad(week: seq<DayCell>): (r: seq<DayCell>)
    requires |week| <= 7
    ensures |r| == 7 && r[..|week|] == week
    ensures forall i :: |week| <= i < 7 ==> r[i] == Blank
  {
    var missing := 7 - |week|;
    if missing != 0 then week + seq(missing, _ => Blank) else week
  }

  /** The cells cut into rows of seven, the last row padded. */
  function Weeks(days: seq<DayCell>): seq<seq<DayCell>>
    decreases |days|
  {
    if days == [] then []
    else if |days| <= 7 then [Pad(days)]
    else [days[..7]] + Weeks(days[7..])
  }

  function Flatten(ws: seq<seq<DayCell>>): seq<DayCell>
    decreases |ws|
  {
    if ws == [] then [] else ws[0] + Flatten(ws[1..])
  }

  function Blanks(n: nat): (r: seq<DayCell>)
    ensures |r| == n && forall i :: 0 <= i < n ==> r[i] == Blank
  {
    seq(n, _ => Blank)
  }

  /** Seven cells or more: the first row is the first seven cells as they are. */
  lemma WeeksFront(days: seq<DayCell>)
    requires |days| >= 7
    ensures Weeks(days) == [days[..7]] + Weeks(days[7..])
  {
    if |days| == 7 {
      assert days[..7] == days && days[7..] == [];
    }
  }

  /** `ceil(n / 7)` rows, each of exactly seven cells. */
  lemma {:induction false} WeeksShape(days: seq<DayCell>)
    ensures |Weeks(days)| == (|days| + 6) / 7
    ensures forall k :: 0 <= k < |Weeks(days)| ==> |Weeks(days)[k]| == 7
    decreases |days|
  {
    if |days| > 7 {
      WeeksShape(days[7..]);
    }
  }

  /** Reading the rows in order gives back the cells, followed by the padding. */
  lemma {:induction false} WeeksFlatten(days: seq<DayCell>)
    ensures Flatten(Weeks(days)) == days + Blanks(7 * ((|days| + 6) / 7) - |days|)
    decreases |days|
  {
    WeeksShape(days);
    if days == [] {
    } else if |days| <= 7 {
      assert Flatten(Weeks(days)) == Pad(days) + Flatten([]);
      assert Pad(days) == days + Blanks(7 - |days|);
      assert (|days| + 6) / 7 == 1;
    } else {
      WeeksFlatten(days[7..]);
      WeeksShape(days[7..]);
      var rest := Weeks(days[7..]);
      assert Weeks(days)[1..] == rest;
      calc {
        Flatten(Weeks(days));
        days[..7] + Flatten(rest);
        days[..7] + (days[7..] + Blanks(7 * ((|days[7..]| + 6) / 7) - |days[7..]|));
        { assert days[..7] + days[7..] == days; }
        days + Blanks(7 * ((|days| + 6) / 7) - |days|);
      }
    }
  }

  /** The 30-day window makes five rows, the last holding the final two days and five
      blank cells. */
  lemma Weeks30(days: seq<DayCell>)
    requires |days| == 30
    ensures |Weeks(days)| == 5
    ensures Weeks(days)[4] == days[28..] + Blanks(5)
  {
    WeeksFront(days);
    WeeksFront(days[7..]);
    WeeksFront(days[14..]);
    WeeksFront(days[21..]);
    assert days[7..][7..] == days[14..] && days[14..][7..] == days[21..] && days[21..][7..] == days[28..];
    assert Weeks(days[28..]) == [Pad(days[28..])];
    assert Pad(days[28..]) == days[28..] + Blanks(5);
  }

  /** `weeks.map(pad)`: every row padded to seven cells. */
  function PadRows(weeks: seq<seq<DayCell>>): (r: seq<seq<DayCell>>)
    requires forall k :: 0 <= k < |weeks| ==> |weeks[k]| <= 7
    ensures |r| == |weeks| && forall k :: 0 <= k < |weeks| ==> r[k] == Pad(weeks[k])
  {
    seq(|weeks|, k requires 0 <= k < |weeks| => Pad(weeks[k]))
  }

  /** Full rows followed by a short one: padding them gives the grouping. */
  lemma PadRowsWeeks(days: seq<DayCell>, full: seq<seq<DayCell>>, current: seq<DayCell>)
    requires forall k :: 0 <= k < |full| ==> |full[k]| == 7
    requires |current| < 7 && Weeks(days) == full + Weeks(current)
    ensures var rows := if current == [] then full else full + [current];
      PadRows(rows) == Weeks(days)
  {
    var rows := if current == [] then full else full + [current];
    forall k | 0 <= k < |full| ensures Pad(rows[k]) == full[k] {
      assert rows[k] == full[k];
    }
  }

  /** `cellsByWeek`: collect cells into `current`, close a row at seven, keep a short
      last row, then pad every row to seven. */
  method CellsByWeek(days: seq<DayCell>) returns (r: seq<seq<DayCell>>)
    ensures r == Weeks(days)
  {
    hide Weeks, Pad, PadRows;
    var weeks: seq<seq<DayCell>> := [];
    var current: seq<DayCell> := [];
    for i := 0 to |days|
      invariant |current| < 7 && i == 7 * |weeks| + |current|
      invariant current == days[7 * |weeks|..i]
      invariant forall k :: 0 <= k < |weeks| ==> |weeks[k]| == 7
      invariant Weeks(days) == weeks + Weeks(days[7 * |weeks|..])
    {
      current := current + [days[i]];
      if |current| == 7 {
        CloseRow(days, weeks, current);
        weeks := weeks + [current];
        current := [];
      }
    }
    assert days[7 * |weeks|..] == current;
    PadRowsWeeks(days, weeks, current);
    if |current| != 0 {
      weeks := weeks + [current];
    }
    r := PadRows(weeks);
  }

  /** A row of seven closed in the loop is the next row of the grouping. */
  lemma CloseRow(days: seq<DayCell>, weeks: seq<seq<DayCell>>, current: seq<DayCell>)
    requires 7 * |weeks| + 7 <= |days| && current == days[7 * |weeks|..7 * |weeks| + 7]
    requires Weeks(days) == weeks + Weeks(days[7 * |weeks|..])
    ensures Weeks(days) == (weeks + [current]) + Weeks(days[7 * (|weeks| + 1)..])
  {
    hide Weeks, Pad;
    var rest := days[7 * |weeks|..];
    WeeksFront(rest);
    assert rest[..7] == current && rest[7..] == days[7 * (|weeks| + 1)..];
  }

  // ---- the current streak (currentStreak) ----

  /** The day `j` days before today (`subDays(today, j)`). */
  function DaysAgo(today: Calendar.Date, j: int): (d: Calendar.Date)
    requires Calendar.Valid(today)
    ensures Calendar.Valid(d)
  {
    Calendar.AddDays(today, -j)
  }

  lemma DaysAgoZero(today: Calendar.Date)
    requires Calendar.Valid(today)
    ensures DaysAgo(today, 0) == today
  {
  }

  /** Every one of the `k` days ending today has a completion. */
  predicate ActiveRun(byDate: map<string, nat>, today: Calendar.Date, k: nat)
    requires Calendar.Valid(today)
  {
    forall j :: 0 <= j < k ==> CountOf(byDate, Calendar.Key(DaysAgo(today, j))) > 0
  }

  /** `k` is the current streak: the `k` days ending today have completions and the
      day before them has none. */
  predicate IsCurrentStreak(byDate: map<string, nat>, today: Calendar.Date, k: nat)
    requires Calendar.Valid(today)
  {
    ActiveRun(byDate, today, k) && CountOf(byDate, Calendar.Key(DaysAgo(today, k))) == 0
  }

  /** The keys of the first `k` days counting back from today. */
  ghost function RunKeys(today: Calendar.Date, k: nat): set<string>
    requires Calendar.Valid(today)
  {
    if k == 0 then {} else RunKeys(today, k - 1) + {Calendar.Key(DaysAgo(today, k - 1))}
  }

  /** Distinct days back from today have distinct keys. */
  lemma DaysAgoKeysDiffer(today: Calendar.Date, i: int, j: int)
    requires Calendar.Valid(today) && i < j
    ensures Calendar.Key(DaysAgo(today, i)) != Calendar.Key(DaysAgo(today, j))
  {
    Calendar.AddDaysMonotone(today, -j, -i);
    Calendar.KeysDiffer(DaysAgo(today, i), DaysAgo(today, j));
  }

  /** A day further back is not among the keys of the first `k` days. */
  lemma {:induction false} RunKeysExclude(today: Calendar.Date, k: nat, m: int)
    requires Calendar.Valid(today) && k <= m
    ensures Calendar.Key(DaysAgo(today, m)) !in RunKeys(today, k)
  {
    if k > 0 {
      RunKeysExclude(today, k - 1, m);
      DaysAgoKeysDiffer(today, k - 1, m);
    }
  }

  /** The first `k` days back from today have `k` distinct keys. */
  lemma {:induction false} RunKeysCard(today: Calendar.Date, k: nat)
    requires Calendar.Valid(today)
    ensures |RunKeys(today, k)| == k
  {
    if k > 0 {
      RunKeysCard(today, k - 1);
      RunKeysExclude(today, k - 1, k - 1);
    }
  }

  /** The keys of an active run are all in the map. */
  lemma {:induction false} RunKeysInMap(byDate: map<string, nat>, today: Calendar.Date, k: nat)
    requires Calendar.Valid(today) && ActiveRun(byDate, today, k)
    ensures RunKeys(today, k) <= byDate.Keys
  {
    if k > 0 {
      assert ActiveRun(byDate, today, k - 1);
      RunKeysInMap(byDate, today, k - 1);
      assert CountOf(byDate, Calendar.Key(DaysAgo(today, k - 1))) > 0;
    }
  }

  /** An active run is no longer than the number of days in the map. */
  lemma ActiveRunBound(byDate: map<string, nat>, today: Calendar.Date, k: nat)
    requires Calendar.Valid(today) && ActiveRun(byDate, today, k)
    ensures k <= |byDate|
  {
    RunKeysCard(today, k);
    RunKeysInMap(byDate, today, k);
    SubsetCard(RunKeys(today, k), byDate.Keys);
  }

  /** There is one current streak at most. */
  lemma CurrentStreakUnique(byDate: map<string, nat>, today: Calendar.Date, k1: nat, k2: nat)
    requires Calendar.Valid(today)
    requires IsCurrentStreak(byDate, today, k1) && IsCurrentStreak(byDate, today, k2)
    ensures k1 == k2
  {
  }

  /** The streak is 0 exactly when today has no completion, and never exceeds the number
      of days with completions. */
  lemma CurrentStreakFacts(byDate: map<string, nat>, today: Calendar.Date, k: nat)
    requires Calendar.Valid(today) && IsCurrentStreak(byDate, today, k)
    ensures k == 0 <==> CountOf(byDate, Calendar.Key(today)) == 0
    ensures k <= |byDate|
  {
    assert DaysAgo(today, 0) == today;
    ActiveRunBound(byDate, today, k);
  }

  /** `currentStreak`: walk back from today while the day has a completion. */
  method CurrentStreak(byDate: map<string, nat>, today: Calendar.Date) returns (streak: nat)
    requires Calendar.Valid(today)
    ensures IsCurrentStreak(byDate, today, streak)
  {
    streak := 0;
    var d := today;
    while true
      invariant Calendar.Valid(d) && d == DaysAgo(today, streak)
      invariant ActiveRun(byDate, today, streak)
      decreases |byDate| - streak
    {
      var key := Calendar.Key(d);
      if CountOf(byDate, key) > 0 {
        ActiveRunBound(byDate, today, streak + 1);
        Calendar.AddDaysSucc(today, -(streak + 1));
        streak := streak + 1;
        d := Calendar.PrevDay(d);
      } else {
        break;
      }
    }
  }

  // ---- the best streak (bestStreak) ----

  function Max(a: nat, b: nat): nat {
    if a >= b then a else b
  }

  /** `k` is the key of the day after `prev`: `prev` is truthy, reads back as a day,
      and `k` equals the key of the following day. */
  predicate Linked(prev: string, k: string) {
    prev != "" &&
    match Calendar.ParseKey(prev)
    case None => false
    case Some(d) => k == Calendar.Key(Calendar.NextDay(d))
  }

  /** The loop state of `bestStreak`: `best`, `cur` and `prev` (`None` for null). */
  datatype Scan = Scan(best: nat, cur: nat, prev: Option<string>)

  /** One iteration for key `k`; `None` when reading `prev` back as a day fails, on
      which formatting throws. */
  function Step(byDate: map<string, nat>, s: Scan, k: string): Option<Scan> {
    var hit: nat := if CountOf(byDate, k) > 0 then 1 else 0;
    if s.prev.None? || s.prev.value == "" then
      Some(Scan(Max(s.best, hit), hit, Some(k)))
    else match Calendar.ParseKey(s.prev.value)
      case None => None
      case Some(d) =>
        var cur := if k == Calendar.Key(Calendar.NextDay(d)) && hit == 1 then s.cur + 1 else hit;
        Some(Scan(Max(s.best, cur), cur, Some(k)))
  }

  /** The loop over the keys in the given order. */
  function ScanKeys(byDate: map<string, nat>, ks: seq<string>): Option<Scan>
    decreases |ks|
  {
    if ks == [] then Some(Scan(0, 0, None))
    else match ScanKeys(byDate, ks[..|ks| - 1])
      case None => None
      case Some(s) => Step(byDate, s, ks[|ks| - 1])
  }

  /** The best streak over the map's keys in sorted order; `None` when it throws. */
  ghost function BestStreakOf(byDate: map<string, nat>): Option<nat> {
    if |byDate| == 0 then Some(0)
    else match ScanKeys(byDate, Strings.SortSet(byDate.Keys))
      case None => None
      case Some(s) => Some(s.best)
  }

  /** The `L` keys ending at position `i` all have completions and each is the day
      after the one before it. */
  ghost predicate IsRun(byDate: map<string, nat>, ks: seq<string>, i: int, L: nat) {
    && 0 <= i < |ks| && 1 <= L <= i + 1
    && (forall j :: i - L < j <= i ==> CountOf(byDate, ks[j]) > 0)
    && (forall j {:trigger Linked(ks[j], ks[j + 1])} :: i - L < j < i ==> Linked(ks[j], ks[j + 1]))
  }

  /** A run is a run of any longer key list with the same start. */
  lemma IsRunPrefix(byDate: map<string, nat>, ks: seq<string>, n: nat, i: int, L: nat)
    requires n <= |ks| && i < n
    ensures IsRun(byDate, ks[..n], i, L) <==> IsRun(byDate, ks, i, L)
  {
    hide Linked, CountOf;
  }

  /** A run of two or more ends with a linked, completed key after a shorter run. */
  lemma IsRunExtend(byDate: map<string, nat>, ks: seq<string>, i: int, L: nat)
    requires 1 <= i < |ks| && L >= 2
    ensures IsRun(byDate, ks, i, L)
      <==> IsRun(byDate, ks, i - 1, L - 1) && Linked(ks[i - 1], ks[i]) && CountOf(byDate, ks[i]) > 0
  {
    hide Linked, CountOf;
    if IsRun(byDate, ks, i, L) {
      var last := i - 1;
      assert Linked(ks[last], ks[last + 1]);
      forall j | i - L < j < i - 1 ensures Linked(ks[j], ks[j + 1]) { }
    }
    if IsRun(byDate, ks, i - 1, L - 1) && Linked(ks[i - 1], ks[i]) && CountOf(byDate, ks[i]) > 0 {
      forall j | i - L < j < i ensures Linked(ks[j], ks[j + 1]) {
        if j < i - 1 {
          assert Linked(ks[j], ks[j + 1]);
        }
      }
    }
  }

  /** What the scan has computed after the keys `ks`: `prev` is the last key, `cur` the
      longest run ending there, `best` the longest run anywhere. */
  ghost predicate ScanSound(byDate: map<string, nat>, ks: seq<string>, s: Scan) {
    var last := |ks| - 1;
    && last >= 0 && s.prev == Some(ks[last])
    && (s.cur > 0 ==> IsRun(byDate, ks, last, s.cur))
    && (forall L: nat :: IsRun(byDate, ks, last, L) ==> L <= s.cur)
    && (forall i, L: nat :: IsRun(byDate, ks, i, L) ==> L <= s.best)
    && (s.best > 0 ==> exists i :: IsRun(byDate, ks, i, s.best))
  }

  /** The scan succeeds exactly when every truthy key but the last reads back as a
      day. */
  lemma {:induction false} ScanKeysFails(byDate: map<string, nat>, ks: seq<string>)
    ensures ScanKeys(byDate, ks).None?
      <==> exists j :: 0 <= j < |ks| - 1 && ks[j] != "" && Calendar.ParseKey(ks[j]).None?
    ensures ScanKeys(byDate, ks).Some? && ks != [] ==> ScanKeys(byDate, ks).value.prev == Some(ks[|ks| - 1])
    decreases |ks|
  {
    hide Calendar.ParseKey, Calendar.Key, Calendar.NextDay, Strings.Less;
    if ks != [] {
      var init := ks[..|ks| - 1];
      ScanKeysFails(byDate, init);
      forall j | 0 <= j < |init| ensures init[j] == ks[j] { }
    }
  }

  /** The first key: a run of one when it has completions. */
  lemma ScanFirst(byDate: map<string, nat>, ks: seq<string>)
    requires |ks| == 1
    ensures var s := Step(byDate, Scan(0, 0, None), ks[0]);
      s.Some? && ScanSound(byDate, ks, s.value)
  {
    var s := Step(byDate, Scan(0, 0, None), ks[0]).value;
    forall L: nat | IsRun(byDate, ks, 0, L) ensures L <= s.cur {
      assert CountOf(byDate, ks[0]) > 0;
    }
    if s.best > 0 {
      assert IsRun(byDate, ks, 0, 1);
    }
  }

  /** The value `cur` takes at a later key: one more than before when the key is
      completed and linked to the previous one, else 1 or 0. */
  lemma StepCur(byDate: map<string, nat>, s0: Scan, prev: string, k: string)
    requires s0.prev == Some(prev) && Step(byDate, s0, k).Some?
    ensures var s := Step(byDate, s0, k).value;
      && s.cur == (if Linked(prev, k) && CountOf(byDate, k) > 0 then s0.cur + 1
                   else if CountOf(byDate, k) > 0 then 1 else 0)
      && s.best == Max(s0.best, s.cur) && s.prev == Some(k)
  {
  }

  /** No run ending at a later key is longer than the new `cur`. */
  lemma ScanStepCurBound(byDate: map<string, nat>, ks: seq<string>, s0: Scan, s: Scan)
    requires |ks| >= 2 && s0.prev == Some(ks[|ks| - 2])
    requires var init, before := ks[..|ks| - 1], |ks| - 2;
      forall L: nat :: IsRun(byDate, init, before, L) ==> L <= s0.cur
    requires Step(byDate, s0, ks[|ks| - 1]) == Some(s)
    ensures var last := |ks| - 1;
      forall L: nat :: IsRun(byDate, ks, last, L) ==> L <= s.cur
  {
    hide Calendar.ParseKey, Calendar.Key, Calendar.NextDay, Strings.Less;
    var n := |ks|;
    var last := n - 1;
    StepCur(byDate, s0, ks[n - 2], ks[last]);
    forall L: nat | IsRun(byDate, ks, last, L) ensures L <= s.cur {
      if L >= 2 {
        IsRunExtend(byDate, ks, last, L);
        IsRunPrefix(byDate, ks, n - 1, n - 2, L - 1);
      }
    }
  }

  /** The new `cur`, when positive, is the length of a run ending at the later key. */
  lemma ScanStepCurRun(byDate: map<string, nat>, ks: seq<string>, s0: Scan, s: Scan)
    requires |ks| >= 2 && s0.prev == Some(ks[|ks| - 2])
    requires s0.cur > 0 ==> IsRun(byDate, ks[..|ks| - 1], |ks| - 2, s0.cur)
    requires Step(byDate, s0, ks[|ks| - 1]) == Some(s)
    ensures s.cur > 0 ==> IsRun(byDate, ks, |ks| - 1, s.cur)
  {
    hide Calendar.ParseKey, Calendar.Key, Calendar.NextDay;
    var n := |ks|;
    var last := n - 1;
    StepCur(byDate, s0, ks[n - 2], ks[last]);
    if s.cur > 1 {
      IsRunPrefix(byDate, ks, n - 1, n - 2, s0.cur);
      IsRunExtend(byDate, ks, last, s0.cur + 1);
    } else if s.cur == 1 {
      assert IsRun(byDate, ks, last, 1);
    }
  }

  /** The longest run anywhere after a later key. */
  lemma ScanStepBest(byDate: map<string, nat>, ks: seq<string>, s0: Scan, s: Scan)
    requires |ks| >= 2 && ScanSound(byDate, ks[..|ks| - 1], s0)
    requires Step(byDate, s0, ks[|ks| - 1]) == Some(s)
    ensures ScanSound(byDate, ks, s)
  {
    hide Calendar.ParseKey, Calendar.Key, Calendar.NextDay;
    var n := |ks|;
    assert ks[..n - 1][n - 2] == ks[n - 2];
    StepCur(byDate, s0, ks[n - 2], ks[n - 1]);
    ScanStepCurBound(byDate, ks, s0, s);
    ScanStepCurRun(byDate, ks, s0, s);
    forall i, L: nat | IsRun(byDate, ks, i, L) ensures L <= s.best {
      if i < n - 1 {
        IsRunPrefix(byDate, ks, n - 1, i, L);
      }
    }
    if s.best > 0 && s.best != s.cur {
      var i :| IsRun(byDate, ks[..n - 1], i, s0.best);
      IsRunPrefix(byDate, ks, n - 1, i, s0.best);
    }
  }

  /** The scan computes what it is meant to: the longest run ending at the last key and
      the longest run anywhere. */
  lemma {:induction false} ScanKeysSound(byDate: map<string, nat>, ks: seq<string>)
    requires ks != [] && ScanKeys(byDate, ks).Some?
    ensures ScanSound(byDate, ks, ScanKeys(byDate, ks).value)
    decreases |ks|
  {
    var init := ks[..|ks| - 1];
    if |ks| == 1 {
      assert init == [];
      ScanFirst(byDate, ks);
    } else {
      ScanKeysSound(byDate, init);
      ScanStepBest(byDate, ks, ScanKeys(byDate, init).value, ScanKeys(byDate, ks).value);
    }
  }

  /** A failure part-way fails the whole scan. */
  lemma ScanKeysPrefixFails(byDate: map<string, nat>, ks: seq<string>, n: nat)
    requires n <= |ks| && ScanKeys(byDate, ks[..n]).None?
    ensures ScanKeys(byDate, ks).None?
  {
    ScanKeysFails(byDate, ks[..n]);
    ScanKeysFails(byDate, ks);
    var j :| 0 <= j < n - 1 && ks[..n][j] != "" && Calendar.ParseKey(ks[..n][j]).None?;
    assert ks[j] == ks[..n][j];
  }

  /** `bestStreak` throws exactly when some truthy key other than the last, in sorted
      order, does not read back as a day. */
  lemma BestStreakThrows(byDate: map<string, nat>)
    ensures var ks := Strings.SortSet(byDate.Keys);
      (BestStreakOf(byDate).None? <==> exists j :: 0 <= j < |ks| - 1 && ks[j] != "" && Calendar.ParseKey(ks[j]).None?)
  {
    var ks := Strings.SortSet(byDate.Keys);
    ScanKeysFails(byDate, ks);
    if |byDate| == 0 {
      assert |ks| == |byDate.Keys| == 0;
    }
  }

  /** The scan's result is what `bestStreak` returns for a non-empty map. */
  lemma BestStreakScan(byDate: map<string, nat>)
    requires BestStreakOf(byDate).Some? && |byDate| > 0
    ensures var ks := Strings.SortSet(byDate.Keys);
      && ks != [] && ScanKeys(byDate, ks).Some?
      && ScanSound(byDate, ks, ScanKeys(byDate, ks).value)
      && BestStreakOf(byDate).value == ScanKeys(byDate, ks).value.best
  {
    var ks := Strings.SortSet(byDate.Keys);
    assert |ks| == |byDate.Keys| == |byDate|;
    ScanKeysSound(byDate, ks);
  }

  /** No run of completed, calendar-consecutive keys in sorted order is longer than
      `bestStreak`. */
  lemma BestStreakBound(byDate: map<string, nat>, i: int, L: nat)
    requires BestStreakOf(byDate).Some? && IsRun(byDate, Strings.SortSet(byDate.Keys), i, L)
    ensures L <= BestStreakOf(byDate).value
  {
    hide Calendar.ParseKey, Calendar.Key, Calendar.NextDay, Linked, Step, Strings.Less;
    assert |byDate| > 0 by {
      assert |Strings.SortSet(byDate.Keys)| == |byDate.Keys| == |byDate|;
    }
    BestStreakScan(byDate);
  }

  /** When `bestStreak` is not 0, some run is that long. */
  lemma BestStreakAttained(byDate: map<string, nat>)
    requires BestStreakOf(byDate).Some? && BestStreakOf(byDate).value > 0
    ensures exists i :: IsRun(byDate, Strings.SortSet(byDate.Keys), i, BestStreakOf(byDate).value)
  {
    hide Calendar.ParseKey, Calendar.Key, Calendar.NextDay, Linked, Step, Strings.Less;
    var ks := Strings.SortSet(byDate.Keys);
    BestStreakScan(byDate);
    var s := ScanKeys(byDate, ks).value;
    var i :| IsRun(byDate, ks, i, s.best);
  }

  /** `bestStreak` never exceeds the number of days in the map. */
  lemma BestStreakAtMost(byDate: map<string, nat>)
    requires BestStreakOf(byDate).Some?
    ensures BestStreakOf(byDate).value <= |byDate|
  {
    hide Calendar.ParseKey, Calendar.Key, Calendar.NextDay, Linked, ScanKeys, Step, BestStreakOf, Strings.Less;
    var b, ks := BestStreakOf(byDate).value, Strings.SortSet(byDate.Keys);
    assert |ks| == |byDate.Keys| == |byDate|;
    if b > 0 {
      BestStreakAttained(byDate);
      var i :| IsRun(byDate, ks, i, b);
    }
  }

  /** A completed day makes `bestStreak` positive. */
  lemma BestStreakPositive(byDate: map<string, nat>, k: string)
    requires BestStreakOf(byDate).Some? && k in byDate && byDate[k] > 0
    ensures BestStreakOf(byDate).value > 0
  {
    hide Calendar.ParseKey, Calendar.Key, Calendar.NextDay, Linked, ScanKeys, Step, BestStreakOf, Strings.Less;
    var ks := Strings.SortSet(byDate.Keys);
    var i :| 0 <= i < |ks| && ks[i] == k;
    assert IsRun(byDate, ks, i, 1);
    BestStreakBound(byDate, i, 1);
  }

  /** `bestStreak` is 0 exactly when no day has a completion. */
  lemma BestStreakZero(byDate: map<string, nat>)
    requires BestStreakOf(byDate).Some?
    ensures BestStreakOf(byDate).value == 0 <==> forall k :: k in byDate ==> byDate[k] == 0
  {
    hide Calendar.ParseKey, Calendar.Key, Calendar.NextDay, Linked, ScanKeys, Step, BestStreakOf, Strings.Less;
    if BestStreakOf(byDate).value > 0 {
      var ks := Strings.SortSet(byDate.Keys);
      BestStreakAttained(byDate);
      var i :| IsRun(byDate, ks, i, BestStreakOf(byDate).value);
      var k := ks[i];
      assert k in byDate && byDate[k] > 0;
    } else {
      forall k | k in byDate ensures byDate[k] == 0 {
        if byDate[k] > 0 {
          BestStreakPositive(byDate, k);
        }
      }
    }
  }

  /** `bestStreak`: sort the keys, then one pass with `best`, `cur` and `prev`. */
  method BestStreak(byDate: map<string, nat>) returns (r: Option<nat>)
    ensures r == BestStreakOf(byDate)
  {
    hide Calendar.ParseKey, Calendar.Key, Calendar.NextDay, Linked, Strings.Less, Strings.StrictlySorted;
    if |byDate| == 0 {
      return Some(0);
    }
    var keys := Strings.SortKeys(byDate.Keys);
    var best: nat, cur: nat, prev: Option<string> := 0, 0, None;
    for i := 0 to |keys|
      invariant ScanKeys(byDate, keys[..i]) == Some(Scan(best, cur, prev))
    {
      var k := keys[i];
      ghost var next := Step(byDate, Scan(best, cur, prev), k);
      NextScan(byDate, keys, i);
      if prev.None? || prev.value == "" {
        cur := if CountOf(byDate, k) > 0 then 1 else 0;
        prev := Some(k);
        best := Max(best, cur);
        continue;
      }
      var prevDate := Calendar.ParseKey(prev.value);
      if prevDate.None? {
        ScanKeysPrefixFails(byDate, keys, i + 1);
        return None;
      }
      var nextKey := Calendar.Key(Calendar.NextDay(prevDate.value));
      if k == nextKey && CountOf(byDate, k) > 0 {
        cur := cur + 1;
      } else {
        cur := if CountOf(byDate, k) > 0 then 1 else 0;
      }
      best := Max(best, cur);
      prev := Some(k);
      assert next == Some(Scan(best, cur, prev));
    }
    assert keys[..|keys|] == keys;
    return Some(best);
  }

  lemma NextScan(byDate: map<string, nat>, keys: seq<string>, i: nat)
    requires i < |keys| && ScanKeys(byDate, keys[..i]).Some?
    ensures ScanKeys(byDate, keys[..i + 1]) == Step(byDate, ScanKeys(byDate, keys[..i]).value, keys[i])
  {
    assert keys[..i + 1][..i] == keys[..i];
  }

  // ---- the 7-day completion rate (sevenDayPct) ----

  /** How many of the `n` days ending today have a completion. */
  function ActiveDays(byDate: map<string, nat>, today: Calendar.Date, n: nat): (r: nat)
    requires Calendar.Valid(today)
    ensures r <= n
  {
    if n == 0 then 0
    else ActiveDays(byDate, today, n - 1) + (if CountOf(byDate, Calendar.Key(DaysAgo(today, n - 1))) > 0 then 1 else 0)
  }

  /** `Math.round(x)`: the nearest integer, halves rounding up. */
  function Round(x: real): int {
    (x + 0.5).Floor
  }

  /** The rate shown for `ok` active days out of seven, in exact arithmetic. */
  function Percent(ok: nat): int {
    Round(ok as real / 7.0 * 100.0)
  }

  /** The rates for 0 to 7 active days: 0, 14, 29, 43, 57, 71, 86 and 100. */
  lemma PercentTable(ok: nat)
    requires ok <= 7
    ensures Percent(ok) == [0, 14, 29, 43, 57, 71, 86, 100][ok]
  {
  }

  /** The rate is a percentage, 0 only for no active day and 100 only for seven, and
      more active days never give a lower rate. */
  lemma PercentRange(ok: nat, ok': nat)
    requires ok <= 7 && ok' <= 7
    ensures 0 <= Percent(ok) <= 100
    ensures Percent(ok) == 0 <==> ok == 0
    ensures Percent(ok) == 100 <==> ok == 7
    ensures ok <= ok' ==> Percent(ok) <= Percent(ok')
  {
    PercentTable(ok);
    PercentTable(ok');
  }

  /** A current streak of a week or more makes the 7-day rate 100. */
  lemma {:induction false} ActiveRunAllActive(byDate: map<string, nat>, today: Calendar.Date, n: nat)
    requires Calendar.Valid(today) && ActiveRun(byDate, today, n)
    ensures ActiveDays(byDate, today, n) == n
  {
    if n > 0 {
      assert ActiveRun(byDate, today, n - 1);
      ActiveRunAllActive(byDate, today, n - 1);
    }
  }

  /** `sevenDayPct`: count the active days among today and the six before it, then
      round the share to a whole percentage. */
  method SevenDayPct(byDate: map<string, nat>, today: Calendar.Date) returns (pct: int)
    requires Calendar.Valid(today)
    ensures pct == Percent(ActiveDays(byDate, today, 7))
  {
    var ok: nat := 0;
    for i := 0 to 7
      invariant ok == ActiveDays(byDate, today, i)
    {
      var key := Calendar.Key(Calendar.AddDays(today, -i));
      if CountOf(byDate, key) > 0 {
        ok := ok + 1;
      }
    }
    pct := Round(ok as real / 7.0 * 100.0);
  }

  // ---- the cell tooltip (tooltip) ----

  /** "1 habit", or the count in decimal followed by " habits". */
  function HabitsLabel(count: nat): string {
    if count == 1 then "1 habit" else Calendar.Decimal(count, 1) + " habits"
  }

  /** `tooltip`: nothing for a padding cell, else the day, a dash and the label. */
  function Tooltip(c: DayCell): (r: string)
    ensures r == "" <==> c.date == ""
    ensures c.date != "" ==> |c.date| < |r| && r[..|c.date|] == c.date
  {
    if c.date == "" then "" else c.date + " \U{2014} " + HabitsLabel(c.count)
  }

  /** The wording: one habit in the singular, any other count (zero included) in the
      plural. */
  lemma TooltipWording(c: DayCell)
    requires c.date != ""
    ensures c.count == 1 ==> Tooltip(c) == c.date + " \U{2014} 1 habit"
    ensures c.count != 1 ==> Tooltip(c) == c.date + " \U{2014} " + Calendar.Decimal(c.count, 1) + " habits"
  {
  }

  /** Different counts get different labels. */
  lemma HabitsLabelInjective(n: nat, m: nat)
    requires HabitsLabel(n) == HabitsLabel(m)
    ensures n == m
  {
    var a, b := HabitsLabel(n), HabitsLabel(m);
    if n != 1 && m != 1 {
      var suffix := " habits";
      assert a[..|a| - |suffix|] == Calendar.Decimal(n, 1);
      assert b[..|b| - |suffix|] == Calendar.Decimal(m, 1);
      Calendar.DecimalInjective(n, m, 1);
    }
  }

  /** For cells whose days have keys of the same length, the tooltip tells the day and
      the count. */
  lemma TooltipDeterminesCell(c: DayCell, c': DayCell)
    requires c.date != "" && |c.date| == |c'.date| && Tooltip(c) == Tooltip(c')
    ensures c == c'
  {
    var t, t' := Tooltip(c), Tooltip(c');
    var n := |c.date| + 3;
    assert t[..|c.date|] == c.date && t'[..|c'.date|] == c'.date;
    assert t[n..] == HabitsLabel(c.count) && t'[n..] == HabitsLabel(c'.count);
    HabitsLabelInjective(c.count, c'.count);
  }

  // ---- the best streak is at least the current one ----

  /** Every key of the map reads back as a day, as the keys the store writes do. */
  predicate WellFormedKeys(byDate: map<string, nat>) {
    forall x :: x in byDate ==> Calendar.ParseKey(x).Some?
  }

  lemma KeyInMapInRange(byDate: map<string, nat>, d: Calendar.Date)
    requires WellFormedKeys(byDate) && Calendar.Valid(d) && Calendar.Key(d) in byDate
    ensures Calendar.InKeyRange(d)
  {
    var x := Calendar.ParseKey(Calendar.Key(d)).value;
    Calendar.KeysDiffer(x, d);
  }

  /** No key of the map sorts strictly between a day and the next one. */
  lemma NoKeyBetween(byDate: map<string, nat>, d: Calendar.Date, y: string)
    requires WellFormedKeys(byDate) && Calendar.InKeyRange(d) && Calendar.InKeyRange(Calendar.NextDay(d))
    requires y in byDate && Strings.Less(Calendar.Key(d), y)
    ensures y == Calendar.Key(Calendar.NextDay(d)) || Strings.Less(Calendar.Key(Calendar.NextDay(d)), y)
  {
    var x := Calendar.ParseKey(y).value;
    Calendar.KeyOrder(d, x);
    Calendar.NextDayIsSuccessor(d, x);
    Calendar.KeyOrder(Calendar.NextDay(d), x);
  }

  /** In a strictly sorted list, a key with nothing between it and a greater key sits
      right before it. */
  lemma SortedAdjacent(ks: seq<string>, p: nat, q: nat)
    requires Strings.StrictlySorted(ks) && p < |ks| && q < |ks| && Strings.Less(ks[p], ks[q])
    requires forall y :: y in ks && Strings.Less(ks[p], y) ==> y == ks[q] || Strings.Less(ks[q], y)
    ensures q == p + 1
  {
    Strings.LessAsymmetric(ks[p], ks[q]);
    Strings.LessIrreflexive(ks[p]);
    if p + 1 < |ks| {
      Strings.LessIrreflexive(ks[q]);
      Strings.LessAsymmetric(ks[q], ks[p + 1]);
    }
  }

  /** `ks` lists the map's keys in sorted order. */
  ghost predicate SortedKeysOf(byDate: map<string, nat>, ks: seq<string>) {
    Strings.StrictlySorted(ks) && forall y :: y in ks <==> y in byDate
  }

  /** When a day and the next one both have keys in the map, they are neighbours in
      sorted order. */
  lemma NextDayAdjacent(byDate: map<string, nat>, ks: seq<string>, d: Calendar.Date, q: nat)
    requires WellFormedKeys(byDate) && SortedKeysOf(byDate, ks) && Calendar.Valid(d)
    requires Calendar.Key(d) in byDate
    requires q < |ks| && ks[q] == Calendar.Key(Calendar.NextDay(d))
    ensures q >= 1 && ks[q - 1] == Calendar.Key(d)
  {
    KeyInMapInRange(byDate, d);
    KeyInMapInRange(byDate, Calendar.NextDay(d));
    Calendar.KeyOrder(d, Calendar.NextDay(d));
    var p :| 0 <= p < |ks| && ks[p] == Calendar.Key(d);
    forall y | y in ks && Strings.Less(ks[p], y) ensures y == ks[q] || Strings.Less(ks[q], y) {
      NoKeyBetween(byDate, d, y);
    }
    SortedAdjacent(ks, p, q);
  }

  /** A key that reads back as its day and the key of the next day are linked. */
  lemma LinkedDays(byDate: map<string, nat>, d: Calendar.Date)
    requires WellFormedKeys(byDate) && Calendar.Valid(d) && Calendar.Key(d) in byDate
    ensures Linked(Calendar.Key(d), Calendar.Key(Calendar.NextDay(d)))
  {
    KeyInMapInRange(byDate, d);
    Calendar.ParseKeyOfKey(d);
  }

  /** One more day of an active run: the key of the day before a listed day sits right
      before it. */
  lemma StreakStep(byDate: map<string, nat>, ks: seq<string>, today: Calendar.Date, t: nat, p: nat)
    requires WellFormedKeys(byDate) && SortedKeysOf(byDate, ks) && Calendar.Valid(today)
    requires p < |ks| && ks[p] == Calendar.Key(DaysAgo(today, t))
    requires CountOf(byDate, Calendar.Key(DaysAgo(today, t + 1))) > 0
    ensures p >= 1 && ks[p - 1] == Calendar.Key(DaysAgo(today, t + 1))
  {
    hide Calendar.ParseKey, Calendar.Key;
    var older := DaysAgo(today, t + 1);
    assert DaysAgo(today, t) == Calendar.NextDay(older) by {
      Calendar.AddDaysSucc(today, -(t + 1));
    }
    NextDayAdjacent(byDate, ks, older, p);
  }

  /** Two consecutive days of an active run are linked. */
  lemma RunLink(byDate: map<string, nat>, today: Calendar.Date, t: nat)
    requires WellFormedKeys(byDate) && Calendar.Valid(today)
    requires CountOf(byDate, Calendar.Key(DaysAgo(today, t + 1))) > 0
    ensures Linked(Calendar.Key(DaysAgo(today, t + 1)), Calendar.Key(DaysAgo(today, t)))
  {
    hide Calendar.ParseKey, Calendar.Key;
    Calendar.AddDaysSucc(today, -(t + 1));
    LinkedDays(byDate, DaysAgo(today, t + 1));
  }

  /** The key of the day `t` days before today. */
  function DayKey(today: Calendar.Date, t: nat): string {
    if Calendar.Valid(today) then Calendar.Key(DaysAgo(today, t)) else ""
  }

  /** Within an active run, each day's key sits right before the next day's key. */
  lemma ChainSteps(byDate: map<string, nat>, ks: seq<string>, today: Calendar.Date, k: nat)
    requires WellFormedKeys(byDate) && SortedKeysOf(byDate, ks)
    requires Calendar.Valid(today) && ActiveRun(byDate, today, k)
    ensures forall t: nat, p: nat :: t + 1 < k && p < |ks| && ks[p] == DayKey(today, t) ==>
      p >= 1 && ks[p - 1] == DayKey(today, t + 1)
  {
    forall t: nat, p: nat | t + 1 < k && p < |ks| && ks[p] == DayKey(today, t)
      ensures p >= 1 && ks[p - 1] == DayKey(today, t + 1)
    {
      assert CountOf(byDate, Calendar.Key(DaysAgo(today, t + 1))) > 0;
      StreakStep(byDate, ks, today, t, p);
    }
  }

  /** The keys of an active run sit in sorted order right before today's key, one day
      per position: each day's key sits right before the next day's key, so counting
      back from today's position reaches one day further back per position. */
  lemma {:induction false} StreakPositions(ks: seq<string>, today: Calendar.Date, k: nat, i0: nat)
    requires forall t: nat, p: nat :: t + 1 < k && p < |ks| && ks[p] == DayKey(today, t) ==>
      p >= 1 && ks[p - 1] == DayKey(today, t + 1)
    requires i0 < |ks| && ks[i0] == DayKey(today, 0)
    ensures forall t: nat :: t < k ==> t <= i0 && ks[i0 - t] == DayKey(today, t)
    decreases k
  {
    if k > 1 {
      StreakPositions(ks, today, k - 1, i0);
      var t: nat := k - 2;
      var before := DayKey(today, t);
      assert t <= i0 && ks[i0 - t] == before;
    }
  }

  /** Consecutive positions of an active run hold linked keys. */
  lemma RunLinks(byDate: map<string, nat>, ks: seq<string>, today: Calendar.Date, k: nat, i0: nat)
    requires WellFormedKeys(byDate) && Calendar.Valid(today) && ActiveRun(byDate, today, k)
    requires k <= i0 + 1 < |ks| + 1
    requires forall t: nat :: t < k ==> ks[i0 - t] == DayKey(today, t)
    ensures forall j :: i0 - k < j < i0 ==> Linked(ks[j], ks[j + 1])
  {
    hide Calendar.ParseKey, Calendar.Key, Calendar.AddDays, Linked, WellFormedKeys;
    forall j | i0 - k < j < i0 ensures Linked(ks[j], ks[j + 1]) {
      var t: nat := i0 - j - 1;
      var older, newer := DayKey(today, t + 1), DayKey(today, t);
      assert ks[j] == older && ks[j + 1] == newer;
      assert CountOf(byDate, Calendar.Key(DaysAgo(today, t + 1))) > 0;
      RunLink(byDate, today, t);
    }
  }

  /** Every position of an active run holds a completed key. */
  lemma RunCounts(byDate: map<string, nat>, ks: seq<string>, today: Calendar.Date, k: nat, i0: nat)
    requires Calendar.Valid(today) && ActiveRun(byDate, today, k)
    requires k <= i0 + 1 < |ks| + 1
    requires forall t: nat :: t < k ==> ks[i0 - t] == DayKey(today, t)
    ensures forall j :: i0 - k < j <= i0 ==> CountOf(byDate, ks[j]) > 0
  {
    hide Calendar.ParseKey, Calendar.Key, Calendar.AddDays;
    forall j | i0 - k < j <= i0 ensures CountOf(byDate, ks[j]) > 0 {
      var key := DayKey(today, i0 - j);
      assert ks[j] == key;
    }
  }

  /** An active run ending today is a run of the sorted keys ending at today's key. */
  lemma StreakIsRun(byDate: map<string, nat>, ks: seq<string>, today: Calendar.Date, k: nat, i0: nat)
    requires WellFormedKeys(byDate) && SortedKeysOf(byDate, ks)
    requires Calendar.Valid(today) && ActiveRun(byDate, today, k) && k > 0
    requires i0 < |ks| && ks[i0] == Calendar.Key(today)
    ensures IsRun(byDate, ks, i0, k)
  {
    hide Calendar.ParseKey, Calendar.Key, Calendar.AddDays, Linked, CountOf, WellFormedKeys, SortedKeysOf, ActiveRun;
    DaysAgoZero(today);
    ChainSteps(byDate, ks, today, k);
    StreakPositions(ks, today, k, i0);
    var oldest := DayKey(today, k - 1);
    assert k - 1 <= i0;
    RunLinks(byDate, ks, today, k, i0);
    RunCounts(byDate, ks, today, k, i0);
  }

  /** When every key reads back as a day, `bestStreak` does not throw. */
  lemma WellFormedScans(byDate: map<string, nat>)
    requires WellFormedKeys(byDate)
    ensures BestStreakOf(byDate).Some?
  {
    var ks := Strings.SortSet(byDate.Keys);
    BestStreakThrows(byDate);
    forall j | 0 <= j < |ks| - 1 ensures Calendar.ParseKey(ks[j]).Some? {
      assert ks[j] in byDate;
    }
  }

  /** When every key reads back as a day, `bestStreak` succeeds and is at least any run
      of active days ending today, the current streak included. */
  lemma BestStreakAtLeastCurrent(byDate: map<string, nat>, today: Calendar.Date, k: nat)
    requires WellFormedKeys(byDate) && Calendar.Valid(today) && ActiveRun(byDate, today, k)
    ensures BestStreakOf(byDate).Some? && BestStreakOf(byDate).value >= k
  {
    WellFormedScans(byDate);
    if k > 0 {
      var ks := Strings.SortSet(byDate.Keys);
      assert SortedKeysOf(byDate, ks);
      assert DaysAgo(today, 0) == today;
      assert CountOf(byDate, Calendar.Key(today)) > 0;
      var i0 :| 0 <= i0 < |ks| && ks[i0] == Calendar.Key(today);
      StreakIsRun(byDate, ks, today, k, i0);
      BestStreakBound(byDate, i0, k);
    }
  }
}
