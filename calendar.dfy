/** The proleptic Gregorian calendar and the `yyyy-MM-dd` day key. This stands in for
    the date library the source uses (`format(d, 'yyyy-MM-dd')`, `addDays`, `subDays`,
    and parsing `key + 'T00:00:00'` back to a local date). */
module Calendar {
  import opened Wrappers
  import Strings

  /** A calendar day (no time, no zone). */
  datatype Date = Date(year: int, month: int, day: int)

  predicate IsLeapYear(y: int) {
    y % 4 == 0 && (y % 100 != 0 || y % 400 == 0)
  }

  function DaysInMonth(y: int, m: int): (n: int)
    ensures 28 <= n <= 31
  {
    if m == 2 then (if IsLeapYear(y) then 29 else 28)
    else if m == 4 || m == 6 || m == 9 || m == 11 then 30
    else 31
  }

  predicate Valid(d: Date) {
    1 <= d.month <= 12 && 1 <= d.day <= DaysInMonth(d.year, d.month)
  }

  /** The four-digit years of the common era: the dates whose key has exactly the
      `yyyy-MM-dd` shape and parses back. */
  predicate InKeyRange(d: Date) {
    Valid(d) && 1 <= d.year <= 9999
  }

  /** Chronological order. */
  predicate Before(a: Date, b: Date) {
    a.year < b.year || (a.year == b.year && (a.month < b.month || (a.month == b.month && a.day < b.day)))
  }

  lemma BeforeTransitive(a: Date, b: Date, c: Date)
    requires Before(a, b) && Before(b, c)
    ensures Before(a, c)
  {
  }

  /** The following calendar day (`addDays(d, 1)`). */
  function NextDay(d: Date): (r: Date)
    requires Valid(d)
    ensures Valid(r) && Before(d, r)
  {
    if d.day < DaysInMonth(d.year, d.month) then Date(d.year, d.month, d.day + 1)
    else if d.month < 12 then Date(d.year, d.month + 1, 1)
    else Date(d.year + 1, 1, 1)
  }

  /** The preceding calendar day (`subDays(d, 1)`). */
  function PrevDay(d: Date): (r: Date)
    requires Valid(d)
    ensures Valid(r) && Before(r, d)
  {
    if d.day > 1 then Date(d.year, d.month, d.day - 1)
    else if d.month > 1 then Date(d.year, d.month - 1, DaysInMonth(d.year, d.month - 1))
    else Date(d.year - 1, 12, 31)
  }

  lemma PrevNext(d: Date)
    requires Valid(d)
    ensures PrevDay(NextDay(d)) == d && NextDay(PrevDay(d)) == d
  {
  }

  /** No valid day lies strictly between a day and the next one. */
  lemma NextDayIsSuccessor(d: Date, x: Date)
    requires Valid(d) && Valid(x)
    ensures Before(d, x) <==> x == NextDay(d) || Before(NextDay(d), x)
  {
  }

  /** `n` days after `d` (before it when `n` is negative), one day at a time. */
  function AddDays(d: Date, n: int): (r: Date)
    requires Valid(d)
    ensures Valid(r)
    decreases if n >= 0 then n else -n
  {
    if n == 0 then d
    else if n > 0 then NextDay(AddDays(d, n - 1))
    else PrevDay(AddDays(d, n + 1))
  }

  lemma {:induction false} AddDaysSucc(d: Date, n: int)
    requires Valid(d)
    ensures AddDays(d, n + 1) == NextDay(AddDays(d, n))
    ensures AddDays(d, n) == PrevDay(AddDays(d, n + 1))
  {
    if n >= 0 {
      PrevNext(AddDays(d, n));
    } else {
      PrevNext(AddDays(d, n + 1));
    }
  }

  /** Shifting by `a` days and then by `b` days shifts by `a + b` days. */
  lemma {:induction false} AddDaysAdd(d: Date, a: int, b: int)
    requires Valid(d)
    ensures AddDays(AddDays(d, a), b) == AddDays(d, a + b)
    decreases if b >= 0 then b else -b
  {
    hide NextDay, PrevDay, DaysInMonth, IsLeapYear;
    if b > 0 {
      AddDaysAdd(d, a, b - 1);
      AddDaysSucc(AddDays(d, a), b - 1);
      AddDaysSucc(d, a + b - 1);
    } else if b < 0 {
      AddDaysAdd(d, a, b + 1);
      AddDaysSucc(AddDays(d, a), b);
      AddDaysSucc(d, a + b);
    }
  }

  /** Shifting is strictly increasing in the number of days, so distinct shifts give
      distinct days. */
  lemma {:induction false} AddDaysMonotone(d: Date, a: int, b: int)
    requires Valid(d) && a < b
    ensures Before(AddDays(d, a), AddDays(d, b))
    decreases b - a
  {
    AddDaysSucc(d, b - 1);
    if a < b - 1 {
      AddDaysMonotone(d, a, b - 1);
      BeforeTransitive(AddDays(d, a), AddDays(d, b - 1), AddDays(d, b));
    }
  }

  // ---- the yyyy-MM-dd key ----

  function Pow10(n: nat): (p: nat)
    ensures p >= 1
  {
    if n == 0 then 1 else 10 * Pow10(n - 1)
  }

  predicate IsDigit(c: char) {
    '0' <= c <= '9'
  }

  function Digit(n: int): (c: char)
    requires 0 <= n < 10
    ensures IsDigit(c) && c as int - 48 == n
  {
    (48 + n) as char
  }

  /** `n` in decimal, left-padded with zeros to at least `width` digits. */
  function Decimal(n: nat, width: nat): (s: string)
    ensures |s| >= 1 && |s| >= width
    ensures forall i :: 0 <= i < |s| ==> IsDigit(s[i])
    decreases n, width
  {
    if n < 10 && width <= 1 then [Digit(n)]
    else Decimal(n / 10, if width == 0 then 0 else width - 1) + [Digit(n % 10)]
  }

  /** Decimal notation is unambiguous. */
  lemma {:induction false} DecimalInjective(n: nat, m: nat, w: nat)
    requires Decimal(n, w) == Decimal(m, w)
    ensures n == m
    decreases n, w
  {
    var w' := if w == 0 then 0 else w - 1;
    if n < 10 && w <= 1 {
      assert Decimal(m, w)[0] == Digit(m);
    } else {
      var s := Decimal(n, w);
      assert s == Decimal(n / 10, w') + [Digit(n % 10)];
      assert s == Decimal(m / 10, w') + [Digit(m % 10)];
      assert s[..|s| - 1] == Decimal(n / 10, w') && s[..|s| - 1] == Decimal(m / 10, w');
      assert Digit(n % 10) == s[|s| - 1] == Digit(m % 10);
      DecimalInjective(n / 10, m / 10, w');
    }
  }

  /** A number below 10^w takes exactly `w` digits at width `w`. */
  lemma {:induction false} DecimalLength(n: nat, w: nat)
    requires w >= 1 && n < Pow10(w)
    ensures |Decimal(n, w)| == w
    decreases w
  {
    if w > 1 {
      assert n / 10 < Pow10(w - 1);
      DecimalLength(n / 10, w - 1);
    }
  }

  lemma {:induction false} DigitOrder(a: int, b: int)
    requires 0 <= a < 10 && 0 <= b < 10
    ensures Strings.Less([Digit(a)], [Digit(b)]) <==> a < b
  {
    assert [Digit(a)][1..] == [] && [Digit(b)][1..] == [];
    Strings.LessIrreflexive([]);
  }

  /** Among numbers of the same padded width, string order is numeric order. */
  lemma {:induction false} DecimalOrder(n: nat, m: nat, w: nat)
    requires w >= 1 && n < Pow10(w) && m < Pow10(w)
    ensures Strings.Less(Decimal(n, w), Decimal(m, w)) <==> n < m
    decreases w
  {
    hide Strings.Less;
    if w == 1 {
      DigitOrder(n, m);
    } else {
      assert n / 10 < Pow10(w - 1) && m / 10 < Pow10(w - 1);
      DecimalLength(n / 10, w - 1);
      DecimalLength(m / 10, w - 1);
      var a, b := Decimal(n / 10, w - 1), Decimal(m / 10, w - 1);
      Strings.LessConcat(a, [Digit(n % 10)], b, [Digit(m % 10)]);
      DecimalOrder(n / 10, m / 10, w - 1);
      DigitOrder(n % 10, m % 10);
      if a == b { DecimalInjective(n / 10, m / 10, w - 1); }
    }
  }

  function YearString(y: int): string {
    if y >= 0 then Decimal(y, 4) else "-" + Decimal(-y, 4)
  }

  function MonthDayString(m: nat, d: nat): string {
    "-" + (Decimal(m, 2) + ("-" + Decimal(d, 2)))
  }

  /** The day key `format(d, 'yyyy-MM-dd')`. A year above 9999 gets more digits, as the
      formatter writes it. A year of 0 or below gets a leading minus; this sign prefix is
      this model's own injective choice (the formatter writes the year of the era there). */
  function Key(d: Date): string
    requires Valid(d)
  {
    YearString(d.year) + MonthDayString(d.month, d.day)
  }

  lemma MonthDayLength(d: Date)
    requires Valid(d)
    ensures |MonthDayString(d.month, d.day)| == 6
  {
    DecimalLength(d.month, 2);
    DecimalLength(d.day, 2);
  }

  /** Distinct days have distinct keys. */
  lemma KeyInjective(a: Date, b: Date)
    requires Valid(a) && Valid(b) && Key(a) == Key(b)
    ensures a == b
  {
    hide Decimal, DaysInMonth, IsLeapYear;
    MonthDayLength(a);
    MonthDayLength(b);
    var ya, yb := YearString(a.year), YearString(b.year);
    var ma, mb := MonthDayString(a.month, a.day), MonthDayString(b.month, b.day);
    var k := Key(a);
    assert |ya| == |yb|;
    assert k[..|ya|] == ya && k[..|yb|] == yb;
    assert k[|ya|..] == ma && k[|yb|..] == mb;
    assert ya[0] == '-' <==> a.year < 0;
    assert yb[0] == '-' <==> b.year < 0;
    if a.year >= 0 {
      DecimalInjective(a.year, b.year, 4);
    } else {
      assert ya[1..] == Decimal(-a.year, 4) && yb[1..] == Decimal(-b.year, 4);
      DecimalInjective(-a.year, -b.year, 4);
    }
    DecimalLength(a.month, 2);
    DecimalLength(b.month, 2);
    assert ma[1..3] == Decimal(a.month, 2) && mb[1..3] == Decimal(b.month, 2);
    assert ma[4..] == Decimal(a.day, 2) && mb[4..] == Decimal(b.day, 2);
    DecimalInjective(a.month, b.month, 2);
    DecimalInjective(a.day, b.day, 2);
  }

  /** `KeyInjective` stated for any two days. */
  lemma KeysDiffer(a: Date, b: Date)
    requires Valid(a) && Valid(b)
    ensures Key(a) == Key(b) ==> a == b
  {
    if Key(a) == Key(b) {
      KeyInjective(a, b);
    }
  }

  lemma DashLess(x: string, y: string)
    ensures Strings.Less("-" + x, "-" + y) <==> Strings.Less(x, y)
  {
    assert ("-" + x)[1..] == x && ("-" + y)[1..] == y;
  }

  /** For four-digit years, sorting keys as strings sorts the days chronologically: the
      fact the best-streak computation relies on when it sorts the keys. */
  lemma KeyOrder(a: Date, b: Date)
    requires InKeyRange(a) && InKeyRange(b)
    ensures Before(a, b) <==> Strings.Less(Key(a), Key(b))
  {
    hide Decimal, DaysInMonth, IsLeapYear, Strings.Less;
    DecimalLength(a.year, 4);
    DecimalLength(b.year, 4);
    DecimalLength(a.month, 2);
    DecimalLength(b.month, 2);
    var ya, yb := Decimal(a.year, 4), Decimal(b.year, 4);
    var ma, mb := Decimal(a.month, 2), Decimal(b.month, 2);
    var da, db := Decimal(a.day, 2), Decimal(b.day, 2);
    Strings.LessConcat(ya, MonthDayString(a.month, a.day), yb, MonthDayString(b.month, b.day));
    DashLess(ma + ("-" + da), mb + ("-" + db));
    Strings.LessConcat(ma, "-" + da, mb, "-" + db);
    DashLess(da, db);
    DecimalOrder(a.year, b.year, 4);
    DecimalOrder(a.month, b.month, 2);
    DecimalOrder(a.day, b.day, 2);
    if ya == yb { DecimalInjective(a.year, b.year, 4); }
    if ma == mb { DecimalInjective(a.month, b.month, 2); }
  }

  // ---- reading a key back ----

  predicate AllDigits(s: string) {
    forall i :: 0 <= i < |s| ==> IsDigit(s[i])
  }

  function DigitsValue(s: string): (n: nat)
    requires AllDigits(s)
    ensures n < Pow10(|s|)
  {
    if s == [] then 0
    else DigitsValue(s[..|s| - 1]) * 10 + (s[|s| - 1] as int - 48)
  }

  lemma {:induction false} DigitsRoundTrip(s: string)
    requires AllDigits(s) && |s| >= 1
    ensures Decimal(DigitsValue(s), |s|) == s
    decreases |s|
  {
    var v := DigitsValue(s);
    var pre := s[..|s| - 1];
    if |s| > 1 {
      DigitsRoundTrip(pre);
      assert v / 10 == DigitsValue(pre) && v % 10 == s[|s| - 1] as int - 48;
      assert s == pre + [s[|s| - 1]];
    }
  }

  lemma {:induction false} DecimalRoundTrip(n: nat, w: nat)
    requires w >= 1 && n < Pow10(w)
    ensures AllDigits(Decimal(n, w)) && DigitsValue(Decimal(n, w)) == n
    decreases w
  {
    if w > 1 {
      assert n / 10 < Pow10(w - 1);
      DecimalRoundTrip(n / 10, w - 1);
      var s := Decimal(n, w);
      assert s[..|s| - 1] == Decimal(n / 10, w - 1);
    }
  }

  /** Reading a key back as a date (`new Date(key + 'T00:00:00')`); `None` is the
      invalid date on which formatting throws. Exactly the keys of four-digit-year
      days are read back. */
  function ParseKey(s: string): (r: Option<Date>)
    ensures r.Some? ==> InKeyRange(r.value) && Key(r.value) == s
  {
    if |s| == 10 && AllDigits(s[..4]) && s[4] == '-' && AllDigits(s[5..7]) && s[7] == '-' && AllDigits(s[8..]) then
      var d := Date(DigitsValue(s[..4]), DigitsValue(s[5..7]), DigitsValue(s[8..]));
      if InKeyRange(d) then
        DigitsRoundTrip(s[..4]);
        DigitsRoundTrip(s[5..7]);
        DigitsRoundTrip(s[8..]);
        assert s == s[..4] + ("-" + (s[5..7] + ("-" + s[8..])));
        Some(d)
      else None
    else None
  }

  /** Every four-digit-year key reads back as its own day. */
  lemma ParseKeyOfKey(d: Date)
    requires InKeyRange(d)
    ensures ParseKey(Key(d)) == Some(d)
  {
    hide DaysInMonth, IsLeapYear;
    DecimalLength(d.year, 4);
    DecimalLength(d.month, 2);
    DecimalLength(d.day, 2);
    DecimalRoundTrip(d.year, 4);
    DecimalRoundTrip(d.month, 2);
    DecimalRoundTrip(d.day, 2);
    var s := Key(d);
    assert s[..4] == Decimal(d.year, 4);
    assert s[5..7] == Decimal(d.month, 2);
    assert s[8..] == Decimal(d.day, 2);
  }
}
