/** Calendar dates as Python's `datetime` sees them: the proleptic Gregorian
    calendar, years 1 to 9999, day numbers as `date.toordinal()` computes them,
    and `datetime.strptime` for the two formats the updater parses,
    `%Y-%m` and `%Y-%m-%d`. */
module Calendar {
  import opened Wrappers

  datatype Date = Date(year: int, month: int, day: int)

  const MinYear: int := 1
  const MaxYear: int := 9999

  predicate IsLeap(y: int)
  {
    y % 4 == 0 && (y % 100 != 0 || y % 400 == 0)
  }

  function DaysInMonth(y: int, m: int): (n: int)
    requires 1 <= m <= 12
    ensures 28 <= n <= 31
  {
    if m == 2 then (if IsLeap(y) then 29 else 28)
    else if m == 4 || m == 6 || m == 9 || m == 11 then 30
    else 31
  }

  function DaysInYear(y: int): int
  {
    if IsLeap(y) then 366 else 365
  }

  /** A date `datetime` accepts. */
  predicate ValidDate(d: Date)
  {
    && MinYear <= d.year <= MaxYear
    && 1 <= d.month <= 12
    && 1 <= d.day <= DaysInMonth(d.year, d.month)
  }

  /** Days in the years before `y`, counted from 1 January of year 1. */
  function DaysBeforeYear(y: int): int
    requires y >= 1
  {
    var p := y - 1;
    p * 365 + p / 4 - p / 100 + p / 400
  }

  /** Days in the months of year `y` before month `m`. */
  function DaysBeforeMonth(y: int, m: int): int
    requires 1 <= m <= 12
  {
    var table := [0, 31, 59, 90, 120, 151, 181, 212, 243, 273, 304, 334];
    table[m - 1] + (if m > 2 && IsLeap(y) then 1 else 0)
  }

  /** `date.toordinal()`: 1 January of year 1 is day 1. */
  function Ordinal(d: Date): int
    requires d.year >= 1 && 1 <= d.month <= 12
  {
    DaysBeforeYear(d.year) + DaysBeforeMonth(d.year, d.month) + d.day
  }

  /** Months counted from January of year 0, so that consecutive months have
      consecutive indices. */
  function MonthIndex(d: Date): int
  {
    12 * d.year + d.month - 1
  }

  /** The first day of the month with index `k`. */
  function FirstOfMonth(k: int): (d: Date)
    requires k >= 12
    ensures d.year >= 1 && 1 <= d.month <= 12 && d.day == 1
    ensures MonthIndex(d) == k
  {
    Date(k / 12, k % 12 + 1, 1)
  }

  // ---------------------------------------------------------------------
  // Day counting

  /** Moving on by one crosses a multiple of 4 exactly when it lands on one. */
  lemma QuarterStep(p: int)
    requires p >= 0
    ensures (p + 1) / 4 == p / 4 + (if (p + 1) % 4 == 0 then 1 else 0)
  {
  }

  lemma CenturyStep(p: int)
    requires p >= 0
    ensures (p + 1) / 100 == p / 100 + (if (p + 1) % 100 == 0 then 1 else 0)
  {
  }

  lemma QuadricentennialStep(p: int)
    requires p >= 0
    ensures (p + 1) / 400 == p / 400 + (if (p + 1) % 400 == 0 then 1 else 0)
  {
  }

  /** A multiple of 400 is one of 100, and a multiple of 100 one of 4. */
  lemma LeapDivisors(y: int)
    ensures y % 400 == 0 ==> y % 100 == 0
    ensures y % 100 == 0 ==> y % 4 == 0
  {
    if y % 400 == 0 {
      assert y == 400 * (y / 400);
    }
    if y % 100 == 0 {
      assert y == 100 * (y / 100);
    }
  }

  /** A year adds 365 days, or 366 in a leap year. */
  lemma DaysBeforeNextYear(y: int)
    requires y >= 1
    ensures DaysBeforeYear(y + 1) == DaysBeforeYear(y) + DaysInYear(y)
  {
    QuarterStep(y - 1);
    CenturyStep(y - 1);
    QuadricentennialStep(y - 1);
    LeapDivisors(y);
  }

  /** The month after month `k - 1` is the next month of the same year, or
      January of the next year after December. */
  lemma FirstOfNextMonth(k: int)
    requires k >= 13
    ensures var d := FirstOfMonth(k - 1);
      FirstOfMonth(k) == if d.month == 12 then Date(d.year + 1, 1, 1) else Date(d.year, d.month + 1, 1)
  {
    var d := FirstOfMonth(k - 1);
    var e := FirstOfMonth(k);
    assert 12 * e.year + e.month == 12 * d.year + d.month + 1;
    if d.month == 12 {
      assert 12 * e.year + e.month == 12 * (d.year + 1) + 1;
    }
  }

  /** December has 31 days. */
  lemma NewYearStart(y: int)
    requires y >= 1
    ensures Ordinal(Date(y + 1, 1, 1)) == Ordinal(Date(y, 12, 1)) + 31
  {
    DaysBeforeNextYear(y);
  }

  /** Within a year, the first of a month lies the length of the previous
      month after the first of that month. */
  lemma SameYearNextMonth(y: int, m: int)
    requires y >= 1 && 1 <= m < 12
    ensures Ordinal(Date(y, m + 1, 1)) == Ordinal(Date(y, m, 1)) + DaysInMonth(y, m)
  {
    assert DaysBeforeMonth(y, m + 1) == DaysBeforeMonth(y, m) + DaysInMonth(y, m);
  }

  /** The first of a month lies exactly the length of the month before it
      after the first of that month. */
  lemma NextMonthStart(k: int)
    requires k >= 13
    ensures Ordinal(FirstOfMonth(k)) == Ordinal(FirstOfMonth(k - 1))
                                        + DaysInMonth(FirstOfMonth(k - 1).year, FirstOfMonth(k - 1).month)
  {
    var d := FirstOfMonth(k - 1);
    FirstOfNextMonth(k);
    assert d == Date(d.year, d.month, 1);
    if d.month == 12 {
      NewYearStart(d.year);
    } else {
      SameYearNextMonth(d.year, d.month);
    }
  }

  /** The day number of the first of month `k`, counted month by month from
      1 January of year 1 (day 1). */
  function MonthStart(k: int): int
    requires k >= 12
    decreases k
  {
    if k == 12 then 1
    else MonthStart(k - 1) + DaysInMonth(FirstOfMonth(k - 1).year, FirstOfMonth(k - 1).month)
  }

  /** One month's step of the count agrees with `toordinal`. */
  lemma MonthStartStep(k: int)
    requires k >= 13
    requires MonthStart(k - 1) == Ordinal(FirstOfMonth(k - 1))
    ensures MonthStart(k) == Ordinal(FirstOfMonth(k))
  {
    NextMonthStart(k);
  }

  /** Counting month by month agrees with `toordinal`. */
  lemma {:induction false} MonthStartIsOrdinal(k: int)
    requires k >= 12
    ensures MonthStart(k) == Ordinal(FirstOfMonth(k))
    decreases k
  {
    if k == 12 {
      assert FirstOfMonth(12) == Date(1, 1, 1);
    } else {
      MonthStartIsOrdinal(k - 1);
      MonthStartStep(k);
    }
  }

  /** Each month has between 28 and 31 days, so from the first of month `k` to
      the first of a later month `l` there are between 28 and 31 days per month. */
  lemma {:induction false} MonthsLater(k: int, l: int)
    requires 12 <= k <= l
    ensures 28 * (l - k) <= MonthStart(l) - MonthStart(k) <= 31 * (l - k)
    decreases l
  {
    if l > k {
      MonthsLater(k, l - 1);
    }
  }

  /** A date is its month's first day moved on by `day - 1` days. */
  lemma OrdinalInMonth(d: Date)
    requires d.year >= 1 && 1 <= d.month <= 12
    ensures Ordinal(d) == MonthStart(MonthIndex(d)) + d.day - 1
  {
    assert FirstOfMonth(MonthIndex(d)) == Date(d.year, d.month, 1);
    MonthStartIsOrdinal(MonthIndex(d));
  }

  /** The first of the month after `d`'s lies the length of `d`'s month after
      the first of `d`'s month. */
  lemma MonthStartOfNext(d: Date)
    requires d.year >= 1 && 1 <= d.month <= 12
    ensures MonthStart(MonthIndex(d) + 1) == MonthStart(MonthIndex(d)) + DaysInMonth(d.year, d.month)
  {
    assert FirstOfMonth(MonthIndex(d)) == Date(d.year, d.month, 1);
  }

  /** A valid date lies between the first of its month and the first of the next. */
  lemma OrdinalWithinMonth(d: Date)
    requires ValidDate(d)
    ensures MonthStart(MonthIndex(d)) <= Ordinal(d) < MonthStart(MonthIndex(d) + 1)
  {
    OrdinalInMonth(d);
    MonthStartOfNext(d);
  }

  /** Among valid dates, an earlier month means an earlier day. */
  lemma EarlierMonthEarlierDay(a: Date, b: Date)
    requires ValidDate(a) && ValidDate(b)
    requires MonthIndex(a) < MonthIndex(b)
    ensures Ordinal(a) < Ordinal(b)
  {
    OrdinalWithinMonth(a);
    OrdinalWithinMonth(b);
    MonthsLater(MonthIndex(a) + 1, MonthIndex(b));
  }

  /** Days from the first of month `f` to a date in the same month or earlier:
      at most 30. */
  lemma NotLaterMonthDays(f: Date, d: Date)
    requires ValidDate(f) && f.day == 1 && ValidDate(d)
    requires MonthIndex(d) <= MonthIndex(f)
    ensures Ordinal(d) - Ordinal(f) <= 30
  {
    if MonthIndex(d) < MonthIndex(f) {
      EarlierMonthEarlierDay(d, f);
    } else {
      assert d.year == f.year && d.month == f.month;
    }
  }

  /** Days from the first of month `f` to a date in the next month: the length
      of `f`'s month plus the day of the month, less one. */
  lemma NextMonthDays(f: Date, d: Date)
    requires ValidDate(f) && f.day == 1 && ValidDate(d)
    requires MonthIndex(d) == MonthIndex(f) + 1
    ensures Ordinal(d) - Ordinal(f) == DaysInMonth(f.year, f.month) + d.day - 1
  {
    OrdinalInMonth(f);
    OrdinalInMonth(d);
    MonthStartOfNext(f);
  }

  /** Days from the first of month `f` to a date two or more months later: at least 56. */
  lemma LaterMonthDays(f: Date, d: Date)
    requires ValidDate(f) && f.day == 1 && ValidDate(d)
    requires MonthIndex(d) >= MonthIndex(f) + 2
    ensures Ordinal(d) - Ordinal(f) >= 56
  {
    OrdinalInMonth(f);
    OrdinalInMonth(d);
    MonthsLater(MonthIndex(f), MonthIndex(d));
  }

  // ---------------------------------------------------------------------
  // strptime

  predicate IsDigit(c: char)
  {
    '0' <= c <= '9'
  }

  function Digit(c: char): (v: int)
    requires IsDigit(c)
    ensures 0 <= v <= 9
  {
    c as int - '0' as int
  }

  function DigitChar(v: int): (c: char)
    requires 0 <= v <= 9
    ensures IsDigit(c) && Digit(c) == v
  {
    ('0' as int + v) as char
  }

  /** `%Y`: exactly four digits at the start of `s`. */
  function YearField(s: string): Option<int>
  {
    if |s| >= 4 && IsDigit(s[0]) && IsDigit(s[1]) && IsDigit(s[2]) && IsDigit(s[3])
    then Some(1000 * Digit(s[0]) + 100 * Digit(s[1]) + 10 * Digit(s[2]) + Digit(s[3]))
    else None
  }

  /** `%m`: the first of the alternatives `1[0-2]`, `0[1-9]`, `[1-9]` that
      matches at the start of `t`, as the value and the number of characters used. */
  function MonthField(t: string): (r: Option<(int, nat)>)
    ensures r.Some? ==> 1 <= r.value.0 <= 12 && 1 <= r.value.1 <= 2 && r.value.1 <= |t|
  {
    if |t| >= 2 && t[0] == '1' && '0' <= t[1] <= '2' then Some((10 + Digit(t[1]), 2))
    else if |t| >= 2 && t[0] == '0' && '1' <= t[1] <= '9' then Some((Digit(t[1]), 2))
    else if |t| >= 1 && '1' <= t[0] <= '9' then Some((Digit(t[0]), 1))
    else None
  }

  /** `%d`: the first of the alternatives `3[01]`, `[12][0-9]`, `0[1-9]`, `[1-9]`
      and space-then-`[1-9]` that matches at the start of `t`. */
  function DayField(t: string): (r: Option<(int, nat)>)
    ensures r.Some? ==> 1 <= r.value.0 <= 31 && 1 <= r.value.1 <= 2 && r.value.1 <= |t|
  {
    if |t| >= 2 && t[0] == '3' && '0' <= t[1] <= '1' then Some((30 + Digit(t[1]), 2))
    else if |t| >= 2 && '1' <= t[0] <= '2' && IsDigit(t[1]) then Some((10 * Digit(t[0]) + Digit(t[1]), 2))
    else if |t| >= 2 && t[0] == '0' && '1' <= t[1] <= '9' then Some((Digit(t[1]), 2))
    else if |t| >= 1 && '1' <= t[0] <= '9' then Some((Digit(t[0]), 1))
    else if |t| >= 2 && t[0] == ' ' && '1' <= t[1] <= '9' then Some((Digit(t[1]), 2))
    else None
  }

  /** `datetime.strptime(s, "%Y-%m")`: the whole string must match, year 0 is
      refused, and the day is the first of the month. `None` is the ValueError. */
  function ParseYearMonth(s: string): (r: Option<Date>)
    ensures r.Some? ==> ValidDate(r.value) && r.value.day == 1
  {
    match YearField(s)
    case None => None
    case Some(y) =>
      if |s| < 5 || s[4] != '-' then None
      else match MonthField(s[5..])
        case None => None
        case Some((m, w)) =>
          if 5 + w != |s| || y < MinYear then None
          else Some(Date(y, m, 1))
  }

  /** `datetime.strptime(s, "%Y-%m-%d")`: the whole string must match and the
      day must exist in that month. `None` is the ValueError. */
  function ParseDate(s: string): (r: Option<Date>)
    ensures r.Some? ==> ValidDate(r.value)
  {
    match YearField(s)
    case None => None
    case Some(y) =>
      if |s| < 5 || s[4] != '-' then None
      else match MonthField(s[5..])
        case None => None
        case Some((m, w)) =>
          if |s| < 6 + w || s[5 + w] != '-' then None
          else match DayField(s[6 + w..])
            case None => None
            case Some((d, v)) =>
              if 6 + w + v != |s| || y < MinYear || d > DaysInMonth(y, m) then None
              else Some(Date(y, m, d))
  }

  // ---------------------------------------------------------------------
  // The canonical spellings, and that the parsers read them back

  /** Two digits, zero-padded. */
  function Pad2(v: int): (s: string)
    requires 0 <= v <= 99
    ensures |s| == 2
  {
    [DigitChar(v / 10), DigitChar(v % 10)]
  }

  /** Four digits, zero-padded. */
  function Pad4(v: int): (s: string)
    requires 0 <= v <= 9999
    ensures |s| == 4
  {
    var tens := v / 10;
    var hundreds := tens / 10;
    [DigitChar(hundreds / 10), DigitChar(hundreds % 10), DigitChar(tens % 10), DigitChar(v % 10)]
  }

  /** `d.strftime("%Y-%m")`, the version segment of a local file name. */
  function FormatYearMonth(d: Date): string
    requires ValidDate(d)
  {
    Pad4(d.year) + "-" + Pad2(d.month)
  }

  /** `d.strftime("%Y-%m-%d")`, the date part of a catalog `issued` stamp. */
  function FormatDate(d: Date): string
    requires ValidDate(d)
  {
    Pad4(d.year) + "-" + Pad2(d.month) + "-" + Pad2(d.day)
  }

  /** The spellings `%m` accepts for month `m`: two digits, or one digit for
      months 1 to 9. */
  predicate MonthSpelling(m: int, t: string)
    requires 1 <= m <= 12
  {
    t == Pad2(m) || (m <= 9 && t == [DigitChar(m)])
  }

  /** The spellings `%d` accepts for day `d`: two digits, or for days 1 to 9
      one digit, alone or after a space. */
  predicate DaySpelling(d: int, t: string)
    requires 1 <= d <= 31
  {
    t == Pad2(d) || (d <= 9 && (t == [DigitChar(d)] || t == [' ', DigitChar(d)]))
  }

  lemma YearFieldPad4(y: int, rest: string)
    requires 0 <= y <= 9999
    ensures YearField(Pad4(y) + rest) == Some(y)
  {
    var s := Pad4(y) + rest;
    var tens := y / 10;
    var hundreds := tens / 10;
    assert s[0] == DigitChar(hundreds / 10) && s[1] == DigitChar(hundreds % 10);
    assert s[2] == DigitChar(tens % 10) && s[3] == DigitChar(y % 10);
    assert y == 10 * tens + y % 10;
    assert tens == 10 * hundreds + tens % 10;
    assert hundreds == 10 * (hundreds / 10) + hundreds % 10;
  }

  /** A `%m` spelling followed by the end or a `-` is read back whole. */
  lemma MonthFieldSpelling(m: int, mt: string, rest: string)
    requires 1 <= m <= 12 && MonthSpelling(m, mt)
    requires rest == [] || rest[0] == '-'
    ensures MonthField(mt + rest) == Some((m, |mt|))
  {
    var t := mt + rest;
    if mt == Pad2(m) {
      assert t[0] == DigitChar(m / 10) && t[1] == DigitChar(m % 10);
    } else {
      assert t[0] == DigitChar(m);
      if |t| >= 2 { assert t[1] == rest[0]; }
    }
  }

  /** A `%d` spelling is read back whole. */
  lemma DaySpellingRead(d: int, dt: string)
    requires 1 <= d <= 31 && DaySpelling(d, dt)
    ensures DayField(dt) == Some((d, |dt|))
  {
    if dt == Pad2(d) {
      assert dt[0] == DigitChar(d / 10) && dt[1] == DigitChar(d % 10);
    }
  }

  /** Parsing a `%Y-%m` spelling of the first of a month gives that date back. */
  lemma {:induction false} ParseYearMonthOfSpelling(d: Date, mt: string)
    requires ValidDate(d) && d.day == 1 && MonthSpelling(d.month, mt)
    ensures ParseYearMonth(Pad4(d.year) + "-" + mt) == Some(d)
  {
    var s := Pad4(d.year) + "-" + mt;
    YearFieldPad4(d.year, "-" + mt);
    assert s == Pad4(d.year) + ("-" + mt);
    assert s[5..] == mt + [];
    MonthFieldSpelling(d.month, mt, []);
  }

  /** Parsing a `%Y-%m-%d` spelling of a valid date gives that date back. */
  lemma {:induction false} ParseDateOfSpelling(d: Date, mt: string, dt: string)
    requires ValidDate(d) && MonthSpelling(d.month, mt) && DaySpelling(d.day, dt)
    ensures ParseDate(Pad4(d.year) + "-" + mt + "-" + dt) == Some(d)
  {
    var s := Pad4(d.year) + "-" + mt + "-" + dt;
    assert s == Pad4(d.year) + ("-" + mt + "-" + dt);
    YearFieldPad4(d.year, "-" + mt + "-" + dt);
    assert s[5..] == mt + ("-" + dt);
    MonthFieldSpelling(d.month, mt, "-" + dt);
    assert s[6 + |mt|..] == dt;
    DaySpellingRead(d.day, dt);
  }

  /** Parsing the canonical `YYYY-MM` spelling of the first of a month gives that date back. */
  lemma ParseFormatYearMonth(d: Date)
    requires ValidDate(d) && d.day == 1
    ensures ParseYearMonth(FormatYearMonth(d)) == Some(d)
  {
    ParseYearMonthOfSpelling(d, Pad2(d.month));
  }

  /** Parsing the canonical `YYYY-MM-DD` spelling of a valid date gives that date back. */
  lemma ParseFormatDate(d: Date)
    requires ValidDate(d)
    ensures ParseDate(FormatDate(d)) == Some(d)
  {
    ParseDateOfSpelling(d, Pad2(d.month), Pad2(d.day));
  }

  // ---------------------------------------------------------------------
  // And nothing else parses

  /** The four characters `%Y` reads spell the year it returns. */
  lemma YearFieldSpelled(s: string)
    requires YearField(s).Some?
    ensures 0 <= YearField(s).value <= 9999 && s[..4] == Pad4(YearField(s).value)
  {
    var y := YearField(s).value;
    var tens := y / 10;
    var hundreds := tens / 10;
    assert y % 10 == Digit(s[3]) && tens == 100 * Digit(s[0]) + 10 * Digit(s[1]) + Digit(s[2]);
    assert tens % 10 == Digit(s[2]) && hundreds == 10 * Digit(s[0]) + Digit(s[1]);
    assert hundreds % 10 == Digit(s[1]) && hundreds / 10 == Digit(s[0]);
  }

  /** The characters `%m` reads are a spelling of the month it returns. */
  lemma MonthFieldSpelled(t: string)
    requires MonthField(t).Some?
    ensures var (m, w) := MonthField(t).value; MonthSpelling(m, t[..w])
  {
    var (m, w) := MonthField(t).value;
    if w == 2 {
      assert m / 10 == Digit(t[0]) && m % 10 == Digit(t[1]);
    }
  }

  /** The characters `%d` reads are a spelling of the day it returns. */
  lemma DayFieldSpelled(t: string)
    requires DayField(t).Some?
    ensures var (d, w) := DayField(t).value; DaySpelling(d, t[..w])
  {
    var (d, w) := DayField(t).value;
    if w == 2 && t[0] != ' ' {
      assert d / 10 == Digit(t[0]) && d % 10 == Digit(t[1]);
    }
  }

  /** Every string `%Y-%m` accepts is a spelling of the month it returns: four
      year digits, `-`, and the month in two digits or, below 10, in one. */
  lemma {:induction false} ParseYearMonthSpelled(s: string) returns (mt: string)
    requires ParseYearMonth(s).Some?
    ensures var d := ParseYearMonth(s).value;
      s == Pad4(d.year) + "-" + mt && MonthSpelling(d.month, mt)
  {
    YearFieldSpelled(s);
    var (m, w) := MonthField(s[5..]).value;
    MonthFieldSpelled(s[5..]);
    mt := s[5..][..w];
    assert s == s[..4] + "-" + mt;
  }

  /** Every string `%Y-%m-%d` accepts is a spelling of the date it returns:
      the month as `%m` spells it, and the day in two digits or, below 10, in
      one, alone or after a space. */
  lemma {:induction false} ParseDateSpelled(s: string) returns (mt: string, dt: string)
    requires ParseDate(s).Some?
    ensures var d := ParseDate(s).value;
      s == Pad4(d.year) + "-" + mt + "-" + dt && MonthSpelling(d.month, mt) && DaySpelling(d.day, dt)
  {
    YearFieldSpelled(s);
    var (m, w) := MonthField(s[5..]).value;
    MonthFieldSpelled(s[5..]);
    mt := s[5..][..w];
    var (d, v) := DayField(s[6 + w..]).value;
    DayFieldSpelled(s[6 + w..]);
    dt := s[6 + w..][..v];
    assert s == s[..4] + "-" + mt + "-" + dt;
  }
}
