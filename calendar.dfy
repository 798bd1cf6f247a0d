/**
 * The one calendar used throughout: the proleptic Gregorian calendar, with timestamps already
 * split into their local fields. Dates are built the way JavaScript's `new Date(year, monthIndex,
 * day, ...)` builds them: a year 0..99 means 1900 + year, a month index outside 0..11 carries into
 * the year, and the day is counted from the first of that month (so day 0 is the day before it).
 */
module Calendar {

  /** A calendar day; `month` is 1..12 in a valid date. */
  datatype Date = Date(year: int, month: int, day: int)

  /** A local date-time, already decoded into its fields (month 1..12, day 1..31, ms 0..999). */
  datatype Timestamp = Timestamp(year: int, month: int, day: int,
                                 hour: int, minute: int, second: int, ms: int)

  /** A month of a year; `month` is 1..12. */
  datatype YearMonth = YearMonth(year: int, month: int)

  /** The Gregorian leap rule. */
  predicate IsLeapYear(y: int) {
    y % 4 == 0 && (y % 100 != 0 || y % 400 == 0)
  }

  /** The number of days of a month, by the Gregorian table. */
  function MonthLength(year: int, month: int): int
    requires 1 <= month <= 12
  {
    if month == 2 then (if IsLeapYear(year) then 29 else 28)
    else if month == 4 || month == 6 || month == 9 || month == 11 then 30
    else 31
  }

  predicate ValidDate(d: Date) {
    1 <= d.month <= 12 && 1 <= d.day <= MonthLength(d.year, d.month)
  }

  predicate ValidTimestamp(t: Timestamp) {
    && ValidDate(DateOf(t))
    && 0 <= t.hour < 24 && 0 <= t.minute < 60 && 0 <= t.second < 60 && 0 <= t.ms < 1000
  }

  /** The day of a timestamp (what `getDate()`, `getMonth()` and `getFullYear()` read). */
  function DateOf(t: Timestamp): Date {
    Date(t.year, t.month, t.day)
  }

  /** A date at a time of day. */
  function At(d: Date, hour: int, minute: int, second: int, ms: int): Timestamp {
    Timestamp(d.year, d.month, d.day, hour, minute, second, ms)
  }

  /** The fields of a timestamp, most significant first. */
  function TimeFields(t: Timestamp): (f: seq<int>)
    ensures |f| == 7
  {
    [t.year, t.month, t.day, t.hour, t.minute, t.second, t.ms]
  }

  /** The lexicographic order on equally long sequences of numbers. */
  predicate LexAtMost(a: seq<int>, b: seq<int>)
    requires |a| == |b|
  {
    |a| == 0 || a[0] < b[0] || (a[0] == b[0] && LexAtMost(a[1..], b[1..]))
  }

  lemma {:induction false} LexAtMostTotal(a: seq<int>, b: seq<int>)
    requires |a| == |b|
    ensures LexAtMost(a, b) || LexAtMost(b, a)
  {
    if |a| > 0 && a[0] == b[0] {
      LexAtMostTotal(a[1..], b[1..]);
    }
  }

  lemma {:induction false} LexAtMostTransitive(a: seq<int>, b: seq<int>, c: seq<int>)
    requires |a| == |b| == |c| && LexAtMost(a, b) && LexAtMost(b, c)
    ensures LexAtMost(a, c)
  {
    if |a| > 0 && a[0] == b[0] && b[0] == c[0] {
      LexAtMostTransitive(a[1..], b[1..], c[1..]);
    }
  }

  /** `a` is not later than `b`: the lexicographic order on the fields, year first. */
  predicate AtOrBefore(a: Timestamp, b: Timestamp) {
    LexAtMost(TimeFields(a), TimeFields(b))
  }

  lemma AtOrBeforeTotal(a: Timestamp, b: Timestamp)
    ensures AtOrBefore(a, b) || AtOrBefore(b, a)
  {
    LexAtMostTotal(TimeFields(a), TimeFields(b));
  }

  lemma AtOrBeforeTransitive(a: Timestamp, b: Timestamp, c: Timestamp)
    requires AtOrBefore(a, b) && AtOrBefore(b, c)
    ensures AtOrBefore(a, c)
  {
    LexAtMostTransitive(TimeFields(a), TimeFields(b), TimeFields(c));
  }

  /** One step of the lexicographic order: the first field decides unless it is equal. */
  lemma LexAtMostStep(a: seq<int>, b: seq<int>)
    requires |a| == |b| > 0
    ensures LexAtMost(a, b) <==> a[0] < b[0] || (a[0] == b[0] && LexAtMost(a[1..], b[1..]))
  {
  }

  /** The order spelled out field by field. */
  lemma AtOrBeforeFieldwise(a: Timestamp, b: Timestamp)
    ensures AtOrBefore(a, b) <==>
      || a.year < b.year
      || (a.year == b.year && a.month < b.month)
      || (a.year == b.year && a.month == b.month && a.day < b.day)
      || (a.year == b.year && a.month == b.month && a.day == b.day && a.hour < b.hour)
      || (a.year == b.year && a.month == b.month && a.day == b.day && a.hour == b.hour
          && a.minute < b.minute)
      || (a.year == b.year && a.month == b.month && a.day == b.day && a.hour == b.hour
          && a.minute == b.minute && a.second < b.second)
      || (a.year == b.year && a.month == b.month && a.day == b.day && a.hour == b.hour
          && a.minute == b.minute && a.second == b.second && a.ms <= b.ms)
  {
    var x := TimeFields(a);
    var y := TimeFields(b);
    LexAtMostStep(x, y);
    assert x[1..] == [a.month, a.day, a.hour, a.minute, a.second, a.ms];
    assert y[1..] == [b.month, b.day, b.hour, b.minute, b.second, b.ms];
    LexAtMostStep(x[1..], y[1..]);
    assert x[2..] == x[1..][1..] == [a.day, a.hour, a.minute, a.second, a.ms];
    assert y[2..] == y[1..][1..] == [b.day, b.hour, b.minute, b.second, b.ms];
    LexAtMostStep(x[2..], y[2..]);
    assert x[3..] == x[2..][1..] == [a.hour, a.minute, a.second, a.ms];
    assert y[3..] == y[2..][1..] == [b.hour, b.minute, b.second, b.ms];
    LexAtMostStep(x[3..], y[3..]);
    assert x[4..] == x[3..][1..] == [a.minute, a.second, a.ms];
    assert y[4..] == y[3..][1..] == [b.minute, b.second, b.ms];
    LexAtMostStep(x[4..], y[4..]);
    assert x[5..] == x[4..][1..] == [a.second, a.ms];
    assert y[5..] == y[4..][1..] == [b.second, b.ms];
    LexAtMostStep(x[5..], y[5..]);
    assert x[6..] == x[5..][1..] == [a.ms];
    assert y[6..] == y[5..][1..] == [b.ms];
    LexAtMostStep(x[6..], y[6..]);
    assert x[6..][1..] == [];
  }

  /** JavaScript's reading of the year argument of `new Date(year, ...)`: 0..99 means 19xx. */
  function FullYear(year: int): (y: int)
    ensures 0 <= year <= 99 ==> y == 1900 + year
    ensures (year < 0 || 99 < year) ==> y == year
  {
    if 0 <= year <= 99 then 1900 + year else year
  }

  /** The month that a 0-based month index denotes relative to `year`; an index outside 0..11
      carries whole years, as JavaScript's date construction does. The absolute month number
      (12 * year + index) is preserved. */
  function MonthOfIndex(year: int, monthIndex: int): (r: YearMonth)
    ensures 1 <= r.month <= 12
    ensures r.year * 12 + (r.month - 1) == year * 12 + monthIndex
  {
    YearMonth(year + monthIndex / 12, monthIndex % 12 + 1)
  }

  /** The month before `ym`. */
  function PreviousMonth(ym: YearMonth): (r: YearMonth)
    requires 1 <= ym.month <= 12
    ensures 1 <= r.month <= 12
    ensures r.year * 12 + r.month == ym.year * 12 + ym.month - 1
  {
    if ym.month == 1 then YearMonth(ym.year - 1, 12) else YearMonth(ym.year, ym.month - 1)
  }

  /** The last day of a month. */
  function LastDay(ym: YearMonth): (d: Date)
    requires 1 <= ym.month <= 12
    ensures ValidDate(d)
    ensures d.year == ym.year && d.month == ym.month
  {
    Date(ym.year, ym.month, MonthLength(ym.year, ym.month))
  }

  /** The day after a valid date. */
  function NextDay(d: Date): (r: Date)
    requires ValidDate(d)
    ensures ValidDate(r)
  {
    if d.day < MonthLength(d.year, d.month) then Date(d.year, d.month, d.day + 1)
    else if d.month < 12 then Date(d.year, d.month + 1, 1)
    else Date(d.year + 1, 1, 1)
  }

  /** The day before a valid date. */
  function PreviousDay(d: Date): (r: Date)
    requires ValidDate(d)
    ensures ValidDate(r)
  {
    if d.day > 1 then Date(d.year, d.month, d.day - 1)
    else LastDay(PreviousMonth(YearMonth(d.year, d.month)))
  }

  /** Stepping a day back and a day forward are inverse to each other. */
  lemma NextDayPreviousDay(d: Date)
    requires ValidDate(d)
    ensures NextDay(PreviousDay(d)) == d
    ensures PreviousDay(NextDay(d)) == d
  {
  }

  /** The date `k` days after (for negative `k`: `-k` days before) a valid date. */
  function AddDays(d: Date, k: int): (r: Date)
    requires ValidDate(d)
    ensures ValidDate(r)
    decreases if k < 0 then -k else k
  {
    if k == 0 then d
    else if k > 0 then NextDay(AddDays(d, k - 1))
    else PreviousDay(AddDays(d, k + 1))
  }

  /** The date that `new Date(year, monthIndex, day)` denotes: the first of the month that
      `monthIndex` names, moved by `day - 1` days. */
  function MakeDate(year: int, monthIndex: int, day: int): (d: Date)
    ensures ValidDate(d)
  {
    var ym := MonthOfIndex(FullYear(year), monthIndex);
    AddDays(Date(ym.year, ym.month, 1), day - 1)
  }

  /** The month before the one an index names is the one the previous index names. */
  lemma PreviousMonthOfIndex(year: int, monthIndex: int)
    ensures PreviousMonth(MonthOfIndex(year, monthIndex)) == MonthOfIndex(year, monthIndex - 1)
  {
    var a := PreviousMonth(MonthOfIndex(year, monthIndex));
    var b := MonthOfIndex(year, monthIndex - 1);
    // Both have month 1..12 and the same absolute month number, so they are equal.
    assert a.year * 12 + (a.month - 1) == b.year * 12 + (b.month - 1);
  }

  /** Day 0 of the month after (year, month) is the last day of (year, month): this is how
      `new Date(year, month, 0)` yields the last day of the 1-based `month`. */
  lemma DayZeroIsLastDay(year: int, month: int)
    ensures MakeDate(year, month, 0) == LastDay(MonthOfIndex(FullYear(year), month - 1))
  {
    var ym := MonthOfIndex(FullYear(year), month);
    var first := Date(ym.year, ym.month, 1);
    assert AddDays(first, 0) == first;
    assert MakeDate(year, month, 0) == PreviousDay(first);
    PreviousMonthOfIndex(FullYear(year), month);
  }

  /** `new Date(year, month - 1, 1)` is the first day of the month that (year, month) names. */
  lemma FirstDayOfMonth(year: int, month: int)
    ensures var ym := MonthOfIndex(FullYear(year), month - 1);
            MakeDate(year, month - 1, 1) == Date(ym.year, ym.month, 1)
  {
  }

  /** `new Date(year, month, 0).getDate()`: the length of the 1-based `month` of `year`. */
  function DaysInMonth(year: int, month: int): (n: int)
    ensures var ym := MonthOfIndex(FullYear(year), month - 1);
            n == MonthLength(ym.year, ym.month)
    ensures 28 <= n <= 31
  {
    DayZeroIsLastDay(year, month);
    MakeDate(year, month, 0).day
  }

  /** A month has 29 days exactly when it is February of a leap year, 28 when it is February
      of a common year, and 30 or 31 otherwise. */
  lemma DaysInMonthLeapRule(year: int, month: int)
    requires 1 <= month <= 12
    requires year < 0 || 99 < year
    ensures DaysInMonth(year, month) == 29 <==> month == 2 && IsLeapYear(year)
    ensures DaysInMonth(year, month) == 28 <==> month == 2 && !IsLeapYear(year)
    ensures month != 2 ==> DaysInMonth(year, month) >= 30
  {
    var ym := MonthOfIndex(FullYear(year), month - 1);
    assert ym == YearMonth(year, month);
  }

  lemma LeapFebruaryExamples()
    ensures DaysInMonth(2024, 2) == 29
    ensures DaysInMonth(2023, 2) == 28
    ensures DaysInMonth(1900, 2) == 28
    ensures DaysInMonth(2000, 2) == 29
    ensures DaysInMonth(2023, 13) == 31   // month 13 of 2023 is January 2024
  {
    DaysInMonthLeapRule(2024, 2);
    DaysInMonthLeapRule(2023, 2);
    DaysInMonthLeapRule(1900, 2);
    DaysInMonthLeapRule(2000, 2);
    assert MonthOfIndex(2023, 12) == YearMonth(2024, 1);
  }

  /** Concrete readings of `new Date(year, monthIndex, day)`: a two-digit year means 19xx, an
      index of 12 carries into January of the next year, day 0 is the last day of the month
      before, and a year from 100 on or below 0 is taken as written. */
  lemma NewDateExamples()
    ensures MakeDate(99, 12, 1) == Date(2000, 1, 1)
    ensures MakeDate(0, 2, 0) == Date(1900, 2, 28)
    ensures MakeDate(24, 2, 0) == Date(1924, 2, 29)
    ensures MakeDate(100, 0, 1) == Date(100, 1, 1)
    ensures MakeDate(-1, 0, 1) == Date(-1, 1, 1)
  {
    assert MonthOfIndex(1999, 12) == YearMonth(2000, 1);
    assert MonthOfIndex(1900, 2) == YearMonth(1900, 3);
    assert MonthOfIndex(1924, 2) == YearMonth(1924, 3);
    assert MonthOfIndex(100, 0) == YearMonth(100, 1);
    assert MonthOfIndex(-1, 0) == YearMonth(-1, 1);
    assert AddDays(Date(1900, 3, 1), -1) == PreviousDay(Date(1900, 3, 1));
    assert AddDays(Date(1924, 3, 1), -1) == PreviousDay(Date(1924, 3, 1));
  }

  /** The inclusive bounds of a month: its first instant and its last millisecond. */
  datatype Period = Period(start: Timestamp, end: Timestamp)

  /** `startDate = new Date(year, month - 1, 1)` and
      `endDate = new Date(year, month, 0, 23, 59, 59, 999)`. */
  function MonthPeriod(year: int, month: int): (p: Period)
    ensures var ym := MonthOfIndex(FullYear(year), month - 1);
            && p.start == Timestamp(ym.year, ym.month, 1, 0, 0, 0, 0)
            && p.end == Timestamp(ym.year, ym.month, DaysInMonth(year, month), 23, 59, 59, 999)
  {
    DayZeroIsLastDay(year, month);
    Period(At(MakeDate(year, month - 1, 1), 0, 0, 0, 0), At(MakeDate(year, month, 0), 23, 59, 59, 999))
  }

  /** `createdAt: { gte: start, lte: end }`. */
  predicate InPeriod(t: Timestamp, p: Period) {
    AtOrBefore(p.start, t) && AtOrBefore(t, p.end)
  }

  /** Whatever its fields, a timestamp inside a month's period lies in that month on a day
      1..DaysInMonth; a valid timestamp is inside exactly when it lies in that month. */
  lemma InMonthPeriod(year: int, month: int, t: Timestamp)
    ensures var ym := MonthOfIndex(FullYear(year), month - 1);
            InPeriod(t, MonthPeriod(year, month)) ==>
              t.year == ym.year && t.month == ym.month && 1 <= t.day <= DaysInMonth(year, month)
    ensures var ym := MonthOfIndex(FullYear(year), month - 1);
            ValidTimestamp(t) ==>
              (InPeriod(t, MonthPeriod(year, month)) <==> t.year == ym.year && t.month == ym.month)
  {
    var ym := MonthOfIndex(FullYear(year), month - 1);
    var p := MonthPeriod(year, month);
    assert DaysInMonth(year, month) == MonthLength(ym.year, ym.month);
    AtOrBeforeFieldwise(p.start, t);
    AtOrBeforeFieldwise(t, p.end);
  }
}
