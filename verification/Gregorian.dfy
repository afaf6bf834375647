/** Proleptic Gregorian day arithmetic: what `time.Date` and the accessors `Year`, `Month` and `Day` do. */
module Gregorian {
  datatype Civil = Civil(year: int, month: int, day: int)

  predicate Leap(y: int) {
    y % 4 == 0 && (y % 100 != 0 || y % 400 == 0)
  }

  function DaysInMonth(y: int, m: int): int {
    if m == 2 then (if Leap(y) then 29 else 28)
    else if m == 4 || m == 6 || m == 9 || m == 11 then 30
    else 31
  }

  /** A date of the Gregorian calendar. */
  predicate RealDate(c: Civil) {
    1 <= c.month <= 12 && 1 <= c.day <= DaysInMonth(c.year, c.month)
  }

  /** Days from 1 January of year 0 to 1 January of year `y`. */
  function DaysBeforeYear(y: int): int {
    365 * y + (y + 3) / 4 - (y + 99) / 100 + (y + 399) / 400
  }

  /** Days of the year `y` before its month `m`; month 13 is the end of the year. */
  function DaysBeforeMonth(y: int, m: int): int
    requires 1 <= m <= 13
  {
    [0, 31, 59, 90, 120, 151, 181, 212, 243, 273, 304, 334, 365][m - 1] + (if m > 2 && Leap(y) then 1 else 0)
  }

  /** The day number `time.Date(year, month, day, ...)` denotes, whatever the month and day. */
  function DayNumber(c: Civil): int {
    var y, m := c.year + (c.month - 1) / 12, (c.month - 1) % 12 + 1;
    DaysBeforeYear(y) + DaysBeforeMonth(y, m) + c.day - 1
  }

  /** Complete 400-, 100-, 4- and 1-year cycles before a day, counted from 1 January of year 1. */
  function CyclesOf(d: int): (int, int, int, int) {
    var a, d400 := d / 146097, d % 146097;
    var b := d400 / 36524 - d400 / 36524 / 4;
    var d100 := d400 - 36524 * b;
    var c, d4 := d100 / 1461, d100 % 1461;
    (a, b, c, d4 / 365 - d4 / 365 / 4)
  }

  /** The year of a day number. */
  function YearOf(n: int): int {
    var (a, b, c, e) := CyclesOf(n - 366);
    400 * a + 100 * b + 4 * c + e + 1
  }

  /** The last month, from `m` downwards, that starts on or before the given day of the year. */
  function MonthOf(y: int, yearDay: int, m: int): (r: int)
    requires 1 <= m <= 12
    ensures 1 <= r <= m
  {
    if m == 1 || DaysBeforeMonth(y, m) <= yearDay then m else MonthOf(y, yearDay, m - 1)
  }

  /** The date a day number denotes. */
  function CivilOf(n: int): Civil {
    DateInYear(n, YearOf(n))
  }

  function DateInYear(n: int, y: int): Civil {
    var yearDay := n - DaysBeforeYear(y);
    var m := MonthOf(y, yearDay, 12);
    Civil(y, m, yearDay - DaysBeforeMonth(y, m) + 1)
  }

  lemma YearStart(a: int, b: int, c: int, e: int)
    requires 0 <= b <= 3 && 0 <= c <= 24 && 0 <= e <= 3
    ensures DaysBeforeYear(400 * a + 100 * b + 4 * c + e + 1) == 146097 * a + 36524 * b + 1461 * c + 365 * e + 366
  {
    var y := 400 * a + 100 * b + 4 * c + e + 1;
    assert (y + 3) / 4 == 100 * a + 25 * b + c + 1;
    assert (y + 99) / 100 == 4 * a + b + 1;
    assert (y + 399) / 400 == a + 1;
  }

  lemma YearLength(y: int)
    ensures DaysBeforeYear(y + 1) == DaysBeforeYear(y) + (if Leap(y) then 366 else 365)
  {
    assert (y + 4) / 4 - (y + 3) / 4 == if y % 4 == 0 then 1 else 0;
    assert (y + 100) / 100 - (y + 99) / 100 == if y % 100 == 0 then 1 else 0;
    assert (y + 400) / 400 - (y + 399) / 400 == if y % 400 == 0 then 1 else 0;
  }

  lemma {:induction false} YearsAscend(y: int, z: int)
    requires y < z
    ensures DaysBeforeYear(y + 1) <= DaysBeforeYear(z)
    decreases z - y
  {
    YearLength(z - 1);
    if y + 1 < z {
      YearsAscend(y, z - 1);
    }
  }

  /** The last day of a four-year cycle falls in a leap year. */
  lemma LeapAtCycleEnd(a: int, b: int, c: int)
    requires 0 <= b <= 3 && 0 <= c <= 24 && (c == 24 ==> b == 3)
    ensures Leap(400 * a + 100 * b + 4 * c + 4)
  {
    var y := 400 * a + 100 * b + 4 * c + 4;
    if c == 24 {
      assert y == 400 * (a + 1);
      LeapEvery(a + 1);
    } else {
      assert y == 100 * (4 * a + b) + 4 * (c + 1);
      LeapWithin(4 * a + b, c + 1);
    }
  }

  lemma LeapEvery(k: int)
    ensures Leap(400 * k)
  {
    MultipleOfFour(100 * k);
  }

  lemma LeapWithin(century: int, k: int)
    requires 1 <= k <= 24
    ensures Leap(100 * century + 4 * k)
  {
    MultipleOfFour(25 * century + k);
    YearOfCentury(century, 4 * k);
  }

  lemma MultipleOfFour(q: int)
    ensures 4 * q % 4 == 0
  {
  }

  lemma YearOfCentury(century: int, r: int)
    requires 0 <= r < 100
    ensures (100 * century + r) % 100 == r
  {
  }

  lemma YearFromCycles(n: int, a: int, b: int, c: int, e: int, rest: int)
    requires 0 <= b <= 3 && 0 <= c <= 24 && 0 <= e <= 3 && 0 <= rest <= 365
    requires rest == 365 ==> e == 3 && (c == 24 ==> b == 3)
    requires n == 146097 * a + 36524 * b + 1461 * c + 365 * e + rest + 366
    ensures var y := 400 * a + 100 * b + 4 * c + e + 1; DaysBeforeYear(y) <= n < DaysBeforeYear(y + 1)
  {
    var y := 400 * a + 100 * b + 4 * c + e + 1;
    YearStart(a, b, c, e);
    YearLength(y);
    if rest == 365 {
      LeapAtCycleEnd(a, b, c);
    }
  }

  /** Four spans of `span` days, the last one a day longer: the quotient, capped at 3, finds the span. */
  lemma CappedQuotient(d: int, span: int)
    requires (span == 36524 || span == 365) && 0 <= d <= 4 * span
    ensures var q := d / span - d / span / 4;
            0 <= q <= 3 && 0 <= d - span * q <= span && (d - span * q == span ==> q == 3)
  {
  }

  lemma FourYearCycles(d: int)
    requires 0 <= d <= 36524
    ensures 0 <= d / 1461 <= 24 && d == 1461 * (d / 1461) + d % 1461 && 0 <= d % 1461 <= 1460
    ensures d / 1461 == 24 && d % 1461 == 1460 ==> d == 36524
  {
  }

  lemma CyclesAddUp(d: int) returns (rest: int)
    ensures var (a, b, c, e) := CyclesOf(d);
            && 0 <= b <= 3 && 0 <= c <= 24 && 0 <= e <= 3 && 0 <= rest <= 365
            && (rest == 365 ==> e == 3 && (c == 24 ==> b == 3))
            && d == 146097 * a + 36524 * b + 1461 * c + 365 * e + rest
  {
    var a, d400 := d / 146097, d % 146097;
    assert d == 146097 * a + d400 && 0 <= d400 < 146097;
    CappedQuotient(d400, 36524);
    var b := d400 / 36524 - d400 / 36524 / 4;
    var d100 := d400 - 36524 * b;
    FourYearCycles(d100);
    var d4 := d100 % 1461;
    CappedQuotient(d4, 365);
    rest := d4 - 365 * (d4 / 365 - d4 / 365 / 4);
  }

  /** The cycle arithmetic finds the year a day lies in. */
  lemma YearOfContains(n: int)
    ensures DaysBeforeYear(YearOf(n)) <= n < DaysBeforeYear(YearOf(n) + 1)
  {
    var (a, b, c, e) := CyclesOf(n - 366);
    var rest := CyclesAddUp(n - 366);
    YearFromCycles(n, a, b, c, e, rest);
  }

  lemma MonthOfContains(y: int, yearDay: int, m: int)
    requires 1 <= m <= 12 && 0 <= yearDay < DaysBeforeMonth(y, m + 1)
    ensures var r := MonthOf(y, yearDay, m); DaysBeforeMonth(y, r) <= yearDay < DaysBeforeMonth(y, r + 1)
  {
  }

  lemma CivilInYear(n: int, y: int)
    requires DaysBeforeYear(y) <= n < DaysBeforeYear(y + 1)
    ensures RealDate(DateInYear(n, y)) && DayNumber(DateInYear(n, y)) == n
  {
    YearLength(y);
    MonthOfContains(y, n - DaysBeforeYear(y), 12);
    var c := DateInYear(n, y);
    assert DaysBeforeMonth(y, c.month + 1) == DaysBeforeMonth(y, c.month) + DaysInMonth(y, c.month);
    DayInYear(c);
  }

  /** Every day number denotes a date of the calendar and is the number of that date. */
  lemma CivilRoundTrip(n: int)
    ensures RealDate(CivilOf(n)) && DayNumber(CivilOf(n)) == n
  {
    YearOfContains(n);
    CivilInYear(n, YearOf(n));
  }

  predicate Earlier(p: Civil, q: Civil) {
    p.year < q.year || (p.year == q.year && (p.month < q.month || (p.month == q.month && p.day < q.day)))
  }

  lemma EarlierIsLess(p: Civil, q: Civil)
    requires RealDate(p) && RealDate(q) && Earlier(p, q)
    ensures DayNumber(p) < DayNumber(q)
  {
    DayInYear(p);
    DayInYear(q);
    if p.year < q.year {
      YearsAscend(p.year, q.year);
    } else if p.month < q.month {
      MonthsAscend(p.year, p.month, q.month);
    }
  }

  /** Dates of the calendar are numbered in their lexicographic order. */
  lemma DayNumberAscends(p: Civil, q: Civil)
    requires RealDate(p) && RealDate(q)
    ensures DayNumber(p) < DayNumber(q) <==>
            p.year < q.year || (p.year == q.year && (p.month < q.month || (p.month == q.month && p.day < q.day)))
  {
    if Earlier(p, q) {
      EarlierIsLess(p, q);
    } else if Earlier(q, p) {
      EarlierIsLess(q, p);
    } else {
      assert p == q;
    }
  }

  lemma MonthsAscend(y: int, m: int, k: int)
    requires 1 <= m < k <= 13
    ensures DaysBeforeMonth(y, m) + DaysInMonth(y, m) <= DaysBeforeMonth(y, k)
  {
  }

  lemma DayInYear(c: Civil)
    requires RealDate(c)
    ensures DayNumber(c) == DaysBeforeYear(c.year) + DaysBeforeMonth(c.year, c.month) + c.day - 1
    ensures DaysBeforeYear(c.year) <= DayNumber(c) < DaysBeforeYear(c.year + 1)
  {
    YearLength(c.year);
    MonthsAscend(c.year, c.month, 13);
    assert (c.month - 1) / 12 == 0 && (c.month - 1) % 12 == c.month - 1;
  }

  /** Numbering a date of the calendar loses nothing. */
  lemma DayNumberRoundTrip(c: Civil)
    requires RealDate(c)
    ensures CivilOf(DayNumber(c)) == c
  {
    var d := CivilOf(DayNumber(c));
    CivilRoundTrip(DayNumber(c));
    DayNumberAscends(c, d);
    DayNumberAscends(d, c);
  }

  /** Normalising year, month and day with `time.Date` and comparing accepts exactly the dates of the calendar. */
  lemma NormaliseAndCompareIsExact(c: Civil)
    ensures CivilOf(DayNumber(c)) == c <==> RealDate(c)
  {
    CivilRoundTrip(DayNumber(c));
    if RealDate(c) {
      DayNumberRoundTrip(c);
    }
  }

  /** New Year's days; with those of years 0 and 1 the origin of the count. */
  lemma NewYear(y: int)
    ensures DayNumber(Civil(y, 1, 1)) == 365 * y + (y + 3) / 4 - (y + 99) / 100 + (y + 399) / 400
    ensures y == 0 ==> DayNumber(Civil(y, 1, 1)) == 0
    ensures y == 1 ==> DayNumber(Civil(y, 1, 1)) == 366
  {
    assert DaysBeforeMonth(y, 1) == 0;
  }
}
