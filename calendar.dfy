/** Proleptic Gregorian calendar dates and day counts, as Python's `datetime`
    computes them: a date's ordinal is its day number counted from
    0001-01-01 (ordinal 1), and `(b - a).days` is the difference of ordinals
    (a time of day on the later operand is floored away). */
module Calendar {

  datatype Date = Date(year: int, month: int, day: int)

  predicate IsLeap(y: int)
  {
    y % 4 == 0 && (y % 100 != 0 || y % 400 == 0)
  }

  function DaysInYear(y: int): (n: int)
    ensures n == 365 || n == 366
    ensures n == 366 <==> IsLeap(y)
  {
    if IsLeap(y) then 366 else 365
  }

  function DaysInMonth(y: int, m: int): (n: int)
    requires 1 <= m <= 12
    ensures 28 <= n <= 31
    ensures m == 2 ==> (n == 29 <==> IsLeap(y))
  {
    if m == 2 then (if IsLeap(y) then 29 else 28)
    else if m == 4 || m == 6 || m == 9 || m == 11 then 30
    else 31
  }

  /** A date `datetime` accepts, short of the last year (whose successor
      year, needed for the year length, is out of range). */
  predicate ValidDate(d: Date)
  {
    1 <= d.year < 9999 && 1 <= d.month <= 12 && 1 <= d.day <= DaysInMonth(d.year, d.month)
  }

  /** Days in the years 1..y-1 (the closed formula of `datetime`). */
  function DaysBeforeYear(y: int): int
    requires y >= 1
  {
    var n := y - 1;
    n * 365 + n / 4 - n / 100 + n / 400
  }

  /** Days in the months 1..m-1 of year y. */
  function DaysBeforeMonth(y: int, m: int): (n: int)
    requires 1 <= m <= 13
    ensures 28 * (m - 1) <= n <= 31 * (m - 1)
  {
    if m == 1 then 0 else DaysBeforeMonth(y, m - 1) + DaysInMonth(y, m - 1)
  }

  /** Month m + 1 starts DaysInMonth(y, m) days after month m. */
  lemma DaysBeforeMonthStep(y: int, m: int)
    requires 1 <= m <= 12
    ensures DaysBeforeMonth(y, m + 1) == DaysBeforeMonth(y, m) + DaysInMonth(y, m)
  {
  }

  /** Day number of a date, 0001-01-01 being day 1. */
  function Ordinal(d: Date): int
    requires 1 <= d.year && 1 <= d.month <= 12
  {
    DaysBeforeYear(d.year) + DaysBeforeMonth(d.year, d.month) + d.day
  }

  /** `(later - earlier).days`. */
  function Days(earlier: Date, later: Date): int
    requires 1 <= earlier.year && 1 <= earlier.month <= 12
    requires 1 <= later.year && 1 <= later.month <= 12
  {
    Ordinal(later) - Ordinal(earlier)
  }

  function Jan1(y: int): (d: Date)
    ensures d.year == y && d.month == 1 && d.day == 1
  {
    Date(y, 1, 1)
  }

  function Dec31(y: int): (d: Date)
    ensures d.year == y && d.month == 12 && d.day == 31
  {
    Date(y, 12, 31)
  }

  /** Twelve months make a year. */
  lemma MonthsMakeYear(y: int)
    ensures DaysBeforeMonth(y, 13) == DaysInYear(y)
  {
    assert DaysBeforeMonth(y, 3) == 31 + DaysInMonth(y, 2);
    assert DaysBeforeMonth(y, 4) == DaysBeforeMonth(y, 3) + 31;
    assert DaysBeforeMonth(y, 5) == DaysBeforeMonth(y, 4) + 30;
    assert DaysBeforeMonth(y, 6) == DaysBeforeMonth(y, 5) + 31;
    assert DaysBeforeMonth(y, 7) == DaysBeforeMonth(y, 6) + 30;
    assert DaysBeforeMonth(y, 8) == DaysBeforeMonth(y, 7) + 31;
    assert DaysBeforeMonth(y, 9) == DaysBeforeMonth(y, 8) + 31;
    assert DaysBeforeMonth(y, 10) == DaysBeforeMonth(y, 9) + 30;
    assert DaysBeforeMonth(y, 11) == DaysBeforeMonth(y, 10) + 31;
    assert DaysBeforeMonth(y, 12) == DaysBeforeMonth(y, 11) + 30;
    assert DaysBeforeMonth(y, 13) == DaysBeforeMonth(y, 12) + 31;
  }

  /** Counting one more year adds one multiple of 4, 100 or 400 exactly
      when the new year is one. */
  lemma LeapCountStep(n: int)
    requires n >= 0
    ensures (n + 1) / 4 == n / 4 + (if (n + 1) % 4 == 0 then 1 else 0)
    ensures (n + 1) / 100 == n / 100 + (if (n + 1) % 100 == 0 then 1 else 0)
    ensures (n + 1) / 400 == n / 400 + (if (n + 1) % 400 == 0 then 1 else 0)
  {
  }

  /** A multiple of 400 is a multiple of 100, and one of 100 a multiple of 4. */
  lemma DivisorChain(y: int)
    ensures y % 400 == 0 ==> y % 100 == 0
    ensures y % 100 == 0 ==> y % 4 == 0
  {
  }

  /** The next year starts DaysInYear(y) days after this one
      (`(datetime(y+1,1,1) - datetime(y,1,1)).days`). */
  lemma {:induction false} YearLength(y: int)
    requires y >= 1
    ensures DaysBeforeYear(y + 1) == DaysBeforeYear(y) + DaysInYear(y)
    ensures Days(Jan1(y), Jan1(y + 1)) == DaysInYear(y)
  {
    var n := y - 1;
    LeapCountStep(n);
    DivisorChain(y);
    var extra := (if y % 4 == 0 then 1 else 0) - (if y % 100 == 0 then 1 else 0) + (if y % 400 == 0 then 1 else 0);
    assert DaysBeforeYear(y + 1) == DaysBeforeYear(y) + 365 + extra;
    assert extra == (if IsLeap(y) then 1 else 0);
  }

  /** December 31 is the last day of the year: the next day is January 1. */
  lemma Dec31IsLastDay(y: int)
    requires y >= 1
    ensures Ordinal(Dec31(y)) + 1 == Ordinal(Jan1(y + 1))
    ensures Days(Jan1(y), Dec31(y)) + 1 == DaysInYear(y)
  {
    YearLength(y);
    MonthsMakeYear(y);
  }

  lemma {:induction false} DaysBeforeMonthMonotone(y: int, m1: int, m2: int)
    requires 1 <= m1 <= m2 <= 13
    ensures DaysBeforeMonth(y, m1) <= DaysBeforeMonth(y, m2)
    decreases m2 - m1
  {
    if m1 < m2 {
      DaysBeforeMonthMonotone(y, m1, m2 - 1);
    }
  }

  /** Every valid date lies between January 1 and December 31 of its year. */
  lemma WithinItsYear(d: Date)
    requires ValidDate(d)
    ensures Ordinal(Jan1(d.year)) <= Ordinal(d) <= Ordinal(Dec31(d.year))
  {
    DaysBeforeMonthMonotone(d.year, d.month + 1, 13);
    MonthsMakeYear(d.year);
    Dec31IsLastDay(d.year);
  }

  lemma {:induction false} DaysBeforeYearMonotone(y1: int, y2: int)
    requires 1 <= y1 <= y2
    ensures DaysBeforeYear(y1) <= DaysBeforeYear(y2)
    decreases y2 - y1
  {
    if y1 < y2 {
      DaysBeforeYearMonotone(y1, y2 - 1);
      YearLength(y2 - 1);
    }
  }

  /** Dates of an earlier year come before dates of a later year. */
  lemma EarlierYearEarlierDate(a: Date, b: Date)
    requires ValidDate(a) && ValidDate(b) && a.year < b.year
    ensures Ordinal(a) < Ordinal(b)
  {
    WithinItsYear(a);
    WithinItsYear(b);
    Dec31IsLastDay(a.year);
    DaysBeforeYearMonotone(a.year + 1, b.year);
  }
}
