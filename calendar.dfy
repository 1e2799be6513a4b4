/** The proleptic Gregorian calendar that Python's `datetime` uses.
    Days are counted from 0001-01-01 as day 0 (Python's `toordinal() - 1`).
    `DayNumber` turns a date into its day count (days-from-civil) and
    `CivilFromDayNumber` turns a day count back into a date (civil-from-days);
    the two are proved to be inverse on every valid date and every count. */
module Calendar {
  import opened Arith

  predicate IsLeap(y: int) {
    y % 4 == 0 && (y % 100 != 0 || y % 400 == 0)
  }

  function YearLength(y: int): nat {
    if IsLeap(y) then 366 else 365
  }

  function DaysInMonth(y: int, m: int): nat
    requires 1 <= m <= 12
  {
    if m == 2 then (if IsLeap(y) then 29 else 28)
    else if m == 4 || m == 6 || m == 9 || m == 11 then 30
    else 31
  }

  /** Reference definition: the lengths of the years 1 .. y-1, added up. */
  function YearsSpan(y: int): nat
    requires y >= 1
  {
    if y == 1 then 0 else YearsSpan(y - 1) + YearLength(y - 1)
  }

  /** Days before January 1 of year `y`, by leap-year counting (the closed form
      Python's `_days_before_year` uses). */
  function DaysBeforeYear(y: int): int
    requires y >= 1
  {
    var p := y - 1;
    365 * p + p / 4 - p / 100 + p / 400
  }

  /** Days before the first of month `m` in year `y`. */
  function DaysBeforeMonth(y: int, m: int): nat
    requires 1 <= m <= 12
  {
    if m == 1 then 0 else DaysBeforeMonth(y, m - 1) + DaysInMonth(y, m - 1)
  }

  datatype Date = Date(year: int, month: int, day: int)

  predicate ValidDate(d: Date) {
    && d.year >= 1
    && 1 <= d.month <= 12
    && 1 <= d.day <= DaysInMonth(d.year, d.month)
  }

  /** Days-from-civil: the 0-based day count of a date. */
  function DayNumber(d: Date): int
    requires ValidDate(d)
  {
    DaysBeforeYear(d.year) + DaysBeforeMonth(d.year, d.month) + d.day - 1
  }

  /** Days in one 400-year Gregorian cycle. */
  const CycleDays := 146097

  /** Civil-from-days: whole 400-year cycles first, then the year and the
      month that hold the remaining days. */
  function CivilFromDayNumber(n: nat): Date {
    var (y, ry) := LocateYear(400 * (n / CycleDays) + 1, n % CycleDays);
    var (m, rm) := LocateMonth(y, 1, ry);
    Date(y, m, rm + 1)
  }

  /** Skips whole years from January 1 of `y` while `r` days remain. */
  function LocateYear(y: int, r: nat): (int, nat)
    requires y >= 1
    decreases r
  {
    if r < YearLength(y) then (y, r) else LocateYear(y + 1, r - YearLength(y))
  }

  /** Skips whole months from the first of month `m` while `r` days remain. */
  function LocateMonth(y: int, m: int, r: nat): (int, nat)
    requires 1 <= m <= 12
    decreases 12 - m
  {
    if m == 12 || r < DaysInMonth(y, m) then (m, r)
    else LocateMonth(y, m + 1, r - DaysInMonth(y, m))
  }

  // ----- Year arithmetic -------------------------------------------------

  lemma DaysBeforeYearStep(y: int)
    requires y >= 1
    ensures DaysBeforeYear(y + 1) == DaysBeforeYear(y) + YearLength(y)
  {
    var p := y - 1;
    DivStep(p, 4);
    DivStep(p, 100);
    DivStep(p, 400);
    if y % 100 == 0 {
      MultipleOfFactor(y, 4, 25);
    }
    if y % 400 == 0 {
      MultipleOfFactor(y, 100, 4);
    }
  }

  /** The closed form counts exactly the days of the preceding years. */
  lemma {:induction false} DaysBeforeYearIsSpan(y: int)
    requires y >= 1
    ensures DaysBeforeYear(y) == YearsSpan(y)
  {
    if y > 1 {
      DaysBeforeYearIsSpan(y - 1);
      DaysBeforeYearStep(y - 1);
    }
  }

  lemma {:induction false} DaysBeforeYearMonotone(a: int, b: int)
    requires 1 <= a <= b
    ensures DaysBeforeYear(a) + (b - a) * 365 <= DaysBeforeYear(b)
    decreases b - a
  {
    if a < b {
      DaysBeforeYearStep(a);
      DaysBeforeYearMonotone(a + 1, b);
    }
  }

  lemma DaysBeforeYearOrder(a: int, b: int)
    requires 1 <= a <= b
    ensures DaysBeforeYear(a) <= DaysBeforeYear(b)
  {
    DaysBeforeYearMonotone(a, b);
    assert (b - a) * 365 >= 0;
  }

  lemma CycleStart(q: nat)
    ensures DaysBeforeYear(400 * q + 1) == CycleDays * q
  {
    var p := 400 * q;
    assert p / 4 == 100 * q;
    assert p / 100 == 4 * q;
    assert p / 400 == q;
  }

  // ----- Month arithmetic ------------------------------------------------

  lemma MonthsFillYear(y: int)
    ensures DaysBeforeMonth(y, 12) + DaysInMonth(y, 12) == YearLength(y)
  {
    var leap := if IsLeap(y) then 1 else 0;
    assert DaysBeforeMonth(y, 2) == 31;
    assert DaysBeforeMonth(y, 3) == 59 + leap;
    assert DaysBeforeMonth(y, 4) == 90 + leap;
    assert DaysBeforeMonth(y, 5) == 120 + leap;
    assert DaysBeforeMonth(y, 6) == 151 + leap;
    assert DaysBeforeMonth(y, 7) == 181 + leap;
    assert DaysBeforeMonth(y, 8) == 212 + leap;
    assert DaysBeforeMonth(y, 9) == 243 + leap;
    assert DaysBeforeMonth(y, 10) == 273 + leap;
    assert DaysBeforeMonth(y, 11) == 304 + leap;
    assert DaysBeforeMonth(y, 12) == 334 + leap;
  }

  /** Month `m` and every month after it fit inside the year. */
  lemma {:induction false} MonthWithinYear(y: int, m: int)
    requires 1 <= m <= 12
    ensures DaysBeforeMonth(y, m) + DaysInMonth(y, m) <= YearLength(y)
    decreases 12 - m
  {
    if m == 12 {
      MonthsFillYear(y);
    } else {
      MonthWithinYear(y, m + 1);
    }
  }

  lemma {:induction false} DaysBeforeMonthMonotone(y: int, a: int, b: int)
    requires 1 <= a < b <= 12
    ensures DaysBeforeMonth(y, a) + DaysInMonth(y, a) <= DaysBeforeMonth(y, b)
    decreases b - a
  {
    if a + 1 < b {
      DaysBeforeMonthMonotone(y, a + 1, b);
    }
  }

  // ----- The search functions --------------------------------------------

  lemma {:induction false} LocateYearSound(y: int, r: nat)
    requires y >= 1
    ensures var (y', r') := LocateYear(y, r);
      && y <= y' && r' < YearLength(y')
      && DaysBeforeYear(y') + r' == DaysBeforeYear(y) + r
    decreases r
  {
    if r >= YearLength(y) {
      DaysBeforeYearStep(y);
      LocateYearSound(y + 1, r - YearLength(y));
    }
  }

  lemma {:induction false} LocateMonthSound(y: int, m: int, r: nat)
    requires 1 <= m <= 12
    requires DaysBeforeMonth(y, m) + r < YearLength(y)
    ensures var (m', r') := LocateMonth(y, m, r);
      && m <= m' <= 12 && r' < DaysInMonth(y, m')
      && DaysBeforeMonth(y, m') + r' == DaysBeforeMonth(y, m) + r
    decreases 12 - m
  {
    var len := DaysInMonth(y, m);
    if m == 12 {
      MonthsFillYear(y);
      assert LocateMonth(y, m, r) == (m, r);
    } else if r >= len {
      assert DaysBeforeMonth(y, m + 1) == DaysBeforeMonth(y, m) + len;
      LocateMonthSound(y, m + 1, r - len);
      assert LocateMonth(y, m, r) == LocateMonth(y, m + 1, r - len);
    } else {
      assert LocateMonth(y, m, r) == (m, r);
    }
  }

  // ----- The two directions of the conversion ----------------------------

  /** The year search of civil-from-days ends in a year that holds day `n`. */
  lemma YearOfDayNumber(n: nat) returns (y: int, ry: nat)
    ensures (y, ry) == LocateYear(400 * (n / CycleDays) + 1, n % CycleDays)
    ensures y >= 1 && ry < YearLength(y) && DaysBeforeYear(y) + ry == n
  {
    var q, r := n / CycleDays, n % CycleDays;
    assert n == CycleDays * q + r;
    CycleStart(q);
    LocateYearSound(400 * q + 1, r);
    y, ry := LocateYear(400 * q + 1, r).0, LocateYear(400 * q + 1, r).1;
  }

  /** Civil-from-days yields a real calendar date whose day count is the
      count it started from. */
  lemma CivilFromDayNumberSound(n: nat)
    ensures ValidDate(CivilFromDayNumber(n))
    ensures DayNumber(CivilFromDayNumber(n)) == n
  {
    var y, ry := YearOfDayNumber(n);
    LocateMonthSound(y, 1, ry);
    var m, rm := LocateMonth(y, 1, ry).0, LocateMonth(y, 1, ry).1;
    assert CivilFromDayNumber(n) == Date(y, m, rm + 1);
  }

  /** A valid date's day count lies within its own year. */
  lemma DayNumberWithinYear(d: Date)
    requires ValidDate(d)
    ensures DaysBeforeYear(d.year) <= DayNumber(d) < DaysBeforeYear(d.year + 1)
  {
    MonthWithinYear(d.year, d.month);
    DaysBeforeYearStep(d.year);
  }

  /** Different valid dates have different day counts. */
  lemma DayNumberInjective(d1: Date, d2: Date)
    requires ValidDate(d1) && ValidDate(d2)
    requires DayNumber(d1) == DayNumber(d2)
    ensures d1 == d2
  {
    DayNumberWithinYear(d1);
    DayNumberWithinYear(d2);
    if d1.year < d2.year {
      DaysBeforeYearOrder(d1.year + 1, d2.year);
    } else if d2.year < d1.year {
      DaysBeforeYearOrder(d2.year + 1, d1.year);
    }
    assert d1.year == d2.year;
    if d1.month < d2.month {
      DaysBeforeMonthMonotone(d1.year, d1.month, d2.month);
    } else if d2.month < d1.month {
      DaysBeforeMonthMonotone(d1.year, d2.month, d1.month);
    }
  }

  /** A valid date has a non-negative day count. */
  lemma DayNumberNonNegative(d: Date)
    requires ValidDate(d)
    ensures DayNumber(d) >= 0
  {
    DaysBeforeYearMonotone(1, d.year);
  }

  /** Days-from-civil followed by civil-from-days gives back the date. */
  lemma CivilOfDayNumber(d: Date)
    requires ValidDate(d)
    ensures DayNumber(d) >= 0 && CivilFromDayNumber(DayNumber(d)) == d
  {
    DayNumberNonNegative(d);
    var n := DayNumber(d);
    CivilFromDayNumberSound(n);
    DayNumberInjective(CivilFromDayNumber(n), d);
  }

  /** The year of a day count stays at or below `y - 1` exactly when the count
      lies before January 1 of `y`. */
  lemma YearBelow(n: nat, y: int)
    requires y >= 1
    ensures CivilFromDayNumber(n).year < y <==> n < DaysBeforeYear(y)
  {
    var d := CivilFromDayNumber(n);
    CivilFromDayNumberSound(n);
    DayNumberWithinYear(d);
    var lo, hi := DaysBeforeYear(d.year), DaysBeforeYear(d.year + 1);
    assert lo <= n < hi;
    if d.year < y {
      DaysBeforeYearOrder(d.year + 1, y);
    } else {
      DaysBeforeYearOrder(y, d.year);
    }
  }
}
