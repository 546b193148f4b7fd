/** Proleptic Gregorian calendar arithmetic, following Python's `datetime.date`:
    ordinal 1 is 0001-01-01 and `weekday()` is `(ordinal + 6) % 7`, Monday = 0. */
module Calendar {

  datatype Date = Date(year: int, month: int, day: int)

  /** Gregorian leap-year rule. */
  predicate IsLeapYear(y: int) {
    y % 4 == 0 && (y % 100 != 0 || y % 400 == 0)
  }

  function DaysInMonth(y: int, m: int): (n: int)
    requires 1 <= m <= 12
    ensures 28 <= n <= 31
  {
    if m == 2 then (if IsLeapYear(y) then 29 else 28)
    else if m == 4 || m == 6 || m == 9 || m == 11 then 30
    else 31
  }

  /** A date Python's `datetime.date` accepts (no upper year bound is modelled). */
  predicate ValidDate(d: Date) {
    1 <= d.year && 1 <= d.month <= 12 && 1 <= d.day <= DaysInMonth(d.year, d.month)
  }

  predicate SameMonth(a: Date, b: Date) {
    a.year == b.year && a.month == b.month
  }

  /** Days in the months of year `y` that precede month `m`. */
  function DaysBeforeMonth(y: int, m: int): nat
    requires 1 <= m <= 13
  {
    if m == 1 then 0 else DaysBeforeMonth(y, m - 1) + DaysInMonth(y, m - 1)
  }

  function YearLength(y: int): int {
    if IsLeapYear(y) then 366 else 365
  }

  /** Days in the years before year `y`, counted from year 1. */
  function DaysBeforeYear(y: int): nat
    requires 1 <= y
  {
    if y == 1 then 0 else DaysBeforeYear(y - 1) + YearLength(y - 1)
  }

  /** Python's `date.toordinal()`: 0001-01-01 has ordinal 1. */
  function Ordinal(d: Date): int
    requires ValidDate(d)
  {
    DaysBeforeYear(d.year) + DaysBeforeMonth(d.year, d.month) + d.day
  }

  /** Python's `date.weekday()`: Monday is 0, Sunday is 6. */
  function Weekday(d: Date): (w: int)
    requires ValidDate(d)
    ensures 0 <= w < 7
  {
    (Ordinal(d) + 6) % 7
  }

  /** The calendar day after `d`. */
  function NextDay(d: Date): Date
    requires ValidDate(d)
  {
    if d.day < DaysInMonth(d.year, d.month) then Date(d.year, d.month, d.day + 1)
    else if d.month < 12 then Date(d.year, d.month + 1, 1)
    else Date(d.year + 1, 1, 1)
  }

  /** The calendar day before `d`; 0001-01-01 has none. */
  function PrevDay(d: Date): Date
    requires ValidDate(d) && d != Date(1, 1, 1)
  {
    if d.day > 1 then Date(d.year, d.month, d.day - 1)
    else if d.month > 1 then Date(d.year, d.month - 1, DaysInMonth(d.year, d.month - 1))
    else Date(d.year - 1, 12, 31)
  }

  /** The twelve months add up to the length of the year. */
  lemma MonthsFillYear(y: int)
    ensures DaysBeforeMonth(y, 13) == YearLength(y)
  {
    var feb := DaysInMonth(y, 2);
    assert DaysBeforeMonth(y, 2) == 31;
    assert DaysBeforeMonth(y, 3) == 31 + feb;
    assert DaysBeforeMonth(y, 4) == 62 + feb;
    assert DaysBeforeMonth(y, 5) == 92 + feb;
    assert DaysBeforeMonth(y, 6) == 123 + feb;
    assert DaysBeforeMonth(y, 7) == 153 + feb;
    assert DaysBeforeMonth(y, 8) == 184 + feb;
    assert DaysBeforeMonth(y, 9) == 215 + feb;
    assert DaysBeforeMonth(y, 10) == 245 + feb;
    assert DaysBeforeMonth(y, 11) == 276 + feb;
    assert DaysBeforeMonth(y, 12) == 306 + feb;
  }

  /** One step of the closed form: `q / d` grows by one exactly at multiples of `d`. */
  lemma DivStep(q: int)
    ensures q / 4 == (q - 1) / 4 + (if q % 4 == 0 then 1 else 0)
    ensures q / 100 == (q - 1) / 100 + (if q % 100 == 0 then 1 else 0)
    ensures q / 400 == (q - 1) / 400 + (if q % 400 == 0 then 1 else 0)
  {
  }

  lemma MultipleMod(j: int)
    ensures (100 * j) % 100 == 0 && (4 * j) % 4 == 0
  {
  }

  /** Multiples of 400 are multiples of 100, and those are multiples of 4. */
  lemma Multiples(q: int)
    ensures q % 400 == 0 ==> q % 100 == 0
    ensures q % 100 == 0 ==> q % 4 == 0
  {
    if q % 400 == 0 {
      var k := q / 400;
      assert q == 400 * k;
      MultipleMod(4 * k);
      assert q == 100 * (4 * k);
    }
    if q % 100 == 0 {
      var k := q / 100;
      assert q == 100 * k;
      MultipleMod(25 * k);
      assert q == 4 * (25 * k);
    }
  }

  /** The leap-year correction of the closed form adds one exactly in leap years. */
  lemma LeapCorrection(q: int)
    ensures (q / 4 - (q - 1) / 4) - (q / 100 - (q - 1) / 100) + (q / 400 - (q - 1) / 400)
         == if IsLeapYear(q) then 1 else 0
  {
    DivStep(q);
    Multiples(q);
  }

  /** The year count agrees with the closed form Python's `date.toordinal()` uses:
      365 days a year plus one for every fourth year, except centuries not
      divisible by 400. */
  lemma {:induction false} DaysBeforeYearClosedForm(y: int)
    requires 1 <= y
    ensures DaysBeforeYear(y) == 365 * (y - 1) + (y - 1) / 4 - (y - 1) / 100 + (y - 1) / 400
    decreases y
  {
    if y > 1 {
      DaysBeforeYearClosedForm(y - 1);
      LeapCorrection(y - 1);
      assert DaysBeforeYear(y) == DaysBeforeYear(y - 1) + YearLength(y - 1);
    }
  }

  /** Ordinals count days: the next day has the next ordinal. */
  lemma {:induction false} NextDayOrdinal(d: Date)
    requires ValidDate(d)
    ensures ValidDate(NextDay(d))
    ensures Ordinal(NextDay(d)) == Ordinal(d) + 1
  {
    var n := NextDay(d);
    if d.day < DaysInMonth(d.year, d.month) {
      assert n == Date(d.year, d.month, d.day + 1);
      PrevDayInMonth(n);
    } else if d.month < 12 {
      assert n == Date(d.year, d.month + 1, 1);
      assert d == Date(d.year, d.month, DaysInMonth(d.year, d.month));
      PrevDayAcrossMonth(d.year, d.month + 1);
    } else {
      assert n == Date(d.year + 1, 1, 1);
      assert d == Date(d.year, 12, 31);
      PrevDayAcrossYear(d.year + 1);
    }
  }

  /** The last day of a year is followed by ordinal `DaysBeforeYear(y + 1) + 1`. */
  lemma LastDayOfYearOrdinal(y: int)
    requires 1 <= y
    ensures ValidDate(Date(y, 12, 31))
    ensures Ordinal(Date(y, 12, 31)) == DaysBeforeYear(y + 1)
  {
    MonthsFillYear(y);
    assert DaysBeforeMonth(y, 13) == DaysBeforeMonth(y, 12) + 31;
    assert DaysBeforeYear(y + 1) == DaysBeforeYear(y) + YearLength(y);
  }

  lemma PrevDayAcrossYear(y: int)
    requires 2 <= y
    ensures PrevDay(Date(y, 1, 1)) == Date(y - 1, 12, 31)
    ensures ValidDate(Date(y - 1, 12, 31))
    ensures Ordinal(Date(y - 1, 12, 31)) + 1 == Ordinal(Date(y, 1, 1))
  {
    LastDayOfYearOrdinal(y - 1);
  }

  lemma PrevDayAcrossMonth(y: int, m: int)
    requires 1 <= y && 2 <= m <= 12
    ensures PrevDay(Date(y, m, 1)) == Date(y, m - 1, DaysInMonth(y, m - 1))
    ensures ValidDate(Date(y, m - 1, DaysInMonth(y, m - 1)))
    ensures Ordinal(Date(y, m - 1, DaysInMonth(y, m - 1))) + 1 == Ordinal(Date(y, m, 1))
  {
  }

  lemma PrevDayInMonth(d: Date)
    requires ValidDate(d) && d.day > 1
    ensures PrevDay(d) == Date(d.year, d.month, d.day - 1)
    ensures ValidDate(PrevDay(d))
    ensures Ordinal(PrevDay(d)) + 1 == Ordinal(d)
  {
  }

  /** The previous day has the previous ordinal. */
  lemma {:induction false} PrevDayOrdinal(d: Date)
    requires ValidDate(d) && d != Date(1, 1, 1)
    ensures ValidDate(PrevDay(d))
    ensures Ordinal(PrevDay(d)) == Ordinal(d) - 1
  {
    if d.day > 1 {
      PrevDayInMonth(d);
    } else if d.month > 1 {
      PrevDayAcrossMonth(d.year, d.month);
    } else {
      PrevDayAcrossYear(d.year);
    }
  }

  /** NextDay and PrevDay undo each other. */
  lemma NextPrevRoundTrip(d: Date)
    requires ValidDate(d)
    ensures NextDay(d) != Date(1, 1, 1) && PrevDay(NextDay(d)) == d
    ensures d != Date(1, 1, 1) ==> NextDay(PrevDay(d)) == d
  {
    NextDayOrdinal(d);
    if d != Date(1, 1, 1) {
      PrevDayOrdinal(d);
    }
  }

  /** Ordinal of day 0 of month `m`, shifted by six for the weekday formula. */
  function MonthOffset(y: int, m: int): int
    requires 1 <= y && 1 <= m <= 12
  {
    DaysBeforeYear(y) + DaysBeforeMonth(y, m) + 6
  }

  /** The weekday of day `k` of a month, from the month's offset. */
  lemma WeekdayInMonth(y: int, m: int, k: int)
    requires 1 <= y && 1 <= m <= 12 && 1 <= k <= DaysInMonth(y, m)
    ensures Weekday(Date(y, m, k)) == (MonthOffset(y, m) + k) % 7
  {
  }

  /** The weekday advances by one each day, Sunday wrapping round to Monday, across
      month and year ends too: the cycle `pd.bdate_range` filters on. */
  lemma WeekdayAdvances(d: Date)
    requires ValidDate(d)
    ensures ValidDate(NextDay(d))
    ensures Weekday(NextDay(d)) == (Weekday(d) + 1) % 7
  {
    NextDayOrdinal(d);
  }
}
