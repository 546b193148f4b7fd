/** The fifth-working-day gate of `Code/5th_working_day_checker.py`: find the
    5th Monday-to-Friday date of the current month and fire the downstream job
    exactly on that date. The clock reading is an input. */
module WorkingDayGate {
  import opened Wrappers
  import opened Calendar

  /** The gate fires on this working day of the month (1-based). */
  const TargetWorkingDay := 5

  /** Monday to Friday; holidays are not considered. */
  predicate IsWorkingDay(d: Date)
    requires ValidDate(d)
  {
    Weekday(d) < 5
  }

  function FirstDayOfMonth(d: Date): Date
    requires ValidDate(d)
  {
    Date(d.year, d.month, 1)
  }

  /** A first-of-month date shifted by `pd.DateOffset(months=1)`. */
  function FirstOfNextMonth(first: Date): Date
    requires ValidDate(first) && first.day == 1
  {
    if first.month < 12 then Date(first.year, first.month + 1, 1) else Date(first.year + 1, 1, 1)
  }

  /** The source's `last_day`: the first of the month, plus one month, minus one day.
      It is the true final day of the month. */
  function LastDayOfMonth(first: Date): (last: Date)
    requires ValidDate(first) && first.day == 1
    ensures ValidDate(last) && SameMonth(last, first)
    ensures last.day == DaysInMonth(first.year, first.month)
    ensures Ordinal(last) + 1 == Ordinal(FirstOfNextMonth(first))
    ensures !SameMonth(NextDay(last), first)
  {
    var next := FirstOfNextMonth(first);
    PrevDayOrdinal(next);
    PrevDay(next)
  }

  /** Number of working days among the days `lo .. hi-1` of month `m` of year `y`. */
  function CountWorkingDays(y: int, m: int, lo: int, hi: int): nat
    requires 1 <= y && 1 <= m <= 12 && 1 <= lo && hi <= DaysInMonth(y, m) + 1
    decreases hi - lo
  {
    if lo >= hi then 0
    else (if IsWorkingDay(Date(y, m, lo)) then 1 else 0) + CountWorkingDays(y, m, lo + 1, hi)
  }

  /** `pd.bdate_range(first, last)` for two dates of one month: the working days
      from `first` to `last` inclusive, in ascending order. */
  function BusinessDateRange(first: Date, last: Date): seq<Date>
    requires ValidDate(first) && ValidDate(last) && SameMonth(first, last)
    decreases last.day - first.day
  {
    if first.day > last.day then []
    else
      var head := if IsWorkingDay(first) then [first] else [];
      if first.day == last.day then head
      else head + BusinessDateRange(NextDay(first), last)
  }

  /** Every date of the range lies in the month between `first` and `last` and is a working day. */
  ghost predicate RangeSound(r: seq<Date>, first: Date, last: Date) {
    forall i :: 0 <= i < |r| ==>
      ValidDate(r[i]) && SameMonth(r[i], first) && first.day <= r[i].day <= last.day && IsWorkingDay(r[i])
  }

  /** Every working day between `first` and `last` occurs in the range. */
  ghost predicate RangeComplete(r: seq<Date>, first: Date, last: Date)
    requires ValidDate(first) && ValidDate(last) && SameMonth(first, last)
  {
    forall k :: first.day <= k <= last.day && IsWorkingDay(Date(first.year, first.month, k)) ==>
      Date(first.year, first.month, k) in r
  }

  /** Strictly increasing by day of month. */
  ghost predicate StrictlyIncreasing(r: seq<Date>) {
    forall i, j :: 0 <= i < j < |r| ==> r[i].day < r[j].day
  }

  /** The i-th date of the range (0-based) is preceded, from `first` on, by exactly i working days. */
  ghost predicate RangeRanked(r: seq<Date>, first: Date, last: Date)
    requires ValidDate(first) && ValidDate(last) && SameMonth(first, last)
    requires RangeSound(r, first, last)
  {
    && |r| == CountWorkingDays(first.year, first.month, first.day, last.day + 1)
    && forall i :: 0 <= i < |r| ==> CountWorkingDays(first.year, first.month, first.day, r[i].day) == i
  }

  lemma {:induction false} BusinessDateRangeSound(first: Date, last: Date)
    requires ValidDate(first) && ValidDate(last) && SameMonth(first, last)
    ensures RangeSound(BusinessDateRange(first, last), first, last)
    decreases last.day - first.day
  {
    if first.day < last.day {
      BusinessDateRangeSound(NextDay(first), last);
    }
  }

  lemma {:induction false} BusinessDateRangeIncreasing(first: Date, last: Date)
    requires ValidDate(first) && ValidDate(last) && SameMonth(first, last)
    ensures StrictlyIncreasing(BusinessDateRange(first, last))
    decreases last.day - first.day
  {
    if first.day < last.day {
      BusinessDateRangeSound(NextDay(first), last);
      BusinessDateRangeIncreasing(NextDay(first), last);
    }
  }

  lemma {:induction false} BusinessDateRangeComplete(first: Date, last: Date)
    requires ValidDate(first) && ValidDate(last) && SameMonth(first, last)
    ensures RangeComplete(BusinessDateRange(first, last), first, last)
    decreases last.day - first.day
  {
    if first.day < last.day {
      var next := NextDay(first);
      BusinessDateRangeComplete(next, last);
      var head := if IsWorkingDay(first) then [first] else [];
      assert BusinessDateRange(first, last) == head + BusinessDateRange(next, last);
    }
  }

  lemma {:induction false} BusinessDateRangeRanked(first: Date, last: Date)
    requires ValidDate(first) && ValidDate(last) && SameMonth(first, last)
    ensures RangeSound(BusinessDateRange(first, last), first, last)
    ensures RangeRanked(BusinessDateRange(first, last), first, last)
    decreases last.day - first.day
  {
    BusinessDateRangeSound(first, last);
    var r := BusinessDateRange(first, last);
    var y, m := first.year, first.month;
    if first.day < last.day {
      var next := NextDay(first);
      var rest := BusinessDateRange(next, last);
      BusinessDateRangeRanked(next, last);
      var head := if IsWorkingDay(first) then [first] else [];
      assert r == head + rest;
      forall i | 0 <= i < |r|
        ensures CountWorkingDays(y, m, first.day, r[i].day) == i
      {
        if i >= |head| {
          assert r[i] == rest[i - |head|];
        }
      }
    }
  }

  /** The properties of `pd.bdate_range` that the gate relies on. */
  lemma BusinessDateRangeSpec(first: Date, last: Date)
    requires ValidDate(first) && ValidDate(last) && SameMonth(first, last)
    ensures RangeSound(BusinessDateRange(first, last), first, last)
    ensures StrictlyIncreasing(BusinessDateRange(first, last))
    ensures RangeComplete(BusinessDateRange(first, last), first, last)
    ensures RangeRanked(BusinessDateRange(first, last), first, last)
  {
    BusinessDateRangeRanked(first, last);
    BusinessDateRangeIncreasing(first, last);
    BusinessDateRangeComplete(first, last);
  }

  /** Counting over adjacent intervals adds up. */
  lemma {:induction false} CountSplit(y: int, m: int, lo: int, mid: int, hi: int)
    requires 1 <= y && 1 <= m <= 12 && 1 <= lo <= mid <= hi <= DaysInMonth(y, m) + 1
    ensures CountWorkingDays(y, m, lo, hi) == CountWorkingDays(y, m, lo, mid) + CountWorkingDays(y, m, mid, hi)
    decreases mid - lo
  {
    if lo < mid {
      CountSplit(y, m, lo + 1, mid, hi);
    }
  }

  /** An interval holds no more working days than days. */
  lemma {:induction false} CountAtMostLength(y: int, m: int, lo: int, hi: int)
    requires 1 <= y && 1 <= m <= 12 && 1 <= lo <= hi <= DaysInMonth(y, m) + 1
    ensures CountWorkingDays(y, m, lo, hi) <= hi - lo
    decreases hi - lo
  {
    if lo < hi {
      CountAtMostLength(y, m, lo + 1, hi);
    }
  }

  /** How many of the `n` consecutive weekday numbers `c % 7, (c + 1) % 7, ...` are
      Monday to Friday. */
  function WeekdayNumbersBelowFive(c: int, n: nat): nat
    decreases n
  {
    if n == 0 then 0 else (if c % 7 < 5 then 1 else 0) + WeekdayNumbersBelowFive(c + 1, n - 1)
  }

  lemma ShiftWeekday(c: int, i: int)
    requires 0 <= i < 7
    ensures (c + i) % 7 == if c % 7 + i < 7 then c % 7 + i else c % 7 + i - 7
  {
    var r, q := c % 7, c / 7;
    if r + i < 7 {
      assert c + i == 7 * q + (r + i);
    } else {
      assert c + i == 7 * (q + 1) + (r + i - 7);
    }
  }

  /** Of seven consecutive weekday numbers, exactly five are Monday to Friday. */
  lemma FiveOfSevenWeekdays(c: int)
    ensures WeekdayNumbersBelowFive(c, 7) == 5
  {
    ShiftWeekday(c, 1);
    ShiftWeekday(c, 2);
    ShiftWeekday(c, 3);
    ShiftWeekday(c, 4);
    ShiftWeekday(c, 5);
    ShiftWeekday(c, 6);
    assert WeekdayNumbersBelowFive(c + 6, 1) == (if (c + 6) % 7 < 5 then 1 else 0);
    assert WeekdayNumbersBelowFive(c + 5, 2) == (if (c + 5) % 7 < 5 then 1 else 0) + WeekdayNumbersBelowFive(c + 6, 1);
    assert WeekdayNumbersBelowFive(c + 4, 3) == (if (c + 4) % 7 < 5 then 1 else 0) + WeekdayNumbersBelowFive(c + 5, 2);
    assert WeekdayNumbersBelowFive(c + 3, 4) == (if (c + 3) % 7 < 5 then 1 else 0) + WeekdayNumbersBelowFive(c + 4, 3);
    assert WeekdayNumbersBelowFive(c + 2, 5) == (if (c + 2) % 7 < 5 then 1 else 0) + WeekdayNumbersBelowFive(c + 3, 4);
    assert WeekdayNumbersBelowFive(c + 1, 6) == (if (c + 1) % 7 < 5 then 1 else 0) + WeekdayNumbersBelowFive(c + 2, 5);
  }

  /** Day `k` is a working day exactly when its weekday number from the month offset is below five. */
  lemma WorkingDayInMonth(y: int, m: int, k: int)
    requires 1 <= y && 1 <= m <= 12 && 1 <= k <= DaysInMonth(y, m)
    ensures IsWorkingDay(Date(y, m, k)) <==> (MonthOffset(y, m) + k) % 7 < 5
  {
    WeekdayInMonth(y, m, k);
  }

  /** Counting working days of a month is counting weekday numbers from the month offset. */
  lemma {:induction false} CountByWeekdayNumbers(y: int, m: int, lo: int, hi: int)
    requires 1 <= y && 1 <= m <= 12 && 1 <= lo <= hi <= DaysInMonth(y, m) + 1
    ensures CountWorkingDays(y, m, lo, hi) == WeekdayNumbersBelowFive(MonthOffset(y, m) + lo, hi - lo)
    decreases hi - lo
  {
    if lo < hi {
      WorkingDayInMonth(y, m, lo);
      CountByWeekdayNumbers(y, m, lo + 1, hi);
    }
  }

  /** Any seven consecutive days of a month hold exactly five working days. */
  lemma SevenDaysHoldFiveWorkingDays(y: int, m: int, lo: int)
    requires 1 <= y && 1 <= m <= 12 && 1 <= lo && lo + 7 <= DaysInMonth(y, m) + 1
    ensures CountWorkingDays(y, m, lo, lo + 7) == 5
  {
    CountByWeekdayNumbers(y, m, lo, lo + 7);
    FiveOfSevenWeekdays(MonthOffset(y, m) + lo);
  }

  /** Every month has at least twenty working days, five of them in its first week. */
  lemma MonthWorkingDays(y: int, m: int)
    requires 1 <= y && 1 <= m <= 12
    ensures CountWorkingDays(y, m, 1, 8) == 5
    ensures CountWorkingDays(y, m, 1, DaysInMonth(y, m) + 1) >= 20
  {
    var n := DaysInMonth(y, m);
    SevenDaysHoldFiveWorkingDays(y, m, 1);
    SevenDaysHoldFiveWorkingDays(y, m, 8);
    SevenDaysHoldFiveWorkingDays(y, m, 15);
    SevenDaysHoldFiveWorkingDays(y, m, 22);
    CountSplit(y, m, 1, 8, 15);
    CountSplit(y, m, 1, 15, 22);
    CountSplit(y, m, 1, 22, 29);
    CountSplit(y, m, 1, 29, n + 1);
  }

  /** A day of the month preceded by exactly four working days is day 5, 6 or 7. */
  lemma FifthFallsInFirstWeek(y: int, m: int, k: int)
    requires 1 <= y && 1 <= m <= 12 && 1 <= k <= DaysInMonth(y, m)
    requires CountWorkingDays(y, m, 1, k) == TargetWorkingDay - 1
    ensures 5 <= k <= 7
  {
    CountAtMostLength(y, m, 1, k);
    if k >= 8 {
      MonthWorkingDays(y, m);
      CountSplit(y, m, 1, 8, k);
    }
  }

  /** `get_5th_working_day()` with the clock reading `now` as input. Every month has
      at least five working days, so the source's `None` branch is never taken; the
      result is the working day preceded by exactly four working days of its month,
      which falls on day 5, 6 or 7. */
  function FifthWorkingDay(now: Date): (r: Option<Date>)
    requires ValidDate(now)
    ensures r.Some?
    ensures ValidDate(r.value) && SameMonth(r.value, now) && IsWorkingDay(r.value)
    ensures CountWorkingDays(now.year, now.month, 1, r.value.day) == TargetWorkingDay - 1
    ensures 5 <= r.value.day <= 7
  {
    var first := FirstDayOfMonth(now);
    var last := LastDayOfMonth(first);
    var days := BusinessDateRange(first, last);
    BusinessDateRangeSpec(first, last);
    MonthWorkingDays(now.year, now.month);
    if |days| >= TargetWorkingDay then
      var fifth := days[TargetWorkingDay - 1];
      FifthFallsInFirstWeek(now.year, now.month, fifth.day);
      Some(fifth)
    else
      None
  }

  /** The trigger decision `today == fifth_working_day`; an absent target never matches. */
  function ShouldRunJob(today: Date, fifth: Option<Date>): bool {
    fifth == Some(today)
  }

  /** The whole gate for one clock reading. */
  function GateDecision(clock: Date): bool
    requires ValidDate(clock)
  {
    ShouldRunJob(clock, FifthWorkingDay(clock))
  }

  /** A working day preceded by four working days of its month is the fifth working day. */
  lemma {:induction false} FifthWorkingDayUnique(a: Date, b: Date)
    requires ValidDate(a) && ValidDate(b) && SameMonth(a, b)
    requires IsWorkingDay(a) && CountWorkingDays(a.year, a.month, 1, a.day) == TargetWorkingDay - 1
    requires IsWorkingDay(b) && CountWorkingDays(b.year, b.month, 1, b.day) == TargetWorkingDay - 1
    ensures a == b
  {
    if a.day < b.day {
      CountSplit(a.year, a.month, 1, a.day, b.day);
    } else if b.day < a.day {
      CountSplit(a.year, a.month, 1, b.day, a.day);
    }
  }

  /** The gate fires on a date exactly when it is a working day preceded by four
      working days of its month. */
  lemma GateFiresIff(d: Date)
    requires ValidDate(d)
    ensures GateDecision(d) <==> IsWorkingDay(d) && CountWorkingDays(d.year, d.month, 1, d.day) == TargetWorkingDay - 1
  {
    var fifth := FifthWorkingDay(d).value;
    if IsWorkingDay(d) && CountWorkingDays(d.year, d.month, 1, d.day) == TargetWorkingDay - 1 {
      FifthWorkingDayUnique(d, fifth);
    }
  }

  /** Exactly one date of every month fires the gate. */
  lemma GateFiresOncePerMonth(y: int, m: int)
    requires 1 <= y && 1 <= m <= 12
    ensures exists d :: ValidDate(d) && d.year == y && d.month == m && GateDecision(d)
    ensures forall a, b :: ValidDate(a) && ValidDate(b) && SameMonth(a, b) && GateDecision(a) && GateDecision(b) ==> a == b
  {
    var fifth := FifthWorkingDay(Date(y, m, 1)).value;
    GateFiresIff(fifth);
    forall a, b | ValidDate(a) && ValidDate(b) && SameMonth(a, b) && GateDecision(a) && GateDecision(b)
      ensures a == b
    {
      GateFiresIff(a);
      GateFiresIff(b);
      FifthWorkingDayUnique(a, b);
    }
  }

  /** April 2025 starts on a Tuesday (the year is a parameter so that the solver
      does not evaluate the year count from year 1 on). */
  lemma AprilTwentyTwentyFiveOffset(y: int)
    requires y == 2025
    ensures MonthOffset(y, 4) % 7 == 0
  {
    DaysBeforeYearClosedForm(y);
    assert DaysBeforeYear(y) == 739251;
    assert DaysBeforeMonth(y, 4) == 90;
  }

  /** The six weekday numbers after a Monday hold four of Monday to Friday. */
  lemma SixAfterMonday(c: int)
    requires c % 7 == 0
    ensures WeekdayNumbersBelowFive(c + 1, 6) == 4
  {
    ShiftWeekday(c, 1);
    ShiftWeekday(c, 2);
    ShiftWeekday(c, 3);
    ShiftWeekday(c, 4);
    ShiftWeekday(c, 5);
    ShiftWeekday(c, 6);
    assert WeekdayNumbersBelowFive(c + 6, 1) == 0;
    assert WeekdayNumbersBelowFive(c + 5, 2) == 0;
    assert WeekdayNumbersBelowFive(c + 4, 3) == 1;
    assert WeekdayNumbersBelowFive(c + 3, 4) == 2;
    assert WeekdayNumbersBelowFive(c + 2, 5) == 3;
  }

  /** In a month whose 7th is a Monday, the 1st to the 6th hold four working days,
      so the 7th is the fifth. */
  lemma SeventhIsMonday(y: int, m: int)
    requires 1 <= y && 1 <= m <= 12 && MonthOffset(y, m) % 7 == 0
    ensures Weekday(Date(y, m, 7)) == 0
    ensures CountWorkingDays(y, m, 1, 7) == TargetWorkingDay - 1
  {
    var c := MonthOffset(y, m);
    WeekdayInMonth(y, m, 7);
    assert (c + 7) % 7 == 0 by {
      assert c + 7 == 7 * (c / 7 + 1);
    }
    CountByWeekdayNumbers(y, m, 1, 7);
    SixAfterMonday(c);
  }

  /** Days 1 to 7 of April of year `y` as in 2025; the year is a parameter so that the
      solver does not evaluate the year count from year 1 on. */
  lemma AprilOf(y: int)
    requires y == 2025
    ensures Weekday(Date(y, 4, 7)) == 0
    ensures CountWorkingDays(y, 4, 1, 7) == TargetWorkingDay - 1
    ensures GateDecision(Date(y, 4, 7))
    ensures !GateDecision(Date(y, 4, 4))
  {
    AprilTwentyTwentyFiveOffset(y);
    SeventhIsMonday(y, 4);
    GateFiresIff(Date(y, 4, 7));
  }

  /** Monday 7 April 2025 is a working day preceded by four working days of April,
      so by `GateFiresIff` it is the date the gate fires on. */
  lemma AprilTwentyTwentyFive()
    ensures Weekday(Date(2025, 4, 7)) == 0
    ensures CountWorkingDays(2025, 4, 1, 7) == TargetWorkingDay - 1
  {
    AprilOf(2025);
  }

  /** On 7 April 2025 the gate fires; on Friday 4 April, too early in the month, it does not. */
  lemma AprilGateFires()
    ensures GateDecision(Date(2025, 4, 7))
    ensures !GateDecision(Date(2025, 4, 4))
  {
    AprilOf(2025);
  }
}
