// The Gregorian calendar behind JavaScript's Date as the tracker uses it:
// a calendar day, its day number, its weekday, and day arithmetic
// (what `d.setDate(d.getDate() + k)` does to a Date).

module Calendar {

  /** A calendar day. `month` runs 1..12 (JavaScript's `getMonth() + 1`). */
  datatype Date = Date(year: int, month: int, day: int)

  predicate IsLeapYear(y: int)
  {
    (y % 4 == 0 && y % 100 != 0) || y % 400 == 0
  }

  /** The Gregorian month lengths (the limits in section 5.7 of RFC 3339). */
  function MonthLength(year: int, month: int): (n: int)
    requires 1 <= month <= 12
    ensures 28 <= n <= 31
    ensures n == 29 <==> month == 2 && IsLeapYear(year)
  {
    if month == 2 then (if IsLeapYear(year) then 29 else 28)
    else if month == 4 || month == 6 || month == 9 || month == 11 then 30
    else 31
  }

  predicate ValidDate(d: Date)
  {
    1 <= d.month <= 12 && 1 <= d.day <= MonthLength(d.year, d.month)
  }

  function DaysInYear(y: int): int
  {
    if IsLeapYear(y) then 366 else 365
  }

  /** Days from 0000-01-01 to the first of January of year y: the lengths of the years
      in between, counted backwards before year 0. */
  function DaysBeforeYear(y: int): (n: int)
    ensures y >= 0 <==> n >= 0
    decreases if y < 0 then -y else y
  {
    if y == 0 then 0
    else if y > 0 then DaysBeforeYear(y - 1) + DaysInYear(y - 1)
    else DaysBeforeYear(y + 1) - DaysInYear(y)
  }

  /** Days from the first of January to the first of `month` in year y: the lengths of
      the months before it. */
  function DaysBeforeMonth(y: int, month: int): (n: int)
    requires 1 <= month <= 12
    ensures 0 <= n <= 31 * (month - 1)
  {
    if month == 1 then 0 else DaysBeforeMonth(y, month - 1) + MonthLength(y, month - 1)
  }

  /** Days since 0000-01-01 of the proleptic Gregorian calendar (day 0). */
  function DayNumber(d: Date): int
    requires ValidDate(d)
  {
    DaysBeforeYear(d.year) + DaysBeforeMonth(d.year, d.month) + d.day - 1
  }

  /** `getDay()`: 0 = Sunday .. 6 = Saturday. Day 0 (0000-01-01) was a Saturday. */
  function Weekday(d: Date): (w: int)
    requires ValidDate(d)
    ensures 0 <= w < 7
  {
    (DayNumber(d) + 6) % 7
  }

  // ---------------------------------------------------------------------------
  // Steps of one day

  lemma YearStep(y: int)
    ensures DaysBeforeYear(y + 1) == DaysBeforeYear(y) + DaysInYear(y)
  {
  }

  /** The leap-year count in closed form: 365 days a year plus one for every fourth year,
      less the centuries, plus every fourth century. */
  function ClosedDaysBeforeYear(y: int): int
  {
    365 * y + (y + 3) / 4 - (y + 99) / 100 + (y + 399) / 400
  }

  lemma {:induction false} DaysBeforeYearClosed(y: int)
    ensures DaysBeforeYear(y) == ClosedDaysBeforeYear(y)
    decreases if y < 0 then -y else y
  {
    if y > 0 {
      DaysBeforeYearClosed(y - 1);
      ClosedStep(y - 1);
    } else if y < 0 {
      DaysBeforeYearClosed(y + 1);
      ClosedStep(y);
    }
  }

  lemma ClosedStep(y: int)
    ensures ClosedDaysBeforeYear(y + 1) - ClosedDaysBeforeYear(y) == DaysInYear(y)
  {
    DivStep4(y);
    DivStep100(y);
    DivStep400(y);
    Divides(y);
  }

  lemma Divides(y: int)
    ensures y % 400 == 0 ==> y % 100 == 0
    ensures y % 100 == 0 ==> y % 4 == 0
  {
    if y % 400 == 0 { var q := y / 400; assert y == 100 * (4 * q); }
    if y % 100 == 0 { var q := y / 100; assert y == 4 * (25 * q); }
  }

  lemma DivStep4(y: int)
    ensures (y + 4) / 4 - (y + 3) / 4 == if y % 4 == 0 then 1 else 0
  {
  }

  lemma DivStep100(y: int)
    ensures (y + 100) / 100 - (y + 99) / 100 == if y % 100 == 0 then 1 else 0
  {
  }

  lemma DivStep400(y: int)
    ensures (y + 400) / 400 - (y + 399) / 400 == if y % 400 == 0 then 1 else 0
  {
  }

  /** The first day of each month, counted from the first of January. */
  lemma MonthTable(y: int)
    ensures var l := if IsLeapYear(y) then 1 else 0;
      DaysBeforeMonth(y, 1) == 0 && DaysBeforeMonth(y, 2) == 31 &&
      DaysBeforeMonth(y, 3) == 59 + l && DaysBeforeMonth(y, 4) == 90 + l &&
      DaysBeforeMonth(y, 5) == 120 + l && DaysBeforeMonth(y, 6) == 151 + l &&
      DaysBeforeMonth(y, 7) == 181 + l && DaysBeforeMonth(y, 8) == 212 + l &&
      DaysBeforeMonth(y, 9) == 243 + l && DaysBeforeMonth(y, 10) == 273 + l &&
      DaysBeforeMonth(y, 11) == 304 + l && DaysBeforeMonth(y, 12) == 334 + l
  {
    assert DaysBeforeMonth(y, 2) == 31;
    assert DaysBeforeMonth(y, 3) == DaysBeforeMonth(y, 2) + MonthLength(y, 2);
    assert DaysBeforeMonth(y, 4) == DaysBeforeMonth(y, 3) + 31;
    assert DaysBeforeMonth(y, 5) == DaysBeforeMonth(y, 4) + 30;
    assert DaysBeforeMonth(y, 6) == DaysBeforeMonth(y, 5) + 31;
    assert DaysBeforeMonth(y, 7) == DaysBeforeMonth(y, 6) + 30;
    assert DaysBeforeMonth(y, 8) == DaysBeforeMonth(y, 7) + 31;
    assert DaysBeforeMonth(y, 9) == DaysBeforeMonth(y, 8) + 31;
    assert DaysBeforeMonth(y, 10) == DaysBeforeMonth(y, 9) + 30;
    assert DaysBeforeMonth(y, 11) == DaysBeforeMonth(y, 10) + 31;
    assert DaysBeforeMonth(y, 12) == DaysBeforeMonth(y, 11) + 30;
  }

  lemma MonthStep(y: int, m: int)
    requires 1 <= m <= 12
    ensures m < 12 ==> DaysBeforeMonth(y, m + 1) == DaysBeforeMonth(y, m) + MonthLength(y, m)
    ensures m == 12 ==> DaysBeforeMonth(y, m) + MonthLength(y, m) == DaysInYear(y)
  {
    if m == 12 {
      MonthTable(y);
    }
  }

  /** The next calendar day. */
  function Next(d: Date): (r: Date)
    requires ValidDate(d)
    ensures ValidDate(r) && DayNumber(r) == DayNumber(d) + 1
  {
    MonthStep(d.year, d.month);
    YearStep(d.year);
    if d.day < MonthLength(d.year, d.month) then Date(d.year, d.month, d.day + 1)
    else if d.month < 12 then Date(d.year, d.month + 1, 1)
    else Date(d.year + 1, 1, 1)
  }

  /** The previous calendar day. */
  function Prev(d: Date): (r: Date)
    requires ValidDate(d)
    ensures ValidDate(r) && DayNumber(r) == DayNumber(d) - 1
  {
    YearStep(d.year - 1);
    if d.day > 1 then Date(d.year, d.month, d.day - 1)
    else if d.month > 1 then
      MonthStep(d.year, d.month - 1);
      Date(d.year, d.month - 1, MonthLength(d.year, d.month - 1))
    else
      MonthStep(d.year - 1, 12);
      Date(d.year - 1, 12, 31)
  }

  /** `setDate(getDate() + k)` on a copy, one day at a time: the day k days later
      (earlier when k < 0). */
  function Walk(d: Date, k: int): (r: Date)
    requires ValidDate(d)
    ensures ValidDate(r) && DayNumber(r) == DayNumber(d) + k
    decreases if k < 0 then -k else k
  {
    if k == 0 then d
    else if k > 0 then Next(Walk(d, k - 1))
    else Prev(Walk(d, k + 1))
  }

  /** The day k days after d: the one valid day whose day number is k more than d's,
      which is the day `Walk` reaches. Proofs reason about it through its day number. */
  function AddDays(d: Date, k: int): (r: Date)
    requires ValidDate(d)
    ensures ValidDate(r) && DayNumber(r) == DayNumber(d) + k
  {
    var w := Walk(d, k);
    DayNumbersUnique();
    var r :| ValidDate(r) && DayNumber(r) == DayNumber(d) + k;
    r
  }

  /** Adding k days is stepping k single days with `Next` (or back with `Prev`). */
  lemma AddDaysIsWalk(d: Date, k: int)
    requires ValidDate(d)
    ensures AddDays(d, k) == Walk(d, k)
    ensures k > 0 ==> AddDays(d, k) == Next(AddDays(d, k - 1))
    ensures k < 0 ==> AddDays(d, k) == Prev(AddDays(d, k + 1))
  {
    DayNumberInjective(AddDays(d, k), Walk(d, k));
    if k > 0 {
      DayNumberInjective(AddDays(d, k), Next(AddDays(d, k - 1)));
    } else if k < 0 {
      DayNumberInjective(AddDays(d, k), Prev(AddDays(d, k + 1)));
    }
  }

  /** A valid day is fixed by its day number. */
  lemma DayNumbersUnique()
    ensures forall a: Date, b: Date {:trigger DayNumber(a), DayNumber(b)} :: ValidDate(a) && ValidDate(b) && DayNumber(a) == DayNumber(b) ==> a == b
  {
    forall a: Date, b: Date | ValidDate(a) && ValidDate(b) && DayNumber(a) == DayNumber(b)
      ensures a == b
    {
      DayNumberInjective(a, b);
    }
  }

  // ---------------------------------------------------------------------------
  // Day numbers follow the calendar order and tell days apart

  /** a comes before b in (year, month, day) order. */
  predicate Before(a: Date, b: Date)
  {
    a.year < b.year ||
    (a.year == b.year && (a.month < b.month || (a.month == b.month && a.day < b.day)))
  }

  lemma {:induction false} YearsOrder(a: int, b: int)
    requires a < b
    ensures DaysBeforeYear(a) + DaysInYear(a) <= DaysBeforeYear(b)
    decreases b - a
  {
    YearStep(a);
    if a + 1 < b {
      YearsOrder(a + 1, b);
    }
  }

  lemma {:induction false} MonthsOrder(y: int, a: int, b: int)
    requires 1 <= a < b <= 12
    ensures DaysBeforeMonth(y, a) + MonthLength(y, a) <= DaysBeforeMonth(y, b)
    decreases b - a
  {
    MonthStep(y, a);
    if a + 1 < b {
      MonthsOrder(y, a + 1, b);
    }
  }

  lemma DayNumberWithinYear(d: Date)
    requires ValidDate(d)
    ensures DaysBeforeYear(d.year) <= DayNumber(d) < DaysBeforeYear(d.year) + DaysInYear(d.year)
  {
    if d.month < 12 {
      MonthsOrder(d.year, d.month, 12);
    }
    MonthStep(d.year, 12);
    MonthTable(d.year);
  }

  lemma BeforeHasSmallerDayNumber(a: Date, b: Date)
    requires ValidDate(a) && ValidDate(b) && Before(a, b)
    ensures DayNumber(a) < DayNumber(b)
  {
    if a.year < b.year {
      DayNumberWithinYear(a);
      DayNumberWithinYear(b);
      YearsOrder(a.year, b.year);
    } else if a.month < b.month {
      MonthsOrder(a.year, a.month, b.month);
    }
  }

  /** Comparing day numbers is comparing calendar positions. */
  lemma DayNumberOrder(a: Date, b: Date)
    requires ValidDate(a) && ValidDate(b)
    ensures DayNumber(a) < DayNumber(b) <==> Before(a, b)
    ensures DayNumber(a) == DayNumber(b) <==> a == b
  {
    if Before(a, b) {
      BeforeHasSmallerDayNumber(a, b);
    } else if Before(b, a) {
      BeforeHasSmallerDayNumber(b, a);
    }
  }

  lemma DayNumberInjective(a: Date, b: Date)
    requires ValidDate(a) && ValidDate(b) && DayNumber(a) == DayNumber(b)
    ensures a == b
  {
    DayNumberOrder(a, b);
  }

  /** Day 0 is 0000-01-01, so the non-negative day numbers are the years from 0 on. */
  lemma DayNumberSign(d: Date)
    requires ValidDate(d)
    ensures DayNumber(d) >= 0 <==> d.year >= 0
  {
    assert DaysBeforeYear(0) == 0;
    DayNumberWithinYear(d);
    if d.year > 0 {
      YearsOrder(0, d.year);
    } else if d.year < 0 {
      YearsOrder(d.year, 0);
    }
  }

  // ---------------------------------------------------------------------------
  // Day arithmetic

  /** `addDays(addDays(d, a), b)` is `addDays(d, a + b)`; adding 0 days changes nothing. */
  lemma AddDaysCompose(d: Date, a: int, b: int)
    requires ValidDate(d)
    ensures AddDays(AddDays(d, a), b) == AddDays(d, a + b)
    ensures AddDays(d, 0) == d
  {
    var m := AddDays(d, a);
    var x, y := AddDays(m, b), AddDays(d, a + b);
    assert DayNumber(x) == DayNumber(y);
    DayNumberInjective(x, y);
    DayNumberInjective(AddDays(d, 0), d);
  }

  /** Two days that are k days apart by day number are related by AddDays. */
  lemma AddDaysByDayNumber(d: Date, e: Date)
    requires ValidDate(d) && ValidDate(e)
    ensures AddDays(d, DayNumber(e) - DayNumber(d)) == e
  {
    DayNumberInjective(AddDays(d, DayNumber(e) - DayNumber(d)), e);
  }

  lemma WeekdayAddDays(d: Date, k: int)
    requires ValidDate(d)
    ensures Weekday(AddDays(d, k)) == (Weekday(d) + k) % 7
  {
    ModAdd7(DayNumber(d) + 6, k);
  }

  lemma ModAdd7(x: int, k: int)
    ensures (x + k) % 7 == (x % 7 + k) % 7
  {
    var q := x / 7;
    assert x == 7 * q + x % 7;
    ModShift7(x % 7 + k, q);
  }

  lemma ModShift7(y: int, q: int)
    ensures (7 * q + y) % 7 == y % 7
  {
  }

  /** How many days back the Monday of d's week lies: `(getDay() + 6) % 7`. */
  function DaysSinceMonday(d: Date): (n: int)
    requires ValidDate(d)
    ensures 0 <= n < 7
    ensures n == 0 <==> Weekday(d) == 1
  {
    (Weekday(d) + 6) % 7
  }

  /** startOfWeekMonday: the Monday on or before d, fewer than 7 days before it. */
  function StartOfWeekMonday(d: Date): (r: Date)
    requires ValidDate(d)
    ensures ValidDate(r) && Weekday(r) == 1
    ensures DayNumber(r) <= DayNumber(d) < DayNumber(r) + 7
  {
    BackToMonday(d);
    AddDays(d, -DaysSinceMonday(d))
  }

  lemma BackToMonday(d: Date)
    requires ValidDate(d)
    ensures Weekday(AddDays(d, -DaysSinceMonday(d))) == 1
  {
    var w := Weekday(d);
    var n := DaysSinceMonday(d);
    assert n == (w + 6) % 7;
    WeekdayAddDays(d, -n);
    MondayArith(w, n);
  }

  lemma MondayArith(w: int, n: int)
    requires 0 <= w < 7 && n == (w + 6) % 7
    ensures (w + -n) % 7 == 1
  {
  }

  /** The Monday of d's week is the only Monday in the seven days ending at d. */
  lemma StartOfWeekMondayUnique(d: Date, m: Date)
    requires ValidDate(d) && ValidDate(m) && Weekday(m) == 1
    requires DayNumber(m) <= DayNumber(d) < DayNumber(m) + 7
    ensures m == StartOfWeekMonday(d)
  {
    var s := StartOfWeekMonday(d);
    var k := DayNumber(m) - DayNumber(s);
    assert -6 <= k <= 6;
    AddDaysByDayNumber(s, m);
    WeekdayAddDays(s, k);
    SameWeekday(k);
    DayNumberInjective(m, s);
  }

  lemma SameWeekday(k: int)
    requires -6 <= k <= 6 && (1 + k) % 7 == 1
    ensures k == 0
  {
  }

  /** A fixed point of the calendar: 1970-01-01, the epoch, was a Thursday. */
  lemma EpochWeekday(d: Date)
    requires d == Date(1970, 1, 1)
    ensures Weekday(d) == 4
  {
    NewYearDayNumber(d.year);
    assert ClosedDaysBeforeYear(d.year) == 719528;
  }

  /** Another: 2024-01-01 was a Monday. */
  lemma NewYear2024Weekday(d: Date)
    requires d == Date(2024, 1, 1)
    ensures Weekday(d) == 1
  {
    NewYearDayNumber(d.year);
    assert ClosedDaysBeforeYear(d.year) == 739251;
  }

  /** The day number of the first of January of year y, from the closed form. */
  lemma NewYearDayNumber(y: int)
    ensures DayNumber(Date(y, 1, 1)) == ClosedDaysBeforeYear(y)
  {
    assert DaysBeforeMonth(y, 1) == 0;
    DaysBeforeYearClosed(y);
  }
}
