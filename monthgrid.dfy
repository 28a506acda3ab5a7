// The Monday-first month grid the header calendar and the sidebar draw:
// leading blanks, then the days 1..N of the month, seven to a row, and the
// fallback completion table shown for days without habits.

module MonthGrid {
  import opened Calendar

  /** `new Date(year, month0 + 1, 0).getDate()`: day 0 of the next month is the last
      day of this one. */
  function DaysInMonth(year: int, month0: int): (n: int)
    requires 0 <= month0 < 12
    ensures n == MonthLength(year, month0 + 1)
    ensures 28 <= n <= 31
    ensures n == 31 <==> month0 in {0, 2, 4, 6, 7, 9, 11}
    ensures n == 29 <==> month0 == 1 && IsLeapYear(year)
  {
    var firstOfNext := if month0 == 11 then Date(year + 1, 1, 1) else Date(year, month0 + 2, 1);
    Prev(firstOfNext).day
  }

  function FirstOfMonth(year: int, month0: int): (d: Date)
    requires 0 <= month0 < 12
    ensures ValidDate(d)
  {
    Date(year, month0 + 1, 1)
  }

  /** `(new Date(year, month0, 1).getDay() + 6) % 7`: blank cells before the 1st when
      weeks start on Monday. */
  function LeadingBlanks(year: int, month0: int): (b: int)
    requires 0 <= month0 < 12
    ensures 0 <= b < 7
    ensures b == 0 <==> Weekday(FirstOfMonth(year, month0)) == 1
  {
    DaysSinceMonday(FirstOfMonth(year, month0))
  }

  /** `Array.from({length: n}, (_, i) => i + 1)`. */
  function DayList(n: nat): (days: seq<int>)
    ensures |days| == n
    ensures forall i :: 0 <= i < n ==> days[i] == i + 1
  {
    if n == 0 then [] else DayList(n - 1) + [n]
  }

  /** The day list is strictly increasing and holds exactly the days 1..n. */
  lemma DayListContents(n: nat)
    ensures forall i, j :: 0 <= i < j < n ==> DayList(n)[i] < DayList(n)[j]
    ensures forall d :: d in DayList(n) <==> 1 <= d <= n
  {
    var days := DayList(n);
    forall d | 1 <= d <= n ensures d in days {
      assert days[d - 1] == d;
    }
  }

  /** After the blanks, day d of the month sits in the column of its weekday, Monday
      being column 0: the grid lines every day up under the right weekday. */
  lemma GridColumnIsWeekday(year: int, month0: int, d: int)
    requires 0 <= month0 < 12 && 1 <= d <= DaysInMonth(year, month0)
    ensures ValidDate(Date(year, month0 + 1, d))
    ensures (LeadingBlanks(year, month0) + d - 1) % 7 == DaysSinceMonday(Date(year, month0 + 1, d))
  {
    var first := FirstOfMonth(year, month0);
    var day := Date(year, month0 + 1, d);
    var x := DayNumber(first);
    assert DayNumber(day) == x + d - 1;
    assert Weekday(first) == (x + 6) % 7;
    assert LeadingBlanks(year, month0) == ((x + 6) % 7 + 6) % 7;
    assert DaysSinceMonday(day) == ((x + d - 1 + 6) % 7 + 6) % 7;
    ColumnArith(x, d);
  }

  lemma ColumnArith(x: int, d: int)
    ensures (((x + 6) % 7 + 6) % 7 + d - 1) % 7 == ((x + d - 1 + 6) % 7 + 6) % 7
  {
    var w := (x + 6) % 7;
    ModAdd7(w + 6, d - 1);
    ModAdd7(x + 6, d + 5);
    ModAdd7(x + d + 5, 6);
  }

  /** `mockData`: the fallback completion percents of the days that have one. */
  const MockTable: map<int, int> :=
    map[1 := 100, 2 := 100, 5 := 100, 8 := 100, 9 := 100, 10 := 100, 13 := 100,
        16 := 100, 17 := 100, 20 := 100, 22 := 100, 28 := 100, 30 := 100,
        11 := 25, 21 := 60]

  /** `mockData[day] || 0`. */
  function MockCompletion(day: int): (p: int)
    ensures p in {0, 25, 60, 100}
    ensures p == 100 <==> day in {1, 2, 5, 8, 9, 10, 13, 16, 17, 20, 22, 28, 30}
    ensures p == 25 <==> day == 11
    ensures p == 60 <==> day == 21
  {
    if day in MockTable then MockTable[day] else 0
  }
}
