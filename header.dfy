// The header's pop-up month calendar: the viewed month, month navigation,
// the selected day, and the completion ring of every day, read from the
// habit store under the unpadded `Y-M-D` key.

module Header {
  import opened Digits
  import opened Calendar
  import opened DateText
  import opened Rounding
  import opened HabitStore
  import opened MonthGrid

  // ---------------------------------------------------------------------------
  // Month navigation

  /** The month before `(year, month0)`: December of the year before, from January. */
  function PrevMonthOf(year: int, month0: int): (r: (int, int))
    requires 0 <= month0 < 12
    ensures 0 <= r.1 < 12
    ensures 12 * r.0 + r.1 == 12 * year + month0 - 1
  {
    if month0 == 0 then (year - 1, 11) else (year, month0 - 1)
  }

  /** The month after `(year, month0)`: January of the year after, from December. */
  function NextMonthOf(year: int, month0: int): (r: (int, int))
    requires 0 <= month0 < 12
    ensures 0 <= r.1 < 12
    ensures 12 * r.0 + r.1 == 12 * year + month0 + 1
  {
    if month0 == 11 then (year + 1, 0) else (year, month0 + 1)
  }

  /** Going forward a month undoes going back a month, and the other way round. */
  lemma NavigationInverse(year: int, month0: int)
    requires 0 <= month0 < 12
    ensures var p := PrevMonthOf(year, month0); NextMonthOf(p.0, p.1) == (year, month0)
    ensures var n := NextMonthOf(year, month0); PrevMonthOf(n.0, n.1) == (year, month0)
  {
  }

  /** The month after is the one that starts the day after this month's last day. */
  lemma NextMonthFollows(year: int, month0: int)
    requires 0 <= month0 < 12
    ensures var n := NextMonthOf(year, month0);
      ValidDate(Date(year, month0 + 1, DaysInMonth(year, month0))) &&
      Next(Date(year, month0 + 1, DaysInMonth(year, month0))) == FirstOfMonth(n.0, n.1)
  {
  }

  // ---------------------------------------------------------------------------
  // A day of the viewed month

  /** What a day button of the grid shows. */
  datatype DayCell = DayCell(percent: int, isComplete: bool, isToday: bool, isSelected: bool)

  /** The percent the grid shows for day d, as written: 0 before mount; otherwise the
      rounded completion of the list under `dateKey(year, month0, d)` when it has
      records, and the fallback table when it has none. */
  function DayPercent(s: Store, mounted: bool, year: int, month0: int, d: int): (p: int)
    ensures 0 <= p <= 100
    ensures !mounted ==> p == 0
    ensures mounted && ListAt(s, DateKey(year, month0, d)) == [] ==> p == MockCompletion(d)
    ensures mounted && ListAt(s, DateKey(year, month0, d)) != [] ==>
      p == ListPercent(ListAt(s, DateKey(year, month0, d)))
  {
    if !mounted then 0
    else
      var items := ListAt(s, DateKey(year, month0, d));
      if |items| > 0 then Percent(CompletedCount(items), |items|) else MockCompletion(d)
  }

  function Cell(s: Store, mounted: bool, today: Date, year: int, month0: int,
                selectedDay: Option<int>, d: int): DayCell
  {
    var p := DayPercent(s, mounted, year, month0, d);
    DayCell(p, p == 100,
            d == today.day && month0 == today.month - 1 && year == today.year,
            selectedDay == Some(d) && month0 == today.month - 1 && year == today.year)
  }

  /** A cell is drawn complete exactly when its percent is 100, and it is today's cell
      exactly when it is the day `today`. */
  lemma CellMeaning(s: Store, mounted: bool, today: Date, year: int, month0: int,
                    selectedDay: Option<int>, d: int)
    ensures var c := Cell(s, mounted, today, year, month0, selectedDay, d);
      (c.isComplete <==> c.percent == 100) &&
      (c.isToday <==> Date(year, month0 + 1, d) == today) &&
      (c.isSelected ==> selectedDay == Some(d) && year == today.year && month0 + 1 == today.month)
  {
  }

  /** A day with records is drawn complete when all of them are done; with fewer than
      200 records, only then. */
  lemma CompleteMeansAllDone(s: Store, today: Date, year: int, month0: int,
                             selectedDay: Option<int>, d: int)
    requires ListAt(s, DateKey(year, month0, d)) != []
    ensures var items := ListAt(s, DateKey(year, month0, d));
      var c := Cell(s, true, today, year, month0, selectedDay, d);
      ((forall i :: 0 <= i < |items| ==> items[i].completed) ==> c.isComplete) &&
      (|items| < 200 ==> (c.isComplete ==> forall i :: 0 <= i < |items| ==> items[i].completed))
  {
    var items := ListAt(s, DateKey(year, month0, d));
    CompletedCountAll(items);
    PercentFull(CompletedCount(items), |items|);
  }

  // ---------------------------------------------------------------------------
  // The component state

  class HeaderCalendar {
    const today: Date
    var open: bool
    var mounted: bool
    var viewYear: int
    var viewMonth0: int
    var selectedDay: Option<int>
    var habitsByDate: Store

    ghost predicate Valid()
      reads this
    {
      ValidDate(today) && 0 <= viewMonth0 < 12
    }

    /** The first render: today's month in view, nothing selected, an empty store. */
    constructor(today: Date)
      requires ValidDate(today)
      ensures Valid() && this.today == today
      ensures viewYear == today.year && viewMonth0 == today.month - 1
      ensures !open && !mounted && selectedDay == None && habitsByDate == map[]
    {
      this.today := today;
      open := false;
      mounted := false;
      viewYear := today.year;
      viewMonth0 := today.month - 1;
      selectedDay := None;
      habitsByDate := map[];
    }

    function CellAt(d: int): DayCell
      reads this
    {
      Cell(habitsByDate, mounted, today, viewYear, viewMonth0, selectedDay, d)
    }

    /** The mount effect: mark mounted and load the store; a missing or unreadable
        entry loads as the empty store. */
    method Mount(saved: Option<Store>)
      modifies this
      ensures mounted && habitsByDate == Loaded(saved)
      ensures open == old(open) && viewYear == old(viewYear) && viewMonth0 == old(viewMonth0)
      ensures selectedDay == old(selectedDay)
    {
      mounted := true;
      habitsByDate := Loaded(saved);
    }

    /** The date button: open or close the pop-up. */
    method ToggleOpen()
      modifies this
      ensures open == !old(open)
      ensures mounted == old(mounted) && viewYear == old(viewYear) && viewMonth0 == old(viewMonth0)
      ensures selectedDay == old(selectedDay) && habitsByDate == old(habitsByDate)
    {
      open := !open;
    }

    /** A mouse-down outside the pop-up, or the Escape key, while it is open: close it. */
    method Dismiss()
      modifies this
      ensures !open
      ensures mounted == old(mounted) && viewYear == old(viewYear) && viewMonth0 == old(viewMonth0)
      ensures selectedDay == old(selectedDay) && habitsByDate == old(habitsByDate)
    {
      open := false;
    }

    /** The ‹ button. */
    method ShowPrevMonth()
      requires Valid()
      modifies this
      ensures Valid()
      ensures (viewYear, viewMonth0) == PrevMonthOf(old(viewYear), old(viewMonth0))
      ensures open == old(open) && mounted == old(mounted)
      ensures selectedDay == old(selectedDay) && habitsByDate == old(habitsByDate)
    {
      if viewMonth0 == 0 {
        viewMonth0 := 11;
        viewYear := viewYear - 1;
      } else {
        viewMonth0 := viewMonth0 - 1;
      }
    }

    /** The › button. */
    method ShowNextMonth()
      requires Valid()
      modifies this
      ensures Valid()
      ensures (viewYear, viewMonth0) == NextMonthOf(old(viewYear), old(viewMonth0))
      ensures open == old(open) && mounted == old(mounted)
      ensures selectedDay == old(selectedDay) && habitsByDate == old(habitsByDate)
    {
      if viewMonth0 == 11 {
        viewMonth0 := 0;
        viewYear := viewYear + 1;
      } else {
        viewMonth0 := viewMonth0 + 1;
      }
    }

    /** A click on day d: select it, hand its full-date to `onDateSelect`, close the
        pop-up. Only a day of today's month is then drawn as selected. */
    method SelectDay(d: int) returns (iso: string)
      requires Valid() && 1 <= d <= DaysInMonth(viewYear, viewMonth0)
      modifies this
      ensures Valid() && selectedDay == Some(d) && !open
      ensures ValidDate(Date(viewYear, viewMonth0 + 1, d))
      ensures iso == IsoDate(Date(viewYear, viewMonth0 + 1, d))
      ensures mounted == old(mounted) && viewYear == old(viewYear) && viewMonth0 == old(viewMonth0)
      ensures habitsByDate == old(habitsByDate)
      ensures forall e :: CellAt(e).isSelected <==>
        e == d && viewYear == today.year && viewMonth0 == today.month - 1
    {
      selectedDay := Some(d);
      iso := IsoDate(Date(viewYear, viewMonth0 + 1, d));
      open := false;
    }
  }

  // ---------------------------------------------------------------------------
  // The header reads one spelling of a day's key, the task list writes the other

  /** The same day read through both spellings of its key, as the task list reads it. */
  function DayPercentByVariants(s: Store, mounted: bool, year: int, month0: int, d: int): (p: int)
    requires 0 <= month0 < 12 && 1 <= d <= DaysInMonth(year, month0) && 0 <= year <= 9999
    ensures 0 <= p <= 100
    ensures !mounted ==> p == 0
  {
    if !mounted then 0
    else
      var day := Date(year, month0 + 1, d);
      IsoDateShape(day);
      var items := LookupVariants(s, IsoDate(day));
      if |items| > 0 then ListPercent(items) else MockCompletion(d)
  }

  /** As written: on 2024-03-05 the task list seeds an open task under "2024-03-05", but
      the header looks under "2024-3-5", finds nothing, and draws the fallback 100 for
      day 5: a full ring for a day whose only task is open. */
  lemma SeededDayMissedAsWritten()
    ensures IsFullDateText("2024-03-05")
    ensures LookupVariants(SeedStore(map[], "2024-03-05", 0), "2024-03-05") == [SeedHabit(0)]
    ensures ListPercent([SeedHabit(0)]) == 0
    ensures DayPercent(SeedStore(map[], "2024-03-05", 0), true, 2024, 2, 5) == 100
  {
    var iso := "2024-03-05";
    MarchFifthText();
    SeedOnce(map[], iso, iso, 0);
    MarchFifthKey();
    var s := SeedStore(map[], iso, 0);
    assert s.Keys == {iso};
    assert ListAt(s, DateKey(2024, 2, 5)) == [];
  }

  lemma MarchFifthKey()
    ensures DateKey(2024, 2, 5) == "2024-3-5"
  {
    assert NatToString(2) == "2";
    assert NatToString(20) == "20";
    assert NatToString(202) == "202";
    assert NatToString(2024) == "2024";
  }

  /** Read through both spellings, the header shows the completion of the list the task
      list shows, and a freshly seeded day as 0. */
  lemma ByVariantsShowsTaskList(s: Store, year: int, month0: int, d: int, now: int)
    requires 0 <= month0 < 12 && 1 <= d <= DaysInMonth(year, month0) && 0 <= year <= 9999
    ensures IsFullDateText(IsoDate(Date(year, month0 + 1, d)))
    ensures var iso := IsoDate(Date(year, month0 + 1, d));
      LookupVariants(s, iso) != [] ==> DayPercentByVariants(s, true, year, month0, d) == ListPercent(LookupVariants(s, iso))
    ensures var iso := IsoDate(Date(year, month0 + 1, d));
      SeedNeeded(s, iso, iso) ==> DayPercentByVariants(SeedStore(s, iso, now), true, year, month0, d) == 0
  {
    var iso := IsoDate(Date(year, month0 + 1, d));
    IsoDateShape(Date(year, month0 + 1, d));
    if SeedNeeded(s, iso, iso) {
      SeedOnce(s, iso, iso, now);
      CompletedCountAll([SeedHabit(now)]);
    }
  }
}
