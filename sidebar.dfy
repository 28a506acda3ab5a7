// The dashboard sidebar's month view: the current month laid out Monday
// first, every day coloured from the fallback completion table.

module Sidebar {
  import opened Calendar
  import opened MonthGrid

  /** One drawn day: its number, its completion percent, whether it is today and whether
      it is drawn as complete. */
  datatype DayCell = DayCell(day: int, completion: int, isToday: bool, isComplete: bool)

  function Cell(today: Date, d: int): DayCell
  {
    var completion := MockCompletion(d);
    DayCell(d, completion, d == today.day, completion == 100)
  }

  /** The day cells of today's month, in order. */
  function Cells(today: Date): (cells: seq<DayCell>)
    requires ValidDate(today)
    ensures |cells| == MonthLength(today.year, today.month)
    ensures forall i :: 0 <= i < |cells| ==> cells[i] == Cell(today, i + 1)
  {
    var days := DayList(DaysInMonth(today.year, today.month - 1));
    seq(|days|, i requires 0 <= i < |days| => Cell(today, days[i]))
  }

  /** The blank cells before the 1st of today's month. */
  function Blanks(today: Date): (b: int)
    requires ValidDate(today)
    ensures 0 <= b < 7
  {
    LeadingBlanks(today.year, today.month - 1)
  }

  /** Exactly one cell is marked as today: the cell of today's day of the month. It sits
      under today's weekday, and a cell is drawn complete exactly when its table percent
      is 100. */
  lemma CellsMarkToday(today: Date)
    requires ValidDate(today)
    ensures forall i :: 0 <= i < |Cells(today)| ==> (Cells(today)[i].isToday <==> i == today.day - 1)
    ensures Cells(today)[today.day - 1].isToday
    ensures (Blanks(today) + today.day - 1) % 7 == DaysSinceMonday(today)
    ensures forall i :: 0 <= i < |Cells(today)| ==>
      (Cells(today)[i].isComplete <==> Cells(today)[i].completion == 100) &&
      Cells(today)[i].completion in {0, 25, 60, 100}
  {
    GridColumnIsWeekday(today.year, today.month - 1, today.day);
  }
}
