// The dashboard heatmap: a grid of Monday-to-Sunday weeks from the week of
// the earliest date in the data to the week of the latest, every cell
// coloured by its count relative to the largest count.

module WeekHeatmap {
  import opened Calendar
  import opened DateText
  import opened LexOrder
  import opened HeatColor

  /** Every key of the data names a day as a full-date. */
  ghost predicate AllDateKeys(data: map<string, nat>)
  {
    forall k :: k in data ==> IsDateKey(k)
  }

  /** `new Date(k)` for a full-date key. */
  function DayOf(k: string): (d: Date)
    requires IsDateKey(k)
    ensures ValidDate(d) && InIsoYears(d) && IsoDate(d) == k
  {
    IsoDateOfParseIso(k);
    ParseIso(k).value
  }

  /** The earliest and the latest day of the data. */
  datatype Span = Span(first: Date, last: Date)

  /** `new Date(keys.slice().sort()[0])` and `new Date(keys.slice().sort()[keys.length - 1])`. */
  function SpanOf(keys: seq<string>): (sp: Span)
    requires keys != [] && forall k :: k in keys ==> IsDateKey(k)
    ensures ValidDate(sp.first) && ValidDate(sp.last)
    ensures InIsoYears(sp.first) && InIsoYears(sp.last)
  {
    var sorted := Sort(keys);
    assert sorted[0] in multiset(keys) && sorted[|sorted| - 1] in multiset(keys);
    Span(DayOf(sorted[0]), DayOf(sorted[|sorted| - 1]))
  }

  /** Sorting the keys as strings finds the earliest and the latest day. */
  lemma SpanBounds(keys: seq<string>, k: string)
    requires keys != [] && (forall k :: k in keys ==> IsDateKey(k)) && k in keys
    ensures DayNumber(SpanOf(keys).first) <= DayNumber(DayOf(k)) <= DayNumber(SpanOf(keys).last)
  {
    var sorted := Sort(keys);
    assert k in multiset(sorted);
    assert sorted[0] in multiset(keys) && sorted[|sorted| - 1] in multiset(keys);
    SortedFirstIsLeast(sorted, k);
    SortedLastIsGreatest(sorted, k);
    KeyOrder(sorted[0], k);
    KeyOrder(k, sorted[|sorted| - 1]);
  }

  /** For full-date keys, string order is day order. */
  lemma KeyOrder(a: string, b: string)
    requires IsDateKey(a) && IsDateKey(b) && LexLeq(a, b)
    ensures DayNumber(DayOf(a)) <= DayNumber(DayOf(b))
  {
    IsoDateOrder(DayOf(a), DayOf(b));
  }

  /** The full-date of the day j days after `cursor`. */
  function DayText(cursor: Date, j: int): (t: string)
    requires ValidDate(cursor)
  {
    IsoDate(AddDays(cursor, j))
  }

  /** The seven full-dates of week w of the grid that starts on `start`: the days from
      the week's Monday, 7 * w days after `start`. */
  function Week(start: Date, w: int): (week: seq<string>)
    requires ValidDate(start)
    ensures |week| == 7
  {
    var monday := AddDays(start, 7 * w);
    seq(7, j => DayText(monday, j))
  }

  /** The first n weeks of the grid. */
  function Weeks(start: Date, n: nat): (ws: seq<seq<string>>)
    requires ValidDate(start)
    ensures |ws| == n && forall w :: 0 <= w < n ==> ws[w] == Week(start, w)
  {
    seq(n, w => Week(start, w))
  }

  /** The number of weeks the loop emits: one per Monday from `start` up to `last`. */
  function WeekCount(start: Date, last: Date): int
    requires ValidDate(start) && ValidDate(last)
  {
    (DayNumber(last) - DayNumber(start)) / 7 + 1
  }

  /** The grid: None when the data has no keys; otherwise the weeks from the Monday on or
      before the earliest day while the week's Monday is not after the latest day. */
  method BuildWeeks(data: map<string, nat>, keys: seq<string>) returns (weeks: Option<seq<seq<string>>>)
    requires KeysOf(keys, data) && AllDateKeys(data)
    ensures weeks.None? <==> keys == []
    ensures weeks.Some? ==>
      var sp := SpanOf(keys);
      var start := StartOfWeekMonday(sp.first);
      |weeks.value| == WeekCount(start, sp.last) &&
      forall w :: 0 <= w < |weeks.value| ==> weeks.value[w] == Week(start, w)
  {
    if |keys| == 0 {
      return None;
    }
    var sp := SpanOf(keys);
    SpanBounds(keys, keys[0]);
    var ws := WeeksBetween(StartOfWeekMonday(sp.first), sp.last);
    weeks := Some(ws);
  }

  /** The outer loop: one week per cursor day from `start` while it is not after `max`. */
  method WeeksBetween(start: Date, max: Date) returns (ws: seq<seq<string>>)
    requires ValidDate(start) && ValidDate(max) && DayNumber(start) <= DayNumber(max)
    ensures |ws| == WeekCount(start, max)
    ensures forall w :: 0 <= w < |ws| ==> ws[w] == Week(start, w)
  {
    ws := [];
    var cursor := start;
    AddDaysCompose(start, 0, 0);
    while DayNumber(cursor) <= DayNumber(max)
      invariant ValidDate(cursor) && cursor == AddDays(start, 7 * |ws|)
      invariant 7 * |ws| <= DayNumber(max) - DayNumber(start) + 7
      invariant ws == Weeks(start, |ws|)
      decreases DayNumber(max) - DayNumber(cursor)
    {
      var week := WeekFrom(cursor);
      WeekStep(start, |ws|, cursor, week);
      WeeksGrow(start, |ws|);
      ws := ws + [week];
      cursor := AddDays(cursor, 7);
    }
    WeekCountExact(DayNumber(max) - DayNumber(start), |ws|);
  }

  /** The inner loop: the full-dates of `cursor` and the six days after it. */
  method WeekFrom(cursor: Date) returns (week: seq<string>)
    requires ValidDate(cursor)
    ensures |week| == 7
    ensures forall j :: 0 <= j < 7 ==> week[j] == DayText(cursor, j)
  {
    week := [];
    for i := 0 to 7
      invariant |week| == i
      invariant forall j :: 0 <= j < i ==> week[j] == DayText(cursor, j)
    {
      week := week + [DayText(cursor, i)];
    }
  }

  /** The week built from the cursor is week n of the grid, and the cursor moves to the
      Monday of week n + 1. */
  lemma WeekStep(start: Date, n: int, cursor: Date, week: seq<string>)
    requires ValidDate(start) && cursor == AddDays(start, 7 * n)
    requires |week| == 7 && forall j :: 0 <= j < 7 ==> week[j] == DayText(cursor, j)
    requires 0 <= n
    ensures week == Week(start, n)
    ensures AddDays(cursor, 7) == AddDays(start, 7 * (n + 1))
  {
    AddDaysCompose(start, 7 * n, 7);
  }

  /** The grid of n + 1 weeks is the grid of n weeks followed by week n. */
  lemma WeeksGrow(start: Date, n: nat)
    requires ValidDate(start)
    ensures Weeks(start, n + 1) == Weeks(start, n) + [Week(start, n)]
  {
  }

  lemma WeekCountExact(span: int, n: int)
    requires 7 * (n - 1) <= span < 7 * n
    ensures n == span / 7 + 1
  {
  }

  /** Every week of the grid starts on a Monday, seven days after the one before. */
  lemma WeeksStartOnMonday(start: Date, w: int)
    requires ValidDate(start) && Weekday(start) == 1
    ensures Weekday(AddDays(start, 7 * w)) == 1
    ensures DayNumber(AddDays(start, 7 * w)) == DayNumber(start) + 7 * w
  {
    WeekdayAddDays(start, 7 * w);
    ModShift7(1, w);
  }

  /** The grid covers the data: it starts on or before the earliest day, its last Sunday
      is on or after the latest day, and every key of the data is a cell of some week. */
  lemma EveryKeyIsDrawn(data: map<string, nat>, keys: seq<string>, k: string)
    requires KeysOf(keys, data) && AllDateKeys(data) && k in data
    ensures var sp := SpanOf(keys);
      var start := StartOfWeekMonday(sp.first);
      DayNumber(start) <= DayNumber(sp.first) &&
      DayNumber(sp.last) <= DayNumber(start) + 7 * WeekCount(start, sp.last) - 1 &&
      exists w, j :: 0 <= w < WeekCount(start, sp.last) && 0 <= j < 7 && Week(start, w)[j] == k
  {
    var sp := SpanOf(keys);
    var start := StartOfWeekMonday(sp.first);
    var d := DayOf(k);
    SpanBounds(keys, k);
    var o := DayNumber(d) - DayNumber(start);
    var last := DayNumber(sp.last) - DayNumber(start);
    var w, j := o / 7, o % 7;
    DivMod7(o, w, j);
    CellOfDay(start, w, j, d);
    WithinWeeks(o, last);
    assert Week(start, w)[j] == k;
  }

  /** Cell j of week w is the full-date of the day 7 * w + j days after `start`. */
  lemma CellOfDay(start: Date, w: int, j: int, d: Date)
    requires ValidDate(start) && ValidDate(d) && 0 <= j < 7
    requires 7 * w + j == DayNumber(d) - DayNumber(start)
    ensures Week(start, w)[j] == IsoDate(d)
  {
    var e := AddDays(AddDays(start, 7 * w), j);
    assert Week(start, w)[j] == IsoDate(e);
    DayNumberInjective(e, d);
  }

  lemma DivMod7(o: int, w: int, j: int)
    requires w == o / 7 && j == o % 7
    ensures 0 <= j < 7 && 7 * w + j == o
  {
  }

  lemma WithinWeeks(o: int, last: int)
    requires 0 <= o <= last
    ensures 0 <= o / 7 < last / 7 + 1
    ensures last <= 7 * (last / 7 + 1) - 1
  {
  }

  /** Among the drawn cells, a larger count never gets a lighter colour. */
  lemma CellColorMonotone(data: map<string, nat>, keys: seq<string>, a: string, b: string)
    requires KeysOf(keys, data) && CellValue(data, a) <= CellValue(data, b)
    ensures CellColor(data, keys, a) <= CellColor(data, keys, b)
  {
    ValueWithinMax(data, keys, b);
    BucketMonotone(CellValue(data, a), CellValue(data, b), 1, MaxWithFloor(Values(data, keys)));
  }
}
