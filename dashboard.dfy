// The dashboard page: the heatmap data it asks for, and the mock data it
// falls back on: a count from 0 to 3 for each of the 120 days ending today.

module Dashboard {
  import opened Calendar
  import opened DateText
  import opened LexOrder

  /** The full-date of the day i days before `end`. */
  function RangeEntry(end: Date, i: int): string
    requires ValidDate(end)
  {
    IsoDate(AddDays(end, -i))
  }

  /** The `days` days ending at `end`, newest first, as full-dates. */
  function RangeSpec(end: Date, days: nat): (r: seq<string>)
    requires ValidDate(end)
    ensures |r| == days && forall i :: 0 <= i < days ==> r[i] == RangeEntry(end, i)
  {
    seq(days, i => RangeEntry(end, i))
  }

  /** `rangeDays(end, days)`: for i from 0, the full-date of a copy of `end` moved back
      i days. */
  method RangeDays(end: Date, days: nat) returns (result: seq<string>)
    requires ValidDate(end)
    ensures result == RangeSpec(end, days)
  {
    result := [];
    for i := 0 to days
      invariant result == RangeSpec(end, i)
    {
      RangeSpecGrows(end, i);
      result := result + [RangeEntry(end, i)];
    }
  }

  lemma RangeSpecGrows(end: Date, n: int)
    requires ValidDate(end) && n >= 0
    ensures RangeSpec(end, n + 1) == RangeSpec(end, n) + [RangeEntry(end, n)]
  {
    var a, b := RangeSpec(end, n + 1), RangeSpec(end, n);
    forall k | 0 <= k < n
      ensures a[k] == b[k]
    {
    }
  }

  /** Entry i of the range names the day i days before `end`. */
  lemma RangeDayParses(end: Date, days: nat, i: int)
    requires ValidDate(end) && InIsoYears(end) && days <= DayNumber(end) + 1
    requires 0 <= i < days
    ensures ParseIso(RangeSpec(end, days)[i]).Some?
    ensures DayNumber(ParseIso(RangeSpec(end, days)[i]).value) == DayNumber(end) - i
  {
    RangeEntryParses(end, i);
  }

  /** The full-date of the day i days back parses back to that day. */
  lemma RangeEntryParses(end: Date, i: int)
    requires ValidDate(end) && InIsoYears(end) && 0 <= i <= DayNumber(end)
    ensures ParseIso(RangeEntry(end, i)) == Some(AddDays(end, -i))
  {
    WithinIsoYears(end, -i);
    var d := AddDays(end, -i);
    ParseIsoOfIsoDate(d);
  }

  /** The range runs strictly backwards: a later entry is an earlier day, so it sorts
      strictly before every entry ahead of it. */
  lemma RangeDescends(end: Date, days: nat, i: int, j: int)
    requires ValidDate(end) && InIsoYears(end) && days <= DayNumber(end) + 1
    requires 0 <= i < j < days
    ensures LexLeq(RangeSpec(end, days)[j], RangeSpec(end, days)[i])
    ensures RangeSpec(end, days)[i] != RangeSpec(end, days)[j]
  {
    BackDaysTextOrder(end, i, j);
  }

  /** A mock heatmap of `days` days ending at `end`: exactly the days of the range, each
      with a count from 0 to 3. */
  ghost predicate IsMock(m: map<string, nat>, end: Date, days: nat)
    requires ValidDate(end)
  {
    (forall k :: k in m <==> k in RangeSpec(end, days)) &&
    (forall k :: k in m ==> m[k] < 4)
  }

  /** `mockHeatmap(days)`: `Math.floor(Math.random() * 4)` for every day of the range;
      the random draw is any count from 0 to 3. */
  method MockHeatmap(end: Date, days: nat) returns (m: map<string, nat>)
    requires ValidDate(end)
    ensures IsMock(m, end, days)
  {
    var dates := RangeDays(end, days);
    m := RandomCounts(dates);
  }

  /** `for (const dt of dates) map[dt] = Math.floor(Math.random() * 4)`. */
  method RandomCounts(dates: seq<string>) returns (m: map<string, nat>)
    ensures forall k :: k in m <==> k in dates
    ensures forall k :: k in m ==> m[k] < 4
  {
    m := map[];
    for i := 0 to |dates|
      invariant forall k :: k in m <==> k in dates[..i]
      invariant forall k :: k in m ==> m[k] < 4
    {
      var v: nat :| v < 4;
      assert dates[..i + 1] == dates[..i] + [dates[i]];
      m := m[dates[i] := v];
    }
    assert dates[..|dates|] == dates;
  }

  /** Within four-digit years a mock heatmap has one entry per day: `days` keys. */
  lemma MockHasEveryDay(m: map<string, nat>, end: Date, days: nat)
    requires ValidDate(end) && InIsoYears(end) && days <= DayNumber(end) + 1
    requires IsMock(m, end, days)
    ensures |m.Keys| == days
  {
    var r := RangeSpec(end, days);
    forall i, j | 0 <= i < j < |r|
      ensures r[i] != r[j]
    {
      RangeDescends(end, days, i, j);
    }
    assert m.Keys == set k | k in r;
    DistinctCount(r);
  }

  /** A sequence without repeats has as many distinct elements as entries. */
  lemma {:induction false} DistinctCount(s: seq<string>)
    requires forall i, j :: 0 <= i < j < |s| ==> s[i] != s[j]
    ensures |set k | k in s| == |s|
  {
    if s != [] {
      var t := s[..|s| - 1];
      DistinctCount(t);
      assert s[|s| - 1] !in t;
      assert (set k | k in s) == (set k | k in t) + {s[|s| - 1]};
    }
  }

  /** The heatmap state of the dashboard and its fetch effect. `today` is `new Date()`
      when the page renders; `mounted` is the effect's flag that its cleanup clears. */
  class HeatmapLoader {
    const today: Date
    var mounted: bool
    var heatmap: Option<map<string, nat>>

    /** The first render: no heatmap yet, the effect started. */
    constructor(today: Date)
      requires ValidDate(today)
      ensures this.today == today && mounted && heatmap == None
    {
      this.today := today;
      mounted := true;
      heatmap := None;
    }

    /** `getHeatmap` resolved with `data`: while mounted, show the data when it has a key
        and a fresh 120-day mock when it has none. */
    method Resolve(data: map<string, nat>)
      requires ValidDate(today)
      modifies this
      ensures mounted == old(mounted)
      ensures !mounted ==> heatmap == old(heatmap)
      ensures mounted && data != map[] ==> heatmap == Some(data)
      ensures mounted && data == map[] ==> heatmap.Some? && IsMock(heatmap.value, today, 120)
      ensures mounted ==> heatmap.Some? && heatmap.value != map[]
    {
      if !mounted {
        return;
      }
      if data != map[] {
        heatmap := Some(data);
      } else {
        var mock := MockHeatmap(today, 120);
        MockNotEmpty(mock, today, 120);
        heatmap := Some(mock);
      }
    }

    /** `getHeatmap` failed: while mounted, show a fresh 120-day mock. */
    method Reject()
      requires ValidDate(today)
      modifies this
      ensures mounted == old(mounted)
      ensures !mounted ==> heatmap == old(heatmap)
      ensures mounted ==> heatmap.Some? && IsMock(heatmap.value, today, 120) && heatmap.value != map[]
    {
      if !mounted {
        return;
      }
      var mock := MockHeatmap(today, 120);
      MockNotEmpty(mock, today, 120);
      heatmap := Some(mock);
    }

    /** The effect's cleanup: a later answer no longer changes the page. */
    method Unmount()
      modifies this
      ensures !mounted && heatmap == old(heatmap)
    {
      mounted := false;
    }
  }

  /** A mock of at least one day has a key, so the heatmap it feeds is drawn. */
  lemma MockNotEmpty(m: map<string, nat>, end: Date, days: nat)
    requires ValidDate(end) && days > 0 && IsMock(m, end, days)
    ensures m != map[]
  {
    assert RangeSpec(end, days)[0] in m;
  }
}
