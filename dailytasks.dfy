// The task list of one day: it loads the habit store, shows the day's list
// through both spellings of the day's key, seeds a default task for today,
// toggles tasks by id, and draws a strip of the last fourteen days.

module DailyTasks {
  import opened Digits
  import opened Calendar
  import opened DateText
  import opened Rounding
  import opened HabitStore

  /** One cell of the recent strip: the unpadded key it reads and its full-date. */
  datatype RecentDay = RecentDay(key: string, iso: string)

  /** The classes of a recent cell, from empty to full. */
  datatype Shade = Empty | Faint | Strong | Full

  function ShadeRank(s: Shade): nat
  {
    match s
    case Empty => 0
    case Faint => 1
    case Strong => 2
    case Full => 3
  }

  /** `pct === 100 ? … : pct >= 50 ? … : pct > 0 ? … : …`. */
  function RecentShade(pct: int): Shade
  {
    if pct == 100 then Full else if pct >= 50 then Strong else if pct > 0 then Faint else Empty
  }

  /** A higher percent never gets a lighter cell; 0 is empty, 100 full, and 50 is where
      the strong shade starts. */
  lemma RecentShadeMonotone(p: int, q: int)
    requires 0 <= p <= q <= 100
    ensures ShadeRank(RecentShade(p)) <= ShadeRank(RecentShade(q))
    ensures RecentShade(p) == Empty <==> p == 0
    ensures RecentShade(q) == Full <==> q == 100
    ensures ShadeRank(RecentShade(p)) >= 2 <==> p >= 50
  {
  }

  /** The day k days from `base`: its full-date, keyed by the header's `dateKey` of
      that day. */
  function RecentAt(base: Date, k: int): RecentDay
    requires ValidDate(base)
  {
    var d := AddDays(base, k);
    RecentDay(DateKey(d.year, d.month - 1, d.day), IsoDate(d))
  }

  /** The state of one task list. */
  class TaskList {
    var dateIso: string
    var byDate: Store
    var habits: seq<Habit>
    var saved: Option<Store>

    ghost predicate Valid()
      reads this
    {
      IsFullDateText(dateIso)
    }

    /** The first render: an empty store and an empty list; `saved` is what the
        `habitsByDate` storage entry holds (None when missing or unreadable). */
    constructor(dateIso: string, saved: Option<Store>)
      requires IsFullDateText(dateIso)
      ensures Valid() && this.dateIso == dateIso && this.saved == saved
      ensures byDate == map[] && habits == []
    {
      this.dateIso := dateIso;
      this.saved := saved;
      byDate := map[];
      habits := [];
    }

    /** The load effect: the saved store, or the empty store. */
    method Load()
      modifies this
      ensures dateIso == old(dateIso)
      ensures byDate == Loaded(saved)
      ensures habits == old(habits) && saved == old(saved)
    {
      byDate := Loaded(saved);
    }

    /** The list effect: the day's list, padded key first. */
    method ShowList()
      requires Valid()
      modifies this
      ensures dateIso == old(dateIso)
      ensures habits == LookupVariants(byDate, dateIso)
      ensures byDate == old(byDate) && saved == old(saved)
    {
      var v := Variants(dateIso);
      if v[0] in byDate {
        habits := byDate[v[0]];
      } else if v[1] in byDate {
        habits := byDate[v[1]];
      } else {
        habits := [];
      }
    }

    /** `persist(next)`: the write comes first, and the state only changes when it did
        not fail. */
    method Persist(next: Store, writeOk: bool)
      modifies this
      ensures dateIso == old(dateIso)
      ensures writeOk ==> saved == Some(next) && byDate == next
      ensures !writeOk ==> saved == old(saved) && byDate == old(byDate)
      ensures habits == old(habits)
    {
      if writeOk {
        saved := Some(next);
        byDate := next;
      }
    }

    /** The seed effect: when the viewed date is today and its list is empty, append
        "Today's Task" under the padded key and persist. */
    method SeedToday(todayIso: string, now: int, writeOk: bool)
      requires Valid()
      modifies this
      ensures dateIso == old(dateIso)
      ensures SeedNeeded(old(byDate), dateIso, todayIso) && writeOk ==>
        byDate == SeedStore(old(byDate), dateIso, now) && saved == Some(byDate)
      ensures !(SeedNeeded(old(byDate), dateIso, todayIso) && writeOk) ==>
        byDate == old(byDate) && saved == old(saved)
      ensures habits == old(habits)
    {
      if dateIso != todayIso {
        return;
      }
      var v := Variants(todayIso);
      var existing := if v[0] in byDate then byDate[v[0]] else ListAt(byDate, v[1]);
      if |existing| > 0 {
        return;
      }
      var key := v[0];
      var next := byDate[key := ListAt(byDate, key) + [SeedHabit(now)]];
      Persist(next, writeOk);
    }

    /** `toggle(id)`: flip the tasks with that id in the day's list and persist. */
    method Toggle(id: int, writeOk: bool)
      requires Valid()
      modifies this
      ensures dateIso == old(dateIso)
      ensures writeOk ==> byDate == ToggleStore(old(byDate), dateIso, id) && saved == Some(byDate)
      ensures !writeOk ==> byDate == old(byDate) && saved == old(saved)
      ensures habits == old(habits)
    {
      var v := Variants(dateIso);
      var key := if v[0] in byDate then v[0] else v[1];
      var next := byDate[key := FlipById(ListAt(byDate, key), id)];
      Persist(next, writeOk);
    }

    /** The three effects of the first render run one after another, each reading the
        state the one before left: no saved day is lost, and today's list ends up shown. */
    method Mount(todayIso: string, now: int, writeOk: bool)
      requires Valid()
      modifies this
      ensures dateIso == old(dateIso) && habits == LookupVariants(byDate, dateIso)
      ensures forall k :: k in Loaded(old(saved)) && k != dateIso ==>
        k in byDate && byDate[k] == Loaded(old(saved))[k]
      ensures dateIso in Loaded(old(saved)) ==>
        dateIso in byDate && Loaded(old(saved))[dateIso] <= byDate[dateIso]
      ensures dateIso == todayIso && writeOk ==> habits != []
    {
      Load();
      ghost var loaded := byDate;
      SeedToday(todayIso, now, writeOk);
      if SeedNeeded(loaded, dateIso, todayIso) && writeOk {
        SeedOnce(loaded, dateIso, todayIso, now);
      }
      ShowList();
    }

    /** The first render's effects as written: the load effect sets the saved store,
        but the seed effect's closure still holds the first render's empty store, seeds
        that, and its update lands last; then the list effect shows the day's list. */
    method MountAsWritten(todayIso: string, now: int, writeOk: bool)
      requires Valid() && byDate == map[]
      modifies this
      ensures dateIso == old(dateIso) && habits == LookupVariants(byDate, dateIso)
      ensures byDate == FirstMountAsWritten(old(saved), dateIso, todayIso, now, writeOk).byDate
      ensures saved == FirstMountAsWritten(old(saved), dateIso, todayIso, now, writeOk).saved
    {
      var stale := byDate;
      Load();
      if SeedNeeded(stale, dateIso, todayIso) {
        Persist(SeedStore(stale, dateIso, now), writeOk);
      }
      ShowList();
    }

    /** A new `dateIso` from the header's selection: the component stays mounted, so
        the store, the storage entry and the shown list are kept until the effects run. */
    method View(iso: string)
      requires IsFullDateText(iso)
      modifies this
      ensures Valid() && dateIso == iso
      ensures byDate == old(byDate) && saved == old(saved) && habits == old(habits)
    {
      dateIso := iso;
    }

    /** The effects a new `dateIso` runs again on the store already held, without
        reading storage: the list, the seed, and the list once more for the seeded
        store. Coming back to today's empty list seeds it again. */
    method ChangeDate(iso: string, todayIso: string, now: int, writeOk: bool)
      requires IsFullDateText(iso)
      modifies this
      ensures Valid() && dateIso == iso && habits == LookupVariants(byDate, iso)
      ensures SeedNeeded(old(byDate), iso, todayIso) && writeOk ==>
        byDate == SeedStore(old(byDate), iso, now) && saved == Some(byDate)
      ensures !(SeedNeeded(old(byDate), iso, todayIso) && writeOk) ==>
        byDate == old(byDate) && saved == old(saved)
      ensures iso == todayIso && writeOk ==> habits != []
    {
      ghost var held := byDate;
      View(iso);
      ShowList();
      SeedToday(todayIso, now, writeOk);
      if SeedNeeded(held, iso, todayIso) && writeOk {
        SeedOnce(held, iso, todayIso, now);
      }
      ShowList();
    }

    /** `lastNDates(n)`: the n days ending at the viewed date, oldest first, each with
        its full-date and its unpadded key. */
    method LastNDates(n: nat) returns (res: seq<RecentDay>)
      requires Valid() && ParseIso(dateIso).Some?
      requires n <= DayNumber(ParseIso(dateIso).value) + 1
      ensures res == RecentRange(ParseIso(dateIso).value, n)
    {
      var base := ParseIso(dateIso).value;
      res := RecentDays(base, n);
    }
  }

  /** The loop of `lastNDates`: from n - 1 days before `base` up to `base`, the
      full-date of each day and the key read back from it. */
  method RecentDays(base: Date, n: nat) returns (res: seq<RecentDay>)
    requires ValidDate(base) && InIsoYears(base) && n <= DayNumber(base) + 1
    ensures res == RecentRange(base, n)
  {
    ghost var spec := RecentRange(base, n);
    res := [];
    var i: int := n - 1;
    while i >= 0
      invariant -1 <= i <= n - 1
      invariant |res| == n - 1 - i
      invariant forall j :: 0 <= j < |res| ==> res[j] == spec[j]
      decreases i
    {
      var k := -i;
      var d := AddDays(base, k);
      RecentAtFacts(base, k);
      var iso := IsoDate(d);
      var key := UnpaddedKey(iso);
      var day := RecentDay(key, iso);
      RecentRangeAt(base, n, |res|, k);
      AgreeExtends(res, spec, day);
      res := res + [day];
      i := i - 1;
    }
  }

  /** A prefix that agrees with `spec` still agrees after taking spec's next element. */
  lemma AgreeExtends<T>(res: seq<T>, spec: seq<T>, x: T)
    requires |res| < |spec| && forall j :: 0 <= j < |res| ==> res[j] == spec[j]
    requires x == spec[|res|]
    ensures forall j :: 0 <= j < |res| + 1 ==> (res + [x])[j] == spec[j]
  {
  }

  /** The n days ending at `base`, oldest first. */
  function RecentRange(base: Date, n: nat): (r: seq<RecentDay>)
    requires ValidDate(base)
    ensures |r| == n
  {
    seq(n, i requires 0 <= i < n => RecentAt(base, i - (n - 1)))
  }

  /** Entry i of the strip of n days ending at `base` is the day i - (n - 1) days away. */
  lemma RecentRangeAt(base: Date, n: nat, i: int, k: int)
    requires ValidDate(base) && 0 <= i < n && k == i - (n - 1)
    ensures RecentRange(base, n)[i] == RecentAt(base, k)
  {
    assert RecentRange(base, n)[i] == RecentAt(base, i - (n - 1));
  }

  /** The entry k days from `base` is the day's full-date, which parses back to that
      day, keyed by the unpadded spelling read off that full-date. */
  lemma RecentAtFacts(base: Date, k: int)
    requires ValidDate(base) && InIsoYears(base) && -DayNumber(base) <= k <= 0
    ensures ValidDate(AddDays(base, k)) && InIsoYears(AddDays(base, k))
    ensures IsFullDateText(IsoDate(AddDays(base, k)))
    ensures RecentAt(base, k) ==
      RecentDay(UnpaddedKey(IsoDate(AddDays(base, k))), IsoDate(AddDays(base, k)))
    ensures ParseIso(RecentAt(base, k).iso) == Some(AddDays(base, k))
  {
    WithinIsoYears(base, k);
    var d := AddDays(base, k);
    IsoDateFieldValues(d);
    UnpaddedKeyOfIsoDate(d);
    ParseIsoOfIsoDate(d);
  }

  /** A strip entry parses back to its own day, and its key is that day's `dateKey`. */
  lemma EntryParses(r: RecentDay, base: Date, k: int)
    requires ValidDate(base) && InIsoYears(base) && -DayNumber(base) <= k <= 0
    requires r == RecentAt(base, k)
    ensures ParseIso(r.iso) == Some(AddDays(base, k))
    ensures DayNumber(ParseIso(r.iso).value) == DayNumber(base) + k
    ensures var d := ParseIso(r.iso).value; r.key == DateKey(d.year, d.month - 1, d.day)
    ensures k == 0 ==> r.iso == IsoDate(base)
  {
    RecentAtFacts(base, k);
    AddDaysCompose(base, 0, 0);
  }

  /** The recent strip: entry i is the day n - 1 - i days before `base`; its full-date
      parses back to that day and its key is that day's unpadded `dateKey`. */
  lemma RecentDaysAreConsecutive(base: Date, n: nat, i: int)
    requires ValidDate(base) && InIsoYears(base) && n <= DayNumber(base) + 1
    requires 0 <= i < n
    ensures ParseIso(RecentRange(base, n)[i].iso).Some?
    ensures DayNumber(ParseIso(RecentRange(base, n)[i].iso).value) == DayNumber(base) - (n - 1) + i
    ensures var d := ParseIso(RecentRange(base, n)[i].iso).value;
      RecentRange(base, n)[i].key == DateKey(d.year, d.month - 1, d.day)
    ensures i == n - 1 ==> RecentRange(base, n)[i].iso == IsoDate(base)
  {
    var k := i - (n - 1);
    RecentRangeAt(base, n, i, k);
    EntryParses(RecentRange(base, n)[i], base, k);
  }

  // ---------------------------------------------------------------------------
  // The recent strip reads only the unpadded key

  /** As written: a recent cell shows `completionForKey(r.key)`, the list under the
      unpadded key. */
  function RecentPercent(s: Store, r: RecentDay): (p: nat)
    ensures p <= 100
    ensures r.key !in s ==> p == 0
  {
    CompletionForKey(s, r.key)
  }

  /** The cell read through both spellings of the day's key, as the list itself is. */
  function RecentPercentByVariants(s: Store, r: RecentDay): (p: nat)
    requires IsFullDateText(r.iso)
    ensures p <= 100
  {
    ListPercent(LookupVariants(s, r.iso))
  }

  /** On 2024-03-05, with the seeded task done, the day's list is 100% complete but its
      recent cell, keyed "2024-3-5", shows 0. */
  lemma RecentCellMissesPaddedKey()
    ensures IsFullDateText("2024-03-05")
    ensures RecentPercent(map["2024-03-05" := [Habit(0, "Today's Task", true)]],
                          RecentDay("2024-3-5", "2024-03-05")) == 0
    ensures RecentPercentByVariants(map["2024-03-05" := [Habit(0, "Today's Task", true)]],
                                    RecentDay("2024-3-5", "2024-03-05")) == 100
  {
    MarchFifthText();
    var done := [Habit(0, "Today's Task", true)];
    var s: Store := map["2024-03-05" := done];
    assert "2024-3-5" != "2024-03-05";
    assert LookupVariants(s, "2024-03-05") == done;
    CompletedCountAll(done);
  }

  /** Read through both spellings, the strip's cell for the viewed date shows the
      completion of the list shown above it. */
  lemma ViewedDayCellShowsList(s: Store, base: Date)
    requires ValidDate(base) && InIsoYears(base)
    ensures IsFullDateText(RecentAt(base, 0).iso)
    ensures RecentAt(base, 0).iso == IsoDate(base)
    ensures RecentPercentByVariants(s, RecentAt(base, 0)) == ListPercent(LookupVariants(s, IsoDate(base)))
  {
    AddDaysCompose(base, 0, 0);
    IsoDateShape(base);
  }

  // ---------------------------------------------------------------------------
  // The first render's effects all read the first render's empty store

  /** The store held and the storage entry written once the first render's effects
      have run. */
  datatype MountOutcome = MountOutcome(byDate: Store, saved: Option<Store>)

  /** As written: the load, list and seed effects of the first render all see the
      initial empty store. When the viewed date is today the seed fires on that empty
      store and persists `{[today]: [Today's Task]}`, and this update lands after the
      load's, so both the state and the storage entry lose every other day. */
  function FirstMountAsWritten(saved: Option<Store>, dateIso: string, todayIso: string,
                               now: int, writeOk: bool): (r: MountOutcome)
    requires IsFullDateText(dateIso)
    ensures dateIso == todayIso && writeOk ==>
      r.byDate == map[dateIso := [SeedHabit(now)]] && r.saved == Some(r.byDate)
    ensures !(dateIso == todayIso && writeOk) ==> r.byDate == Loaded(saved) && r.saved == saved
  {
    if writeOk && SeedNeeded(map[], dateIso, todayIso) then
      var next := SeedStore(map[], dateIso, now);
      assert next.Keys == {dateIso} && next[dateIso] == [SeedHabit(now)];
      assert next == map[dateIso := [SeedHabit(now)]];
      MountOutcome(next, Some(next))
    else
      MountOutcome(Loaded(saved), saved)
  }

  /** Opening the app on today's date with one saved task on 2024-03-04 loses that day. */
  lemma MountDropsSavedDays()
    ensures IsFullDateText("2024-03-05")
    ensures var saved: Store := map["2024-03-04" := [Habit(1, "Read", true)]];
      var r := FirstMountAsWritten(Some(saved), "2024-03-05", "2024-03-05", 2, true);
      "2024-03-04" in saved && "2024-03-04" !in r.byDate &&
      r.saved.Some? && "2024-03-04" !in r.saved.value
  {
    MarchFifthText();
    assert "2024-03-04" != "2024-03-05";
  }
}
