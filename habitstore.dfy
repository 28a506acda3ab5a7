// The date-keyed habit store: a map from a date key to the list of that
// day's habits, read through the two spellings of a day's key, toggled by
// id and seeded with a default task for today.

module HabitStore {
  import opened DateText
  import opened Rounding

  datatype Habit = Habit(id: int, title: string, completed: bool)

  /** The `habitsByDate` record: date key to that day's habits. */
  type Store = map<string, seq<Habit>>

  /** What the `habitsByDate` storage entry loads as: a missing or unreadable entry is
      the empty store. */
  function Loaded(saved: Option<Store>): (s: Store)
    ensures saved.None? ==> s == map[]
    ensures saved.Some? ==> s == saved.value
  {
    if saved.Some? then saved.value else map[]
  }

  /** `byDate[key] || []`: an absent key reads as the empty list. */
  function ListAt(s: Store, key: string): seq<Habit>
  {
    if key in s then s[key] else []
  }

  function CompletedCount(items: seq<Habit>): (c: nat)
    ensures c <= |items|
  {
    if items == [] then 0
    else CompletedCount(items[..|items| - 1]) + (if items[|items| - 1].completed then 1 else 0)
  }

  lemma {:induction false} CompletedCountAll(items: seq<Habit>)
    ensures CompletedCount(items) == |items| <==> forall i :: 0 <= i < |items| ==> items[i].completed
    ensures CompletedCount(items) == 0 <==> forall i :: 0 <= i < |items| ==> !items[i].completed
  {
    if items != [] {
      var p := items[..|items| - 1];
      CompletedCountAll(p);
      assert forall i :: 0 <= i < |p| ==> p[i] == items[i];
    }
  }

  /** The rounded completion percent of a day's list; an empty list is 0. */
  function ListPercent(items: seq<Habit>): (p: nat)
    ensures p <= 100
    ensures items == [] ==> p == 0
  {
    if items == [] then 0 else Percent(CompletedCount(items), |items|)
  }

  /** `completionForKey(key)`: the completion percent of the list stored under `key`. */
  function CompletionForKey(s: Store, key: string): (p: nat)
    ensures p <= 100
    ensures key !in s ==> p == 0
    ensures key in s && s[key] != [] ==> (p == 100 <== forall i :: 0 <= i < |s[key]| ==> s[key][i].completed)
    ensures key in s ==> (p == 0 <== forall i :: 0 <= i < |s[key]| ==> !s[key][i].completed)
  {
    CompletedCountAll(ListAt(s, key));
    ListPercent(ListAt(s, key))
  }

  // ---------------------------------------------------------------------------
  // Reading a day through both spellings of its key

  /** `byDate[variants[0]] || byDate[variants[1]] || []`: a stored list is truthy even
      when it is empty, so a present padded key wins. */
  function LookupVariants(s: Store, iso: string): (l: seq<Habit>)
    requires IsFullDateText(iso)
  {
    var v := Variants(iso);
    if v[0] in s then s[v[0]] else ListAt(s, v[1])
  }

  /** The key `toggle` rewrites: the padded key when present, else the unpadded key. */
  function ToggleKey(s: Store, iso: string): (k: string)
    requires IsFullDateText(iso)
    ensures k in Variants(iso)
  {
    var v := Variants(iso);
    if v[0] in s then v[0] else v[1]
  }

  /** The list a day shows is the list stored under the key `toggle` rewrites, and a
      missing list reads as empty. */
  lemma LookupReadsToggleKey(s: Store, iso: string)
    requires IsFullDateText(iso)
    ensures LookupVariants(s, iso) == ListAt(s, ToggleKey(s, iso))
    ensures (Variants(iso)[0] !in s && Variants(iso)[1] !in s) ==> LookupVariants(s, iso) == []
  {
  }

  // ---------------------------------------------------------------------------
  // Toggle by id

  /** Each habit with the given id has its completed flag flipped; every other field and
      every other habit is kept, in the same order. */
  function FlipById(items: seq<Habit>, id: int): (r: seq<Habit>)
    ensures |r| == |items|
    ensures forall i :: 0 <= i < |r| ==>
      r[i].id == items[i].id && r[i].title == items[i].title &&
      (r[i].completed <==> (items[i].completed != (items[i].id == id)))
  {
    if items == [] then []
    else
      var h := items[0];
      [if h.id == id then h.(completed := !h.completed) else h] + FlipById(items[1..], id)
  }

  lemma FlipByIdTwice(items: seq<Habit>, id: int)
    ensures FlipById(FlipById(items, id), id) == items
  {
    var r := FlipById(FlipById(items, id), id);
    assert forall i :: 0 <= i < |items| ==> r[i] == items[i];
  }

  /** The store after `toggle(id)` on the day `iso`. */
  function ToggleStore(s: Store, iso: string, id: int): (r: Store)
    requires IsFullDateText(iso)
    ensures r.Keys == s.Keys + {ToggleKey(s, iso)}
    ensures r[ToggleKey(s, iso)] == FlipById(ListAt(s, ToggleKey(s, iso)), id)
    ensures forall k :: k in s && k != ToggleKey(s, iso) ==> r[k] == s[k]
  {
    var key := ToggleKey(s, iso);
    s[key := FlipById(ListAt(s, key), id)]
  }

  /** Toggling twice restores the store of a day that has an entry under either key. */
  lemma ToggleTwice(s: Store, iso: string, id: int)
    requires IsFullDateText(iso)
    requires Variants(iso)[0] in s || Variants(iso)[1] in s
    ensures ToggleStore(ToggleStore(s, iso, id), iso, id) == s
  {
    var key := ToggleKey(s, iso);
    var t := ToggleStore(s, iso, id);
    assert ToggleKey(t, iso) == key;
    FlipByIdTwice(s[key], id);
  }

  /** Toggling a day with no entry under either key creates an empty list under the
      unpadded key. */
  lemma ToggleAbsentDay(s: Store, iso: string, id: int)
    requires IsFullDateText(iso)
    requires Variants(iso)[0] !in s && Variants(iso)[1] !in s
    ensures ToggleStore(s, iso, id) == s[Variants(iso)[1] := []]
  {
  }

  /** The toggled day's shown list is the flipped list; every other key keeps its list. */
  lemma ToggleShowsFlipped(s: Store, iso: string, id: int)
    requires IsFullDateText(iso)
    ensures LookupVariants(ToggleStore(s, iso, id), iso) == FlipById(LookupVariants(s, iso), id)
  {
    LookupReadsToggleKey(s, iso);
    var t := ToggleStore(s, iso, id);
    assert ToggleKey(t, iso) == ToggleKey(s, iso);
    LookupReadsToggleKey(t, iso);
  }

  // ---------------------------------------------------------------------------
  // The today seed

  function SeedHabit(now: int): Habit
  {
    Habit(now, "Today's Task", false)
  }

  /** The guard of the seed effect: the viewed date is today and its list is empty. */
  predicate SeedNeeded(s: Store, dateIso: string, todayIso: string)
    requires IsFullDateText(dateIso)
  {
    dateIso == todayIso && |LookupVariants(s, dateIso)| == 0
  }

  /** `{...byDate, [v0]: [...(byDate[v0] || []), defaultHabit]}`. */
  function SeedStore(s: Store, iso: string, now: int): (r: Store)
    requires IsFullDateText(iso)
    ensures r.Keys == s.Keys + {iso}
    ensures r[iso] == ListAt(s, iso) + [SeedHabit(now)]
    ensures forall k :: k in s && k != iso ==> r[k] == s[k]
  {
    s[iso := ListAt(s, iso) + [SeedHabit(now)]]
  }

  /** A seed that fires leaves the day showing exactly the default task, and its guard
      does not fire again. */
  lemma SeedOnce(s: Store, dateIso: string, todayIso: string, now: int)
    requires IsFullDateText(dateIso) && SeedNeeded(s, dateIso, todayIso)
    ensures LookupVariants(SeedStore(s, dateIso, now), dateIso) == [SeedHabit(now)]
    ensures !SeedNeeded(SeedStore(s, dateIso, now), dateIso, todayIso)
  {
    assert Variants(dateIso)[0] == dateIso;
    assert ListAt(s, dateIso) == [];
  }
}
