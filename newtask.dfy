// The new-task form: a title, a set of weekdays it repeats on (0 = Monday
// .. 6 = Sunday), and the list of recurring task templates it appends to
// and keeps in the browser's storage.

module NewTask {
  import opened DateText

  /** A recurring task template. */
  datatype RecurringHabit = RecurringHabit(id: int, title: string, recurringDays: seq<int>, createdAt: string)

  predicate Sorted(s: seq<int>)
  {
    forall i, j :: 0 <= i < j < |s| ==> s[i] <= s[j]
  }

  /** Ascending without repeats. */
  predicate StrictlySorted(s: seq<int>)
  {
    forall i, j :: 0 <= i < j < |s| ==> s[i] < s[j]
  }

  /** A selection the weekday buttons can produce: distinct weekdays, in order. */
  predicate ValidSelection(s: seq<int>)
  {
    StrictlySorted(s) && forall i :: 0 <= i < |s| ==> 0 <= s[i] < 7
  }

  /** `s.filter((d) => d !== x)`. */
  function Without(s: seq<int>, x: int): (r: seq<int>)
    ensures forall y :: y in r <==> y in s && y != x
    ensures StrictlySorted(s) ==> StrictlySorted(r) && (r != [] ==> s != [] && s[0] <= r[0])
  {
    if s == [] then []
    else
      var w := Without(s[1..], x);
      assert s == [s[0]] + s[1..];
      if s[0] == x then w else [s[0]] + w
  }

  /** x placed after the elements not greater than it. */
  function InsertSorted(s: seq<int>, x: int): (r: seq<int>)
    ensures |r| == |s| + 1 && r[0] == if s == [] || x < s[0] then x else s[0]
  {
    if s == [] then [x]
    else if x < s[0] then [x] + s
    else
      assert s == [s[0]] + s[1..];
      [s[0]] + InsertSorted(s[1..], x)
  }

  /** Insertion adds exactly x to the numbers. */
  lemma {:induction false} InsertAddsElement(s: seq<int>, x: int)
    ensures multiset(InsertSorted(s, x)) == multiset(s) + multiset{x}
  {
    if s != [] && x >= s[0] {
      assert s == [s[0]] + s[1..];
      InsertAddsElement(s[1..], x);
    }
  }

  /** Inserting into an ascending sequence keeps it ascending. */
  lemma {:induction false} InsertKeepsSorted(s: seq<int>, x: int)
    requires Sorted(s)
    ensures Sorted(InsertSorted(s, x))
  {
    if s != [] && x >= s[0] {
      assert s == [s[0]] + s[1..];
      var t := InsertSorted(s[1..], x);
      InsertKeepsSorted(s[1..], x);
      InsertAbove(s[1..], x, s[0]);
      assert InsertSorted(s, x) == [s[0]] + t;
    }
  }

  /** A bound below x and below every element is below everything the insertion gives. */
  lemma {:induction false} InsertAbove(s: seq<int>, x: int, b: int)
    requires b <= x && forall i :: 0 <= i < |s| ==> b <= s[i]
    ensures forall k :: 0 <= k < |InsertSorted(s, x)| ==> b <= InsertSorted(s, x)[k]
  {
    if s != [] && x >= s[0] {
      InsertAbove(s[1..], x, b);
    }
  }

  /** Inserting a new number into a distinct, ascending sequence keeps it distinct and
      ascending. */
  lemma {:induction false} InsertKeepsStrict(s: seq<int>, x: int)
    requires StrictlySorted(s) && x !in s
    ensures StrictlySorted(InsertSorted(s, x))
  {
    if s != [] && x >= s[0] {
      assert s == [s[0]] + s[1..];
      InsertKeepsStrict(s[1..], x);
      InsertAbove(s[1..], x, s[0] + 1);
    }
  }

  /** `sort((a, b) => a - b)`: the ascending arrangement of the same numbers. */
  function SortAscending(s: seq<int>): (r: seq<int>)
    ensures Sorted(r) && multiset(r) == multiset(s)
  {
    if s == [] then []
    else
      assert s == s[..|s| - 1] + [s[|s| - 1]];
      InsertKeepsSorted(SortAscending(s[..|s| - 1]), s[|s| - 1]);
      InsertAddsElement(SortAscending(s[..|s| - 1]), s[|s| - 1]);
      InsertSorted(SortAscending(s[..|s| - 1]), s[|s| - 1])
  }

  /** `toggleDay(idx)` on the selection s: drop idx when it is there, otherwise add it and
      sort. */
  function Toggled(s: seq<int>, idx: int): (r: seq<int>)
    ensures idx in r <==> idx !in s
    ensures forall y :: y != idx ==> (y in r <==> y in s)
    ensures idx !in s ==> Sorted(r)
  {
    if idx in s then Without(s, idx)
    else
      assert multiset(s + [idx]) == multiset(s) + multiset{idx};
      assert forall y :: y in multiset(s + [idx]) <==> y in s || y == idx;
      SortAscending(s + [idx])
  }

  /** Sorting an already ascending sequence leaves it as it is. */
  lemma {:induction false} SortSortedIsIdentity(s: seq<int>)
    requires Sorted(s)
    ensures SortAscending(s) == s
  {
    if s != [] {
      var init, last := s[..|s| - 1], s[|s| - 1];
      assert s == init + [last];
      assert forall i :: 0 <= i < |init| ==> init[i] == s[i];
      SortSortedIsIdentity(init);
      InsertLast(init, last);
    }
  }

  /** Inserting a number not less than every element appends it. */
  lemma {:induction false} InsertLast(s: seq<int>, x: int)
    requires forall i :: 0 <= i < |s| ==> s[i] <= x
    ensures InsertSorted(s, x) == s + [x]
  {
    if s != [] {
      var t := s[1..];
      assert forall i :: 0 <= i < |t| ==> t[i] == s[i + 1];
      InsertLast(t, x);
      assert InsertSorted(s, x) == [s[0]] + (t + [x]);
      assert [s[0]] + (t + [x]) == s + [x];
    }
  }

  /** The toggle applied to a sorted selection: adding a day inserts it in place. */
  lemma ToggleAddsInPlace(s: seq<int>, idx: int)
    requires Sorted(s) && idx !in s
    ensures Toggled(s, idx) == InsertSorted(s, idx)
  {
    assert (s + [idx])[..|s + [idx]| - 1] == s;
    SortSortedIsIdentity(s);
  }

  /** A distinct, ascending selection stays distinct and ascending, and one of weekdays
      stays one of weekdays when a weekday is toggled. */
  lemma ToggleKeepsSelection(s: seq<int>, idx: int)
    requires StrictlySorted(s)
    ensures StrictlySorted(Toggled(s, idx))
    ensures ValidSelection(s) && 0 <= idx < 7 ==> ValidSelection(Toggled(s, idx))
  {
    if idx !in s {
      ToggleAddsInPlace(s, idx);
      InsertKeepsStrict(s, idx);
    }
    var r := Toggled(s, idx);
    if ValidSelection(s) && 0 <= idx < 7 {
      forall i | 0 <= i < |r|
        ensures 0 <= r[i] < 7
      {
        assert r[i] in r;
      }
    }
  }

  /** Toggling the same day twice gives back the selection exactly. */
  lemma ToggleTwice(s: seq<int>, idx: int)
    requires StrictlySorted(s)
    ensures Toggled(Toggled(s, idx), idx) == s
  {
    if idx in s {
      var t := Without(s, idx);
      ToggleAddsInPlace(t, idx);
      InsertRemoved(s, idx);
    } else {
      ToggleAddsInPlace(s, idx);
      RemoveInserted(s, idx);
    }
  }

  /** Putting back a removed element of a distinct, ascending sequence restores it. */
  lemma {:induction false} InsertRemoved(s: seq<int>, x: int)
    requires StrictlySorted(s) && x in s
    ensures InsertSorted(Without(s, x), x) == s
  {
    assert s == [s[0]] + s[1..];
    if s[0] == x {
      assert x !in s[1..];
      WithoutAbsent(s[1..], x);
    } else {
      assert s[0] < x;
      InsertRemoved(s[1..], x);
    }
  }

  /** Removing an element just inserted restores the sequence it was inserted in. */
  lemma {:induction false} RemoveInserted(s: seq<int>, x: int)
    requires x !in s
    ensures Without(InsertSorted(s, x), x) == s
  {
    if s == [] {
    } else if x < s[0] {
      WithoutAbsent(s, x);
    } else {
      assert s == [s[0]] + s[1..];
      RemoveInserted(s[1..], x);
    }
  }

  /** Filtering out an absent element changes nothing. */
  lemma {:induction false} WithoutAbsent(s: seq<int>, x: int)
    requires x !in s
    ensures Without(s, x) == s
  {
    if s != [] {
      assert s == [s[0]] + s[1..];
      WithoutAbsent(s[1..], x);
    }
  }

  /** Entry i of a distinct, ascending sequence of weekdays is at least i and leaves room
      for the entries after it. */
  lemma {:induction false} SelectionBounds(s: seq<int>, i: int)
    requires ValidSelection(s) && 0 <= i < |s|
    ensures i <= s[i] <= 6 - (|s| - 1 - i)
  {
    LowerBound(s, i);
    UpperBound(s, i);
  }

  lemma {:induction false} LowerBound(s: seq<int>, i: int)
    requires ValidSelection(s) && 0 <= i < |s|
    ensures i <= s[i]
  {
    if i > 0 {
      LowerBound(s, i - 1);
    }
  }

  lemma {:induction false} UpperBound(s: seq<int>, i: int)
    requires ValidSelection(s) && 0 <= i < |s|
    ensures s[i] <= 6 - (|s| - 1 - i)
    decreases |s| - i
  {
    if i < |s| - 1 {
      UpperBound(s, i + 1);
    }
  }

  /** Every weekday, Monday to Sunday. */
  function EveryDay(): (all: seq<int>)
    ensures ValidSelection(all) && |all| == 7
  {
    [0, 1, 2, 3, 4, 5, 6]
  }

  /** At most seven weekdays can be selected, and `selectedDays.length === 7` holds
      exactly when every weekday is. */
  lemma AllSelectedIsEveryDay(s: seq<int>)
    requires ValidSelection(s)
    ensures |s| <= 7
    ensures |s| == 7 <==> s == EveryDay()
  {
    if |s| > 0 {
      SelectionBounds(s, 0);
    }
    if |s| == 7 {
      forall i | 0 <= i < 7
        ensures s[i] == i
      {
        SelectionBounds(s, i);
      }
    }
  }

  /** JavaScript's white space and line terminators, the characters `trim` removes. */
  predicate IsJsSpace(c: char)
  {
    c == '\t' || c == '\n' || c == '\U{000B}' || c == '\U{000C}' || c == '\r' || c == ' ' ||
    c == '\U{00A0}' || c == '\U{1680}' || ('\U{2000}' <= c <= '\U{200A}') ||
    c == '\U{2028}' || c == '\U{2029}' || c == '\U{202F}' || c == '\U{205F}' ||
    c == '\U{3000}' || c == '\U{FEFF}'
  }

  /** The index of the first character at or after i that is not white space. */
  function SkipSpaces(s: string, i: nat): (j: nat)
    requires i <= |s|
    ensures i <= j <= |s|
    ensures forall k :: i <= k < j ==> IsJsSpace(s[k])
    ensures j == |s| || !IsJsSpace(s[j])
    decreases |s| - i
  {
    if i < |s| && IsJsSpace(s[i]) then SkipSpaces(s, i + 1) else i
  }

  /** The end of s[lo..hi] once its trailing white space is dropped. */
  function DropSpaces(s: string, lo: nat, hi: nat): (j: nat)
    requires lo <= hi <= |s|
    ensures lo <= j <= hi
    ensures forall k :: j <= k < hi ==> IsJsSpace(s[k])
    ensures j == lo || !IsJsSpace(s[j - 1])
  {
    if lo < hi && IsJsSpace(s[hi - 1]) then DropSpaces(s, lo, hi - 1) else hi
  }

  /** `title.trim()`: the title without its leading and its trailing white space. */
  function Trim(s: string): (r: string)
    ensures |r| <= |s|
    ensures r == [] || (!IsJsSpace(r[0]) && !IsJsSpace(r[|r| - 1]))
  {
    var lo := SkipSpaces(s, 0);
    s[lo..DropSpaces(s, lo, |s|)]
  }

  /** The trimmed title is the slice of the title that starts where its leading white
      space ends, with only white space after it. */
  lemma TrimShape(s: string)
    ensures SkipSpaces(s, 0) + |Trim(s)| <= |s|
    ensures Trim(s) == s[SkipSpaces(s, 0)..SkipSpaces(s, 0) + |Trim(s)|]
    ensures forall k :: 0 <= k < SkipSpaces(s, 0) ==> IsJsSpace(s[k])
    ensures forall k :: SkipSpaces(s, 0) + |Trim(s)| <= k < |s| ==> IsJsSpace(s[k])
  {
    var lo := SkipSpaces(s, 0);
    var hi := DropSpaces(s, lo, |s|);
    assert Trim(s) == s[lo..hi] && hi == lo + |Trim(s)|;
  }

  /** Trimming twice is trimming once. */
  lemma TrimIdempotent(s: string)
    ensures Trim(Trim(s)) == Trim(s)
  {
    var r := Trim(s);
    assert SkipSpaces(r, 0) == 0;
    assert DropSpaces(r, 0, |r|) == |r|;
  }

  /** A title trims to "" exactly when it is all white space. */
  lemma TrimEmpty(s: string)
    ensures Trim(s) == [] <==> forall k :: 0 <= k < |s| ==> IsJsSpace(s[k])
  {
    var lo := SkipSpaces(s, 0);
    var hi := DropSpaces(s, lo, |s|);
    assert Trim(s) == s[lo..hi];
  }

  /** `WEEKDAYS[d]` as `join` writes it: an index outside the table is `undefined`, which
      `join` writes as "". */
  function DayName(d: int): (name: string)
    ensures 0 <= d < 7 ==> |name| == 3 && 'A' <= name[0] <= 'Z'
    ensures !(0 <= d < 7) ==> name == ""
  {
    if 0 <= d < 7 then ["Mon", "Tue", "Wed", "Thu", "Fri", "Sat", "Sun"][d] else ""
  }

  /** Distinct weekdays have distinct names. */
  lemma DayNameInjective(a: int, b: int)
    requires 0 <= a < 7 && 0 <= b < 7 && DayName(a) == DayName(b)
    ensures a == b
  {
  }

  /** `names.join(', ')`. */
  function JoinComma(names: seq<string>): (r: string)
  {
    if |names| == 0 then ""
    else if |names| == 1 then names[0]
    else names[0] + ", " + JoinComma(names[1..])
  }

  /** A list of three-letter names joins into 5n - 2 characters, name i at 5 * i. */
  lemma {:induction false} JoinShape(names: seq<string>)
    requires |names| >= 1 && forall i :: 0 <= i < |names| ==> |names[i]| == 3
    ensures |JoinComma(names)| == 5 * |names| - 2
    ensures forall i :: 0 <= i < |names| ==> JoinComma(names)[5 * i..5 * i + 3] == names[i]
  {
    if |names| > 1 {
      var rest := names[1..];
      JoinShape(rest);
      var j := JoinComma(names);
      assert j == names[0] + ", " + JoinComma(rest);
      forall i | 0 <= i < |names|
        ensures j[5 * i..5 * i + 3] == names[i]
      {
        if i > 0 {
          assert j[5 * i..5 * i + 3] == JoinComma(rest)[5 * (i - 1)..5 * (i - 1) + 3];
        }
      }
    }
  }

  /** The weekday names of a selection. */
  function DayNames(days: seq<int>): (names: seq<string>)
    ensures |names| == |days| && forall i :: 0 <= i < |days| ==> names[i] == DayName(days[i])
  {
    seq(|days|, i requires 0 <= i < |days| => DayName(days[i]))
  }

  /** The line under each existing task: "One-time" with no days, "Repeats daily" with
      seven, otherwise "Repeats " and the day names joined by ", ". */
  function RepeatLabel(days: seq<int>): (line: string)
  {
    if |days| == 0 then "One-time"
    else "Repeats " + (if |days| == 7 then "daily" else JoinComma(DayNames(days)))
  }

  /** The label tells selections apart: two weekday selections with the same label are
      the same selection. */
  lemma LabelDeterminesDays(a: seq<int>, b: seq<int>)
    requires ValidSelection(a) && ValidSelection(b)
    requires RepeatLabel(a) == RepeatLabel(b)
    ensures a == b
  {
    AllSelectedIsEveryDay(a);
    AllSelectedIsEveryDay(b);
    var la, lb := RepeatLabel(a), RepeatLabel(b);
    if |a| == 0 || |b| == 0 {
      assert la[0] == lb[0];
    } else if |a| == 7 || |b| == 7 {
      if |a| != |b| {
        var c := if |a| == 7 then b else a;
        JoinShape(DayNames(c));
      }
    } else {
      var ja, jb := JoinComma(DayNames(a)), JoinComma(DayNames(b));
      JoinShape(DayNames(a));
      JoinShape(DayNames(b));
      assert ja == la[8..] && jb == lb[8..];
      forall i | 0 <= i < |a|
        ensures a[i] == b[i]
      {
        assert ja[5 * i..5 * i + 3] == jb[5 * i..5 * i + 3];
        DayNameInjective(a[i], b[i]);
      }
    }
  }

  /** What the `globalHabits` entry of the browser's storage holds: nothing, text that
      does not parse, or a saved list. */
  datatype Stored = Missing | Corrupt | Saved(habits: seq<RecurringHabit>)

  /** `loadHabits()`: a missing or unreadable entry reads as no templates. */
  function LoadHabits(stored: Stored): (habits: seq<RecurringHabit>)
    ensures stored.Saved? ==> habits == stored.habits
    ensures !stored.Saved? ==> habits == []
  {
    if stored.Saved? then stored.habits else []
  }

  /** The form's state and the entry it keeps in the browser's storage. */
  class Form {
    var title: string
    var selectedDays: seq<int>
    var habits: seq<RecurringHabit>
    var stored: Stored

    predicate Valid()
      reads this
    {
      ValidSelection(selectedDays)
    }

    /** The first render: an empty title and selection, the saved templates, and the
        save effect writing them straight back (`writeOk` says whether that write
        succeeds); an unreadable entry is then overwritten by an empty list. */
    constructor(saved: Stored, writeOk: bool)
      ensures Valid()
      ensures title == "" && selectedDays == [] && habits == LoadHabits(saved)
      ensures stored == if writeOk then Saved(habits) else saved
    {
      title := "";
      selectedDays := [];
      habits := LoadHabits(saved);
      stored := if writeOk then Saved(LoadHabits(saved)) else saved;
    }

    /** The title input. */
    method SetTitle(t: string)
      modifies this
      ensures title == t
      ensures selectedDays == old(selectedDays) && habits == old(habits) && stored == old(stored)
    {
      title := t;
    }

    /** The button of weekday idx. */
    method ToggleDay(idx: int)
      requires Valid() && 0 <= idx < 7
      modifies this
      ensures Valid()
      ensures selectedDays == Toggled(old(selectedDays), idx)
      ensures title == old(title) && habits == old(habits) && stored == old(stored)
    {
      ToggleKeepsSelection(selectedDays, idx);
      selectedDays := Toggled(selectedDays, idx);
    }

    /** `allSelected`: every weekday is selected. */
    function AllSelected(): (all: bool)
      reads this
      requires Valid()
      ensures all <==> selectedDays == EveryDay()
    {
      AllSelectedIsEveryDay(selectedDays);
      |selectedDays| == 7
    }

    /** `handleAdd()` at time `now` (milliseconds, the new id) with `createdAt` the
        timestamp text, `writeOk` whether the save succeeds. A title that trims to ""
        changes nothing; otherwise one template with the trimmed title and the
        selected days is appended, the saved list follows when the write succeeds, and
        the title and selection are cleared. The new template is also handed to the
        `onAdd` listener, here the returned value. */
    method HandleAdd(now: int, createdAt: string, writeOk: bool) returns (added: Option<RecurringHabit>)
      requires Valid()
      modifies this
      ensures Valid()
      ensures Trim(old(title)) == [] ==>
        added == None && title == old(title) && selectedDays == old(selectedDays) &&
        habits == old(habits) && stored == old(stored)
      ensures Trim(old(title)) != [] ==>
        added == Some(RecurringHabit(now, Trim(old(title)), old(selectedDays), createdAt)) &&
        habits == old(habits) + [added.value] &&
        title == "" && selectedDays == [] &&
        stored == if writeOk then Saved(habits) else old(stored)
      ensures writeOk && added.Some? ==> LoadHabits(stored) == habits
    {
      var trimmed := Trim(title);
      if trimmed == [] {
        return None;
      }
      var habit := RecurringHabit(now, trimmed, selectedDays, createdAt);
      var next := habits + [habit];
      habits := next;
      if writeOk {
        stored := Saved(next);
      }
      added := Some(habit);
      title := "";
      selectedDays := [];
    }
  }
}
