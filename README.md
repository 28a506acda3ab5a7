# Habit tracker: dates, completion and timers

A Dafny model of the bookkeeping inside the habit tracker's React
components. It covers the following:

- **Dates and keys.** Days are (year, month, day) triples of the proleptic
  Gregorian calendar, numbered from 0000-01-01.
  - `Date.setDate(getDate() + k)` steps one day at a time, and `getDay()` is
    read from the day number.
  - `toISOString().slice(0, 10)` is the full-date text of section 5.6 of
    RFC 3339. The header's `dateKey` is the unpadded `Y-M-D` text.
  - `isoToKeyVariants` gives both spellings of a day's key.
- **The date-keyed store.** The store is `habitsByDate`, a `map<string,
  seq<Habit>>`. The model covers reading a day's list through both spellings
  of its key, toggling a task by id, seeding "Today's Task", and the
  completion percent with its fallback table.
- **The header calendar.** A Monday-first month grid, with month navigation,
  the per-day percent, and the today/selected/complete marks. Its state is a
  class whose handlers are methods.
- **The sidebar month view.** It is drawn from the fallback table alone.
- **The daily task list.** Its load, list, seed and toggle effects act on a
  class, and the list and seed effects run again when the header picks
  another date. `lastNDates` is a loop, and the recent strip is coloured by
  thresholds.
- **The new-task form.** It covers weekday toggling (filter, or append and
  sort), `trim`, `handleAdd`, `allSelected`, the repeat label, and the saved
  templates.
- **The two heatmaps.**
  - The dashboard's Monday-aligned week grid: the `while`/`for` loops over
    the days from the Monday of the earliest key to the latest key.
  - The simpler rows of seven over the sorted keys.
  - Both use the five colour steps `round(4v / max)`.
- **The dashboard pages.** `rangeDays` and the random fallback heatmap, and
  the fetch effect that picks the fetched data or a mock and ignores late
  answers. `src/app/page.tsx` and `src/app/dashboard/page.tsx` define the
  same helpers. They are modelled once, in `Dashboard`.
- **The two timer cards.** The Pomodoro phase machine and the stopwatch, as
  classes, with the shared `MM:SS` format. The mode switch mounts a new
  Pomodoro card and unmounts it again.

JavaScript's default `sort()` compares strings by UTF-16 code unit. The model
compares them character by character, by code point, as `LexOrder.LexLeq`;
the two orders agree on the ASCII date keys. `Math.round` of a ratio is computed exactly on integers
(`Rounding.RoundDiv`).

One file per module: `digits`, `lexorder`, `rounding`, `calendar`,
`datetext`, `clock`, `heatcolor`, `habitstore`, `monthgrid`, `header`,
`sidebar`, `dailytasks`, `newtask`, `weekheatmap`, `rowheatmap`,
`dashboard`, `pomodoro`, `stopwatch`.

## Model

| member | source | states |
|---|---|---|
| Digits.NatToString | src/app/dashboard/ui/Pomodoro.tsx:72-73 | `n.toString()` is a non-empty run of digits with no leading zero (unless it is "0") |
| Digits.IntToString | src/app/components/Header.tsx:20 | an interpolated integer is the numeral of its absolute value, with "-" in front exactly when it is negative |
| Digits.PadStart | src/app/dashboard/ui/Pomodoro.tsx:72-77 | `padStart(width, "0")` leaves a string of at least `width` characters alone; otherwise it has exactly `width` characters, the string at the end and the fill before it |
| Digits.FixedDigits | src/app/page.tsx:10-12 | a field of `toISOString` is exactly `width` digits |
| Digits.ParseNatToString | src/app/components/DailyTasks.tsx:11 | `parseInt` reads `n.toString()` back as n |
| Digits.ParseDigitsBound | src/app/components/DailyTasks.tsx:11 | a numeral of k digits reads back below 10^k |
| Digits.ParseLeadingZeros | src/app/components/DailyTasks.tsx:11 | leading zeros do not change what `parseInt` reads |
| Digits.ParsePadded | src/app/dashboard/ui/Pomodoro.tsx:72-77 | a zero-padded numeral reads back as the number it pads |
| Digits.ParseFixedDigits | src/app/components/DailyTasks.tsx:11 | a fixed-width field reads back as its number when the number fits the width |
| Digits.PaddedIsFixed | src/app/dashboard/ui/Pomodoro.tsx:72-77 | for a number that fits, the padded numeral is the fixed-width field |
| Digits.NatToStringLength | src/app/dashboard/ui/Pomodoro.tsx:72-74 | the numeral of n has at most k digits exactly when n < 10^k |
| LexOrder.LexLeqReflexive | src/app/dashboard/ui/Heatmap.tsx:30-31 | the default string order relates every string to itself |
| LexOrder.LexLeqTotal | src/app/dashboard/ui/Heatmap.tsx:30-31 | any two strings are comparable |
| LexOrder.LexLeqAntisymmetric | src/app/dashboard/ui/Heatmap.tsx:30-31 | two strings that each sort no later than the other are equal |
| LexOrder.LexLeqTransitive | src/app/dashboard/ui/Heatmap.tsx:30-31 | the order is transitive |
| LexOrder.Sort | components/Heatmap.tsx:9 | `slice().sort()` gives a sorted arrangement of the same strings, of the same length |
| LexOrder.SortedUnique | components/Heatmap.tsx:9 | two sorted arrangements of the same strings are the same sequence, so the result does not depend on the sorting algorithm |
| LexOrder.SortedFirstIsLeast | src/app/dashboard/ui/Heatmap.tsx:30 | `sort()[0]` sorts no later than any key |
| LexOrder.SortedLastIsGreatest | src/app/dashboard/ui/Heatmap.tsx:31 | `sort()[length - 1]` sorts no earlier than any key |
| Rounding.RoundDiv | src/app/dashboard/ui/Heatmap.tsx:48 | `Math.round(a / b)` is the integer r with r - 1/2 <= a/b < r + 1/2 |
| Rounding.RoundDivUnique | src/app/dashboard/ui/Heatmap.tsx:48 | only one integer satisfies that interval |
| Rounding.RoundDivMonotone | src/app/dashboard/ui/Heatmap.tsx:48 | rounding never reverses the order of two ratios with the same divisor |
| Rounding.RoundDivExact | src/app/dashboard/ui/Heatmap.tsx:48 | a whole quotient rounds to itself |
| Rounding.Percent | src/app/components/DailyTasks.tsx:77 | the completion percent lies in 0..100, is 100 when all are done and 0 when none are |
| Rounding.PercentFull | src/app/components/Header.tsx:129-132 | the percent is 100 exactly when 199 * total <= 200 * completed |
| Rounding.PercentFullSmall | src/app/components/Header.tsx:129-132 | with fewer than 200 records, the percent is 100 exactly when every record is done |
| Rounding.NearlyAllRoundsToFull | src/app/components/Header.tsx:129-132 | 199 done out of 200 shows as 100 |
| Calendar.MonthLength | src/app/components/Header.tsx:46-48 | a month has 28 to 31 days, and 29 exactly in February of a leap year |
| Calendar.Weekday | src/app/dashboard/ui/Sidebar.tsx:27 | `getDay()` is in 0..6 |
| Calendar.DaysBeforeYearClosed | src/app/dashboard/ui/Heatmap.tsx:16-20 | counting year lengths by the leap rule gives 365 days a year plus one for each fourth year, less centuries, plus fourth centuries |
| Calendar.Next | src/app/dashboard/ui/Heatmap.tsx:18 | the next day is a valid day whose day number is one more |
| Calendar.Prev | src/app/page.tsx:36 | the previous day is a valid day whose day number is one less |
| Calendar.Walk | src/app/dashboard/ui/Heatmap.tsx:16-20 | `setDate(getDate() + k)` reaches the valid day k day numbers away |
| Calendar.AddDays | src/app/dashboard/ui/Heatmap.tsx:16-20 | `addDays(d, k)` is the valid day whose day number is k more than d's |
| Calendar.AddDaysIsWalk | src/app/dashboard/ui/Heatmap.tsx:16-20 | adding k days is stepping k single days forwards (or backwards) |
| Calendar.AddDaysCompose | src/app/page.tsx:41-45 | `addDays(addDays(d, a), b) == addDays(d, a + b)` and `addDays(d, 0) == d` |
| Calendar.WeekdayAddDays | src/app/dashboard/ui/Heatmap.tsx:9-11 | moving k days moves the weekday k places, modulo 7 |
| Calendar.DayNumberOrder | src/app/dashboard/ui/Heatmap.tsx:37 | comparing two days' times is comparing (year, month, day) in order; equal times are the same day |
| Calendar.DayNumberInjective | src/app/dashboard/ui/Heatmap.tsx:37 | two valid days at the same day number are the same day |
| Calendar.DaysSinceMonday | src/app/dashboard/ui/Heatmap.tsx:9-10 | `(getDay() + 6) % 7` lies in 0..6 and is 0 exactly on a Monday |
| Calendar.StartOfWeekMonday | src/app/dashboard/ui/Heatmap.tsx:7-14 | `startOfWeekMonday(x)` is a Monday on or before x and fewer than 7 days before it |
| Calendar.StartOfWeekMondayUnique | src/app/page.tsx:32-39 | it is the only Monday in the seven days ending at x |
| Calendar.EpochWeekday | src/app/dashboard/ui/Sidebar.tsx:27 | 1970-01-01 is a Thursday |
| Calendar.NewYear2024Weekday | src/app/dashboard/ui/Sidebar.tsx:27 | 2024-01-01 is a Monday |
| Calendar.NewYearDayNumber | src/app/dashboard/ui/Heatmap.tsx:16-20 | the first of January of every year sits at the closed-form day count |
| Clock.JsRem | src/app/dashboard/ui/Pomodoro.tsx:75 | JavaScript's `a % b` is smaller than b in magnitude and has the sign of a |
| Clock.JsRemAgrees | src/app/dashboard/ui/Pomodoro.tsx:40 | for non-negative operands it is Dafny's remainder, and it is 0 exactly when b divides a |
| Clock.FormatRoundTrip | src/app/dashboard/ui/Pomodoro.tsx:71-79 | for s >= 0, `format(s)` is `MM:SS` with two seconds digits below 60, and 60 * MM + SS == s |
| Clock.FormatWidth | src/app/dashboard/ui/Timer.tsx:34-42 | the display is exactly five characters exactly when s < 6000 |
| DateText.IsoDate | src/app/page.tsx:10-12 | `isoDate(d)` is ten characters |
| DateText.WideIsoDate | src/app/dashboard/page.tsx:12-14 | outside four-digit years the slice is also ten characters: the sign and the first digits of a six-digit year |
| DateText.IsoDateIsSlice | src/app/dashboard/page.tsx:12-14 | the full-date is the first ten characters of `toISOString()` in every year |
| DateText.IsoDateShape | src/app/page.tsx:47-49 | in four-digit years `fmt(d)` is `YYYY-MM-DD`, with the year, month and day as fixed-width fields |
| DateText.IsoDateFieldValues | src/app/components/DailyTasks.tsx:88 | the three fields of a day's full-date read back as its year, month and day |
| DateText.ParseIso | src/app/dashboard/ui/Heatmap.tsx:30-31 | `new Date(text)` of a date-only text, when it is a valid date, is a valid day in a four-digit year |
| DateText.ParseIsoOfIsoDate | src/app/dashboard/ui/Heatmap.tsx:30-31 | parsing a day's full-date gives back the day |
| DateText.IsoDateOfParseIso | src/app/dashboard/ui/Heatmap.tsx:30-31 | a text that parses is the full-date of the day it names |
| DateText.IsoDateInjective | src/app/dashboard/page.tsx:30 | different days have different full-dates, so they are different map keys |
| DateText.Variants | src/app/components/DailyTasks.tsx:9-14 | `isoToKeyVariants(iso)` has two entries and the first is `iso` itself |
| DateText.UnpaddedKeyOfIsoDate | src/app/components/DailyTasks.tsx:88-89 | the unpadded variant of a day's full-date is the header's `dateKey` of that day |
| DateText.VariantsCoincide | src/app/components/DailyTasks.tsx:9-14 | the two variants are the same text exactly when the year has at least four digits (year ≥ 1000) and the month and the day both have two |
| DateText.FixedDigitsOrder | src/app/dashboard/ui/Heatmap.tsx:30-31 | fixed-width digit fields sort as their numbers do |
| DateText.IsoDateOrder | src/app/dashboard/ui/Heatmap.tsx:30-31 | sorting full-dates as strings is sorting the days chronologically (section 5.1 of RFC 3339) |
| DateText.EarlierTextFirst | src/app/dashboard/ui/Heatmap.tsx:30-31 | of two different days, the earlier one's full-date sorts strictly first |
| HeatColor.MaxWithFloor | src/app/dashboard/ui/Heatmap.tsx:46 | `Math.max(1, ...values)` is at least 1, at least every value, and is 1 or one of the values |
| HeatColor.Values | src/app/dashboard/ui/Heatmap.tsx:46 | `Object.values(data)` lists the value of each key, in key order |
| HeatColor.Bucket | src/app/dashboard/ui/Heatmap.tsx:47-56 | the colour step `round(4v / max)` lies in 0..4; 0 gives 0 and the maximum gives 4 |
| HeatColor.BucketMonotone | src/app/dashboard/ui/Heatmap.tsx:47-56 | a larger value never gets a lighter step |
| HeatColor.BucketThresholds | src/app/dashboard/ui/Heatmap.tsx:48 | the step is 0 exactly below an eighth of the maximum, and 4 exactly from seven eighths up |
| HeatColor.LegendBuckets | src/app/dashboard/ui/Heatmap.tsx:79-81 | legend cell i, `color(max * i / 4)`, is step i |
| HeatColor.CellColor | src/app/dashboard/ui/Heatmap.tsx:64-69 | a missing or zero cell is step 0, and a cell holding the maximum is step 4 |
| HeatColor.ValueWithinMax | src/app/dashboard/ui/Heatmap.tsx:64 | `data[d] ?? 0` never exceeds `maxVal` |
| HabitStore.Loaded | src/app/components/DailyTasks.tsx:20-28 | a missing or unreadable storage entry loads as the empty store, and a readable one as itself |
| HabitStore.CompletedCount | src/app/components/Header.tsx:129 | the number of completed records is at most the list length |
| HabitStore.CompletedCountAll | src/app/components/Header.tsx:129 | it equals the length exactly when every record is done, and 0 exactly when none is |
| HabitStore.ListPercent | src/app/components/DailyTasks.tsx:75-77 | a list's percent lies in 0..100, and an empty list is 0 |
| HabitStore.CompletionForKey | src/app/components/DailyTasks.tsx:74-78 | an absent key is 0; a fully done list is 100; a list with nothing done is 0; always within 0..100 |
| HabitStore.LookupReadsToggleKey | src/app/components/DailyTasks.tsx:30-34 | the list a day shows is the list under the key `toggle` rewrites; with neither spelling present it is empty |
| HabitStore.ToggleKey | src/app/components/DailyTasks.tsx:67-68 | `toggle` writes under one of the day's two spellings |
| HabitStore.FlipById | src/app/components/DailyTasks.tsx:69 | the records with the id have `completed` flipped; ids, titles, order and the other records stay |
| HabitStore.FlipByIdTwice | src/app/components/DailyTasks.tsx:69 | flipping twice restores the list |
| HabitStore.ToggleStore | src/app/components/DailyTasks.tsx:66-71 | the toggled key holds the flipped list, its key set grows by at most that key, and every other key keeps its list |
| HabitStore.ToggleTwice | src/app/components/DailyTasks.tsx:66-71 | toggling twice restores the store of a day that has an entry under either spelling |
| HabitStore.ToggleAbsentDay | src/app/components/DailyTasks.tsx:68-69 | a day with no entry gets an empty list under the unpadded key |
| HabitStore.ToggleShowsFlipped | src/app/components/DailyTasks.tsx:66-71 | after a toggle, the day shows its previous list with that id flipped |
| HabitStore.SeedStore | src/app/components/DailyTasks.tsx:57-59 | the seed appends exactly the default task under the padded key and keeps every other key |
| HabitStore.SeedOnce | src/app/components/DailyTasks.tsx:46-64 | a seed that fires leaves the day showing exactly "Today's Task", and its guard then blocks a second seed |
| MonthGrid.DaysInMonth | src/app/components/Header.tsx:46-48 | `daysInMonth` is the Gregorian month length: 28..31, 31 in the seven long months, 29 only in February of a leap year |
| MonthGrid.LeadingBlanks | src/app/components/Header.tsx:58-59 | the blank count lies in 0..6 and is 0 exactly when the 1st is a Monday |
| MonthGrid.DayList | src/app/components/Header.tsx:61 | the day list has n entries and entry i is i + 1 |
| MonthGrid.DayListContents | src/app/components/Header.tsx:61 | the day list is strictly increasing and holds exactly the days 1..n |
| MonthGrid.GridColumnIsWeekday | src/app/components/Header.tsx:58-61 | after the blanks, day d sits in the column of its weekday, Monday first |
| MonthGrid.MockCompletion | src/app/components/Header.tsx:51-54 | the fallback percent is in {0, 25, 60, 100}, with exactly the table's days at 100, day 11 at 25 and day 21 at 60 |
| Header.PrevMonthOf | src/app/components/Header.tsx:105-107 | the month before stays in 0..11 and is one month earlier (January goes to December of the year before) |
| Header.NextMonthOf | src/app/components/Header.tsx:111-113 | the month after stays in 0..11 and is one month later (December goes to January of the year after) |
| Header.NavigationInverse | src/app/components/Header.tsx:105-113 | next after prev, and prev after next, give back the same month |
| Header.NextMonthFollows | src/app/components/Header.tsx:111-113 | the month after starts the day after this month's last day |
| Header.DayPercent | src/app/components/Header.tsx:124-131 | before mount 0; a day with records under `dateKey` shows their rounded completion; a day without shows the fallback table |
| Header.CellMeaning | src/app/components/Header.tsx:132-134 | a cell is complete exactly at 100, today exactly on today's date, and selected only in today's month |
| Header.CompleteMeansAllDone | src/app/components/Header.tsx:127-132 | a day with records is complete when all are done; with fewer than 200 records, only then |
| Header.HeaderCalendar.constructor | src/app/components/Header.tsx:14-22 | the first render is closed, not mounted, shows today's month, has nothing selected and has an empty store |
| Header.HeaderCalendar.Mount | src/app/components/Header.tsx:25-34 | the mount effect marks the header mounted and loads the store; nothing else changes |
| Header.HeaderCalendar.ToggleOpen | src/app/components/Header.tsx:88 | the date button flips `open` and nothing else |
| Header.HeaderCalendar.Dismiss | src/app/components/Header.tsx:63-79 | an outside click or Escape closes the pop-up and nothing else |
| Header.HeaderCalendar.ShowPrevMonth | src/app/components/Header.tsx:105-107 | the view moves to the month before; nothing else changes |
| Header.HeaderCalendar.ShowNextMonth | src/app/components/Header.tsx:111-113 | the view moves to the month after; nothing else changes |
| Header.HeaderCalendar.SelectDay | src/app/components/Header.tsx:140-145 | a click on day d selects it, closes the pop-up and returns that day's full-date; a cell is then selected exactly when it is day d in today's month |
| Header.DayPercentByVariants | src/app/components/Header.tsx:125-126 | read through both spellings of the key: in 0..100, and 0 before mount |
| Header.SeededDayMissedAsWritten | src/app/components/Header.tsx:125-126 | the day 2024-03-05 was seeded with its one task not done, so the task list shows it at 0%, yet the header shows 100 |
| Header.ByVariantsShowsTaskList | src/app/components/Header.tsx:125-126 | read through both spellings, the header shows the completion of the list the task list shows for that day |
| Sidebar.Cells | src/app/dashboard/ui/Sidebar.tsx:79-82 | one cell per day of today's month, cell i for day i + 1 |
| Sidebar.Blanks | src/app/dashboard/ui/Sidebar.tsx:27-28 | the sidebar's blank count lies in 0..6 |
| Sidebar.CellsMarkToday | src/app/dashboard/ui/Sidebar.tsx:79-82 | exactly today's cell is marked today, it sits in today's weekday column, and a cell is complete exactly when its table percent is 100 |
| DailyTasks.RecentShadeMonotone | src/app/components/DailyTasks.tsx:138 | a higher percent never gets a lighter cell; empty exactly at 0, full exactly at 100, the two darker classes exactly from 50 |
| DailyTasks.TaskList.constructor | src/app/components/DailyTasks.tsx:16-18 | the first render has an empty store and an empty list |
| DailyTasks.TaskList.Load | src/app/components/DailyTasks.tsx:20-28 | the load effect sets the store to the saved store, or to the empty store |
| DailyTasks.TaskList.ShowList | src/app/components/DailyTasks.tsx:30-34 | the list effect shows the day's list, padded key first |
| DailyTasks.TaskList.Persist | src/app/components/DailyTasks.tsx:36-43 | when the write succeeds, both storage and state hold `next`; when it throws, neither changes |
| DailyTasks.TaskList.SeedToday | src/app/components/DailyTasks.tsx:46-64 | only on today's date with an empty list, and when the write succeeds, the store becomes the seeded store; otherwise nothing changes |
| DailyTasks.TaskList.Toggle | src/app/components/DailyTasks.tsx:66-71 | the store becomes the toggled store and is saved (unchanged if the write fails) |
| DailyTasks.TaskList.Mount | src/app/components/DailyTasks.tsx:20-64 | the effects run in order on the loaded store: no saved day is lost, the viewed day's saved records stay, today's list is shown non-empty |
| DailyTasks.TaskList.MountAsWritten | src/app/components/DailyTasks.tsx:20-64 | the class's own load, persist and list operations, with the seed reading the first render's empty store, end in exactly the state `FirstMountAsWritten` gives |
| DailyTasks.TaskList.View | src/app/page.tsx:81-90 | a date picked in the header becomes the list's `dateIso`; the store, the storage entry and the shown list are kept |
| DailyTasks.TaskList.ChangeDate | src/app/components/DailyTasks.tsx:30-64 | after a new `dateIso`, the list and seed effects run again on the store already held: the store is seeded exactly when the new date is today with an empty list and the write succeeds, otherwise kept; that day's list is shown, and coming back to today's empty list shows a non-empty list |
| DailyTasks.TaskList.LastNDates | src/app/components/DailyTasks.tsx:81-93 | `lastNDates(n)` is the n-day strip ending at the viewed date |
| DailyTasks.RecentDays | src/app/components/DailyTasks.tsx:84-91 | the loop builds exactly the n-day strip ending at `base` |
| DailyTasks.RecentRange | src/app/components/DailyTasks.tsx:81-93 | the strip has n entries |
| DailyTasks.RecentRangeAt | src/app/components/DailyTasks.tsx:84-86 | entry i is the day i - (n - 1) days from `base` |
| DailyTasks.RecentAtFacts | src/app/components/DailyTasks.tsx:85-89 | an entry's full-date parses back to its day |
| DailyTasks.EntryParses | src/app/components/DailyTasks.tsx:87-89 | an entry names the day k days away, its key is that day's `dateKey`, and entry 0 is the viewed date |
| DailyTasks.RecentDaysAreConsecutive | src/app/components/DailyTasks.tsx:81-93 | the entries are consecutive days in ascending order, each keyed by its unpadded date, the last being the viewed date |
| DailyTasks.RecentPercent | src/app/components/DailyTasks.tsx:137 | a recent cell is 0..100, and 0 when its unpadded key is absent |
| DailyTasks.RecentPercentByVariants | src/app/components/DailyTasks.tsx:137 | read through both spellings, a recent cell is 0..100 |
| DailyTasks.RecentCellMissesPaddedKey | src/app/components/DailyTasks.tsx:137 | a day whose only task, stored under the padded key, is done shows 0 in its recent cell as written, and 100 when read by both spellings |
| DailyTasks.ViewedDayCellShowsList | src/app/components/DailyTasks.tsx:137 | read by both spellings, the viewed day's cell shows the completion of the list shown above it |
| DailyTasks.FirstMountAsWritten | src/app/components/DailyTasks.tsx:20-64 | as written, opening today's list seeds the first render's empty store, so state and storage end up holding only today's seeded task |
| DailyTasks.MountDropsSavedDays | src/app/components/DailyTasks.tsx:20-64 | a saved task on 2024-03-04 is gone from state and storage after opening 2024-03-05 |
| NewTask.Without | src/app/components/NewTask.tsx:52 | the filter drops exactly x, and keeps a distinct ascending selection distinct and ascending |
| NewTask.InsertSorted | src/app/components/NewTask.tsx:53 | insertion gives one more element, with the smaller of x and the old head first |
| NewTask.InsertAddsElement | src/app/components/NewTask.tsx:53 | insertion adds exactly x to the multiset of numbers |
| NewTask.InsertKeepsSorted | src/app/components/NewTask.tsx:53 | inserting into an ascending sequence keeps it ascending |
| NewTask.InsertKeepsStrict | src/app/components/NewTask.tsx:53 | inserting a new day keeps a selection distinct and ascending |
| NewTask.SortAscending | src/app/components/NewTask.tsx:53 | `sort((a, b) => a - b)` is an ascending permutation |
| NewTask.SortSortedIsIdentity | src/app/components/NewTask.tsx:53 | sorting an ascending sequence changes nothing |
| NewTask.InsertLast | src/app/components/NewTask.tsx:53 | a day not less than every selected day is appended |
| NewTask.Toggled | src/app/components/NewTask.tsx:50-55 | `toggleDay(idx)` flips whether idx is selected and keeps every other day; after adding, the selection is ascending |
| NewTask.ToggleAddsInPlace | src/app/components/NewTask.tsx:50-55 | on an ascending selection, adding a day inserts it in place |
| NewTask.ToggleKeepsSelection | src/app/components/NewTask.tsx:50-55 | a distinct ascending selection of weekdays stays one |
| NewTask.ToggleTwice | src/app/components/NewTask.tsx:50-55 | toggling the same day twice restores the selection exactly |
| NewTask.InsertRemoved | src/app/components/NewTask.tsx:52-53 | putting a removed day back restores the selection |
| NewTask.RemoveInserted | src/app/components/NewTask.tsx:52-53 | removing a just-added day restores the selection |
| NewTask.WithoutAbsent | src/app/components/NewTask.tsx:52 | filtering out an absent day changes nothing |
| NewTask.SelectionBounds | src/app/components/NewTask.tsx:79 | entry i of a selection is at least i and leaves room for the entries after it |
| NewTask.EveryDay | src/app/components/NewTask.tsx:79 | the full week is a valid selection of seven days |
| NewTask.AllSelectedIsEveryDay | src/app/components/NewTask.tsx:79 | at most seven days are selected, and seven exactly when every weekday is |
| NewTask.SkipSpaces | src/app/components/NewTask.tsx:58 | the first non-space index at or after i, with only white space skipped |
| NewTask.DropSpaces | src/app/components/NewTask.tsx:58 | the end of a slice once its trailing white space is dropped |
| NewTask.Trim | src/app/components/NewTask.tsx:58 | `trim()` is no longer than the title, and neither begins nor ends with white space |
| NewTask.TrimShape | src/app/components/NewTask.tsx:58 | the trimmed title is a slice of the title with only white space before and after it |
| NewTask.TrimIdempotent | src/app/components/NewTask.tsx:58 | trimming twice is trimming once |
| NewTask.TrimEmpty | src/app/components/NewTask.tsx:58-59 | a title trims to "" exactly when it is all white space |
| NewTask.DayName | src/app/components/NewTask.tsx:16 | a weekday's name is three letters starting with a capital; another index gives "" |
| NewTask.DayNameInjective | src/app/components/NewTask.tsx:16 | distinct weekdays have distinct names |
| NewTask.JoinShape | src/app/components/NewTask.tsx:122 | three-letter names join by ", " into 5n - 2 characters, with name i at 5i |
| NewTask.DayNames | src/app/components/NewTask.tsx:122 | the names of a selection, one per day, in order |
| NewTask.LabelDeterminesDays | src/app/components/NewTask.tsx:122 | two selections with the same repeat label are the same selection |
| NewTask.LoadHabits | src/app/components/NewTask.tsx:18-28 | a missing or unreadable entry loads as no templates, and a saved one as itself |
| NewTask.Form.constructor | src/app/components/NewTask.tsx:42-48 | an empty title and selection, the loaded templates, and the save effect's write |
| NewTask.Form.SetTitle | src/app/components/NewTask.tsx:87 | the input sets the title and nothing else |
| NewTask.Form.ToggleDay | src/app/components/NewTask.tsx:50-55 | the selection becomes the toggled selection and stays valid; nothing else changes |
| NewTask.Form.AllSelected | src/app/components/NewTask.tsx:79 | `allSelected` holds exactly when every weekday is selected |
| NewTask.Form.HandleAdd | src/app/components/NewTask.tsx:57-77 | a blank title changes nothing; otherwise exactly one template (trimmed title, selected days) is appended, returned to `onAdd`, saved when the write succeeds, and the title and selection are cleared |
| WeekHeatmap.DayOf | src/app/dashboard/ui/Heatmap.tsx:30-31 | `new Date(key)` is a valid day whose full-date is the key |
| WeekHeatmap.SpanOf | src/app/dashboard/ui/Heatmap.tsx:30-31 | min and max are valid days in four-digit years |
| WeekHeatmap.SpanBounds | src/app/dashboard/ui/Heatmap.tsx:30-31 | every key's day lies between min and max |
| WeekHeatmap.Week | src/app/dashboard/ui/Heatmap.tsx:38-41 | a week has seven entries |
| WeekHeatmap.Weeks | src/app/dashboard/ui/Heatmap.tsx:35-44 | the first n weeks of the grid, week w at position w |
| WeekHeatmap.BuildWeeks | src/app/dashboard/ui/Heatmap.tsx:27-44 | no grid exactly when the data has no keys; otherwise the weeks from the Monday of min while the cursor is not after max |
| WeekHeatmap.WeeksBetween | src/app/dashboard/ui/Heatmap.tsx:36-44 | the outer loop emits one week per cursor day up to max, week w being the grid's week w |
| WeekHeatmap.WeekFrom | src/app/dashboard/ui/Heatmap.tsx:38-41 | the inner loop gives the full-dates of the cursor and the six days after it |
| WeekHeatmap.WeeksStartOnMonday | src/app/dashboard/ui/Heatmap.tsx:43 | every week starts on a Monday, seven days after the one before |
| WeekHeatmap.EveryKeyIsDrawn | src/app/dashboard/ui/Heatmap.tsx:32-44 | the grid starts on or before min, its last Sunday is on or after max, and every key is drawn in some cell of some week |
| WeekHeatmap.CellColorMonotone | src/app/dashboard/ui/Heatmap.tsx:64-69 | among drawn cells, a larger count never gets a lighter colour |
| RowHeatmap.Chunks | components/Heatmap.tsx:12-20 | there are ceil(n / 7) rows |
| RowHeatmap.ToWeekArray | components/Heatmap.tsx:7-21 | `toWeekArray` is the rows of seven of the sorted copy |
| RowHeatmap.ChunkRows | components/Heatmap.tsx:12-19 | the loop with its row reset and its final push gives exactly those rows |
| RowHeatmap.RowsReadInOrder | components/Heatmap.tsx:7-21 | read one after another, the rows are the dates in sorted order, a permutation of the input |
| RowHeatmap.FlattenChunks | components/Heatmap.tsx:12-19 | the first k rows hold the first 7k dates |
| RowHeatmap.RowLengths | components/Heatmap.tsx:13-19 | no rows exactly for no dates; every row but the last has seven dates, and the last one to seven |
| RowHeatmap.IntensityThresholds | components/Heatmap.tsx:33-35 | intensity is 0 exactly below an eighth of `max` and 4 exactly from seven eighths up, and a larger count never gets a lighter colour |
| Dashboard.RangeSpec | src/app/dashboard/page.tsx:16-24 | the range has `days` entries, and entry i is the full-date of the day i days before `end` |
| Dashboard.RangeDays | src/app/dashboard/page.tsx:16-24 | the loop builds exactly that range |
| Dashboard.RangeSpecGrows | src/app/page.tsx:14-22 | one more day appends the next day back |
| Dashboard.RangeDayParses | src/app/page.tsx:14-22 | entry i parses to the day i days before `end` |
| Dashboard.RangeEntryParses | src/app/page.tsx:17-19 | the day i days back reads back as `addDays(end, -i)` |
| Dashboard.RangeDescends | src/app/dashboard/page.tsx:16-24 | the range strictly descends: a later entry is an earlier day and sorts strictly before |
| Dashboard.MockHeatmap | src/app/dashboard/page.tsx:26-32 | the mock's keys are exactly the range's full-dates, each count in 0..3 |
| Dashboard.RandomCounts | src/app/page.tsx:28 | each given date gets a count in 0..3, and no other key exists |
| Dashboard.MockHasEveryDay | src/app/dashboard/page.tsx:26-32 | a mock of `days` days has exactly `days` keys |
| Dashboard.DistinctCount | src/app/dashboard/page.tsx:28-30 | a list of distinct dates has as many keys as entries |
| Dashboard.HeatmapLoader.constructor | src/app/dashboard/page.tsx:36 | no heatmap yet, the effect started |
| Dashboard.HeatmapLoader.Resolve | src/app/dashboard/page.tsx:48-51 | while mounted: non-empty data is shown as is, empty data is replaced by a 120-day mock; after unmount nothing changes |
| Dashboard.HeatmapLoader.Reject | src/app/dashboard/page.tsx:52-55 | while mounted a failed fetch shows a 120-day mock; after unmount nothing changes |
| Dashboard.HeatmapLoader.Unmount | src/app/dashboard/page.tsx:56-58 | the cleanup clears the flag and keeps the heatmap |
| Dashboard.MockNotEmpty | src/app/page.tsx:68 | a mock of at least one day is never empty, so the fallback always draws a grid |
| Pomodoro.AdvancePhase | src/app/dashboard/ui/Pomodoro.tsx:37-51 | after work, the cycle goes up by one and the phase is a break, long exactly when the long-break rule fires; after a break, work with the cycle kept |
| Pomodoro.LongBreakOncePerRound | src/app/dashboard/ui/Pomodoro.tsx:40 | with a positive count c, the long break falls exactly on multiples of c, so once in work phases 1..c; with c = 0 it never does |
| Pomodoro.RunAlternates | src/app/dashboard/ui/Pomodoro.tsx:34-53 | from reset, phase changes alternate work and breaks, the k-th break being long exactly when k is a multiple of the count |
| Pomodoro.Timer.constructor | src/app/dashboard/ui/Pomodoro.tsx:8-16 | stopped, 25 minutes of work, cycle 0, settings 25/5/15/4, setup closed |
| Pomodoro.Timer.Tick | src/app/dashboard/ui/Pomodoro.tsx:23 | a tick takes exactly one second off and changes nothing else |
| Pomodoro.Timer.Advance | src/app/dashboard/ui/Pomodoro.tsx:34-53 | nothing happens while time is left; at 0 or below, the phase and cycle advance and the time is the new phase's minutes times 60 |
| Pomodoro.Timer.Start | src/app/dashboard/ui/Pomodoro.tsx:55-58 | start runs, and refills a full work phase only when the time is used up |
| Pomodoro.Timer.Stop | src/app/dashboard/ui/Pomodoro.tsx:60-62 | stop stops and changes nothing else |
| Pomodoro.Timer.Reset | src/app/dashboard/ui/Pomodoro.tsx:64-69 | stopped, work, cycle 0, a full work phase; the settings stay |
| Pomodoro.Timer.ToggleSetup | src/app/dashboard/ui/Pomodoro.tsx:86 | the Setup button flips the panel and nothing else |
| Pomodoro.Timer.SetSettings | src/app/dashboard/ui/Pomodoro.tsx:99-111 | the inputs set the four settings and nothing else |
| Pomodoro.Timer.Display | src/app/dashboard/ui/Pomodoro.tsx:117 | the display of a non-negative time is at least five characters |
| Stopwatch.Stopwatch.constructor | src/app/dashboard/ui/Timer.tsx:7-8 | stopped at 0, the stopwatch shown, no Pomodoro card mounted |
| Stopwatch.Stopwatch.Tick | src/app/dashboard/ui/Timer.tsx:14 | a tick adds exactly one second |
| Stopwatch.Stopwatch.Toggle | src/app/dashboard/ui/Timer.tsx:25-27 | Start/Stop flips running and keeps the count |
| Stopwatch.Stopwatch.Reset | src/app/dashboard/ui/Timer.tsx:29-32 | stopped at 0 |
| Stopwatch.Stopwatch.SetMode | src/app/dashboard/ui/Timer.tsx:52-89 | the mode buttons set the mode and keep the stopwatch's count and running flag; the Pomodoro card exists only in pomodoro mode: leaving the mode drops it, entering it mounts a new card in its initial state (25:00, work, cycle 0, 25/5/15/4), pressing it again keeps the card |
| Stopwatch.Stopwatch.Display | src/app/dashboard/ui/Timer.tsx:34-42 | the display of a non-negative count is `MM:SS`-shaped, and exactly five characters below 6000 seconds |

## Left out

- Browser storage and JSON are not modelled as I/O. A saved entry is a parameter (`Option<Store>`, `NewTask.Stored`), "missing or unreadable" is one case that loads as empty, and a write that throws is a `writeOk` flag.
- `Header.tsx` `refreshFromStorage` (lines 36-44) is defined but never called, so it is not modelled.
- MonthGrid.DaysInMonth: does not model that JavaScript's `new Date(y, m, d)` reads a year from 0 to 99 as 1900 + y (`Header.tsx:47`, `Sidebar.tsx:6`). For those years the model gives the month length of year y itself (29 days for February of year 0, where the source gives 28). The header reaches such years only after about 23,000 clicks on ‹.
- MonthGrid.LeadingBlanks: the same two-digit-year mapping of `new Date(y, m0, 1)` (`Header.tsx:58`, `Sidebar.tsx:27`) is not modelled, so the blank count for years 0 to 99 is that of year y, not of year 1900 + y.
- Header.HeaderCalendar.SelectDay: the same mapping at `Header.tsx:142` is not modelled. For a viewed year from 0 to 99 the source hands on the full-date of year 1900 + y ("1999-03-05" for year 99), and the model hands on year y ("0099-03-05").
- Time zones are not modelled. The source mixes local `getDay`/`setDate`/`new Date(y, m, d)` with UTC `toISOString` and `new Date("YYYY-MM-DD")`; all are one abstract Gregorian calendar here (apart from the two-digit years above), so a day never shifts across midnight.
- `new Date()` and `Date.now()` are parameters (`today`, `now`, `todayIso`, `createdAt`), and `setInterval` and React effect scheduling are explicit method calls. Between the calls, React's batching and re-rendering are not modelled. `DailyTasks.TaskList.MountAsWritten` takes the order of the first render's state updates as given: the seed effect's `setByDate` lands after the load effect's.
- `Math.random()` in `mockHeatmap` is a nondeterministic choice of a count in 0..3.
- Floating point is not modelled. `Math.round` of a ratio is exact integer round-half-up, and the `conic-gradient` percent strings are dropped.
- Dates outside the JavaScript `Date` range (about ±275760 years) are not rejected, and `Invalid Date` arithmetic is not modelled. Keys built from years outside 0..9999 are only used through `DateText.WideIsoDate` and the four-digit-year lemmas.
- `toLocaleDateString` (month label, date button, template date) is locale formatting and is not modelled.
- The requested fetch range (three months back from today) is passed only to the network call, so it is not modelled. The fetch wrappers, URL building and HTTP error mapping in `src/lib/api.ts`, `lib/api.ts` and `pages/index.tsx` are network I/O.
- `CalendarPopup.tsx`, `HomeCard.tsx`, `AnalyticsCard.tsx`, `IntegrationsCard.tsx`, `StatCard.tsx` and `TodoCard.tsx` are presentation only. The Sidebar component imported by `src/app/page.tsx:5`, which holds the add/edit/delete operations, is not part of this model.
- The `onDateSelect` and `onAdd` callbacks are not calls: the value each would receive is the method's result.
- Pomodoro.Timer.SetSettings: `Number(e.target.value)` can be `NaN`, fractional or negative. The model takes integers, and a count of 0 is modelled as JavaScript's `% 0`, which is never 0, so every work phase then ends in a short break.
- Pomodoro.Timer.Display: states only the width. The reading back of the display is `Clock.FormatRoundTrip`, about the shared `Format`.
- DailyTasks.RecentPercentByVariants: states only the range 0..100. What it shows is pinned down by `DailyTasks.ViewedDayCellShowsList` for the viewed day.
- Header.DayPercentByVariants: states only the range and the pre-mount 0. Its meaning is `Header.ByVariantsShowsTaskList`.
- Console logging in `NewTask.tsx` is not modelled.

## Findings

| source | as written | input that shows it | evidently intended | confidence | as-written member | corrected member |
|---|---|---|---|---|---|---|
| src/app/components/Header.tsx:125-126 | The header reads a day's list only under the unpadded `dateKey` (`2024-3-5`). The task list seeds and toggles under the padded full-date (`2024-03-05`). | An empty store seeded on 2024-03-05, with the task not done. The task list shows 0%, but the header finds no list and shows the fallback table's 100 for day 5. | Read both spellings, as the task list does, so that the header shows the same list | not executed | Header.SeededDayMissedAsWritten | Header.ByVariantsShowsTaskList |
| src/app/components/DailyTasks.tsx:137 | The recent strip reads `completionForKey(r.key)`, with the unpadded key only. | `{"2024-03-05": [done task]}`. The list above shows 100%, but the cell for 2024-03-05 shows 0. | Read the day's list through both spellings | not executed | DailyTasks.RecentCellMissesPaddedKey | DailyTasks.ViewedDayCellShowsList |
| src/app/components/DailyTasks.tsx:20-64 | The load, list and seed effects of the first render all see the initial empty `byDate`. On today's date the seed persists `{[today]: [Today's Task]}` over the whole stored entry. | A saved `{"2024-03-04": [Read]}`, opened on 2024-03-05. After the first render 2024-03-04 is gone from both state and storage. | Seed after the saved store is loaded, so no saved day is lost | not executed | DailyTasks.MountDropsSavedDays | DailyTasks.TaskList.Mount |
