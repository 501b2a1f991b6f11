# Gratitude Garden screens, modelled in Dafny

Gratitude Garden is an Android journal app. Each journal entry
(`GratitudeEntry`) has an id, a text, a mood name and a timestamp in epoch
milliseconds. This project models the logic of the app's four main screens:

- **Settings** computes four statistics over all entries: the total, the
  entries dated today minus six days or later (future dates included), the
  current streak of consecutive entry dates ending at the latest one, and the
  most common mood.
- **History** shows:
  - a Monday-first month grid with one cell per day;
  - the entry behind each day cell;
  - a month selector with chevrons and a drop-down of the months of 2025
    and 2026;
  - the entries grouped by local date, newest first.
- **Garden** shows:
  - a caption with the entry count;
  - a plant whose growth stage depends on that count;
  - a day selector with chevrons and a date picker;
  - a ring with one dot per day of the selected month, where today's dot is
    ringed.
- **Detail Entry** shows:
  - one entry, with chevrons to the next older and next newer entry;
  - an edit mode for text, mood and date, whose save writes back a copy of
    the entry;
  - a delete action that asks for confirmation first.

How the model is built:

- **Dates** are epoch days (`int`). The model has:
  - the proleptic Gregorian calendar in closed form, with a verified inverse
    (`Calendar.FromEpochDay`);
  - the time zone as a fixed UTC offset (`Calendar.Zone`).
  - the date picker as a UTC calendar: it shows the UTC date of the
    instant it opens on and returns the UTC midnight of the picked day
    (`DatePicker`).
- **Modules and files**:

  | module | file | what it models |
  |---|---|---|
  | `Calendar` | `calendar.dfy` | the `java.time` arithmetic the screens use |
  | `Lists` | `lists.dfy` | Kotlin's stable `sortedByDescending` and `distinct` |
  | `Text` | `text.dfy` | `lowercase`, `replaceFirstChar { it.uppercase() }` and `Int.toString()` |
  | `Entries` | `entries.dfy` | the record and the views of it that several screens share |
  | `DatePicker` | `date_picker.dfy` | the Material 3 date picker's UTC conversions, and how the Garden and Detail Entry screens convert into and out of it |
  | `Wrappers` | `wrappers.dfy` | an `Option` type |

  Each screen has its own module. Pure computations are functions. The
  per-screen Compose state (`remember { mutableStateOf(...) }`) is a class
  whose methods are the click handlers. The two loops of the History grid
  and menu, and the dot loop of the Garden, are methods with loop
  invariants.
- **Inputs from outside** are parameters:
  - the current date (`today`, `now`);
  - the system time zone;
  - the entry list, which comes from the database.

## Model

| member | source | states |
|---|---|---|
| Entries.MoodValueOf | code/app/src/main/java/com/example/gratitudegarden/screen/DetailEntryScreen.kt:40 | `Mood.valueOf` succeeds only on a mood's own name and returns that mood |
| Entries.MoodNameRoundTrip | code/app/src/main/java/com/example/gratitudegarden/screen/DetailEntryScreen.kt:244 | storing `selectedMood.name` and parsing it back with `Mood.valueOf` gives the same mood |
| Entries.SortedByTimestampDesc | code/app/src/main/java/com/example/gratitudegarden/screen/DetailEntryScreen.kt:54-56 | the result is a permutation of the entries and is ordered by timestamp, newest first |
| Entries.EntryDays | code/app/src/main/java/com/example/gratitudegarden/screen/SettingsScreen.kt:50-55 | one local date per entry, in list order |
| Entries.DistinctDaysDesc | code/app/src/main/java/com/example/gratitudegarden/screen/SettingsScreen.kt:50-57 | `map { date }.distinct().sortedDescending()` is strictly descending, so no date appears twice |
| Entries.DistinctDaysMembers | code/app/src/main/java/com/example/gratitudegarden/screen/SettingsScreen.kt:50-57 | a date is in the distinct date list if and only if some entry falls on it |
| Entries.DistinctDaysCount | code/app/src/main/java/com/example/gratitudegarden/screen/SettingsScreen.kt:50-57 | there are no more distinct dates than entries, and none exactly when there are no entries |
| Lists.InsertByKeyDesc | code/app/src/main/java/com/example/gratitudegarden/screen/HistoryScreen.kt:362 | inserting one element adds exactly that element to the multiset |
| Lists.InsertKeepsSorted | code/app/src/main/java/com/example/gratitudegarden/screen/HistoryScreen.kt:362 | inserting into a key-descending list keeps it key-descending |
| Lists.SortByKeyDesc | code/app/src/main/java/com/example/gratitudegarden/screen/HistoryScreen.kt:362 | `sortedByDescending` returns a permutation of its input, sorted by descending key |
| Lists.InsertKeepsKeyOrder | code/app/src/main/java/com/example/gratitudegarden/screen/HistoryScreen.kt:362 | an insertion appends the element to the elements with its key and leaves other keys' sequences alone |
| Lists.SortIsStable | code/app/src/main/java/com/example/gratitudegarden/screen/HistoryScreen.kt:362 | the sort is stable: for each key, the elements with that key keep their input order |
| Lists.Distinct | code/app/src/main/java/com/example/gratitudegarden/screen/SettingsScreen.kt:56 | `distinct()` has no duplicates and is no longer than its input |
| Lists.NoDuplicatesPermutation | code/app/src/main/java/com/example/gratitudegarden/screen/SettingsScreen.kt:56-57 | sorting a duplicate-free list keeps it duplicate-free |
| Lists.NoDuplicatesCount | code/app/src/main/java/com/example/gratitudegarden/screen/SettingsScreen.kt:56 | in a duplicate-free list each value occurs at most once |
| Lists.DistinctOfPrefix | code/app/src/main/java/com/example/gratitudegarden/screen/SettingsScreen.kt:67-68 | the distinct values of a prefix are a prefix of the distinct values, so first occurrences are in order |
| Lists.DistinctMember | code/app/src/main/java/com/example/gratitudegarden/screen/SettingsScreen.kt:56 | a value is in `distinct()` if and only if it is in the input |
| Lists.DistinctEarlierOccursEarlier | code/app/src/main/java/com/example/gratitudegarden/screen/SettingsScreen.kt:67-69 | a key earlier in the first-occurrence order first occurs earlier in the input |
| Calendar.LengthOfMonth | code/app/src/main/java/com/example/gratitudegarden/screen/HistoryScreen.kt:351 | `lengthOfMonth()` is 28 to 31 days, and 29 exactly for February of a leap year |
| Calendar.AtDay | code/app/src/main/java/com/example/gratitudegarden/screen/HistoryScreen.kt:352 | `atDay(k)` for a day k of the month is an epoch day inside that month's span |
| Calendar.NextMonth | code/app/src/main/java/com/example/gratitudegarden/screen/HistoryScreen.kt:214 | `plusMonths(1)` of a valid month is a valid month that starts right after this month's last day |
| Calendar.PreviousMonth | code/app/src/main/java/com/example/gratitudegarden/screen/HistoryScreen.kt:154 | `minusMonths(1)` of a valid month is a valid month that ends right before this month's first day |
| Calendar.LeapsStep | code/app/src/main/java/com/example/gratitudegarden/screen/GardenScreen.kt:188-190 | the leap-day count grows by one exactly at a leap year |
| Calendar.YearStartStep | code/app/src/main/java/com/example/gratitudegarden/screen/GardenScreen.kt:188-190 | consecutive years start one year length apart |
| Calendar.YearStartMonotone | code/app/src/main/java/com/example/gratitudegarden/screen/GardenScreen.kt:188-190 | each later year starts at least 365 days further on |
| Calendar.MonthsFillYear | code/app/src/main/java/com/example/gratitudegarden/screen/HistoryScreen.kt:346-352 | the twelve month lengths add up to the year length |
| Calendar.DaysBeforeMonthMonotone | code/app/src/main/java/com/example/gratitudegarden/screen/HistoryScreen.kt:346-352 | each later month starts at least 28 days further into the year |
| Calendar.YearUpFrom | code/app/src/main/java/com/example/gratitudegarden/screen/GardenScreen.kt:188-190 | the upward year search finds the year whose span holds the day |
| Calendar.YearDownFrom | code/app/src/main/java/com/example/gratitudegarden/screen/GardenScreen.kt:188-190 | the downward year search finds the year whose span holds the day |
| Calendar.YearOfEpochDay | code/app/src/main/java/com/example/gratitudegarden/screen/GardenScreen.kt:188-190 | an epoch day lies within its year's span |
| Calendar.MonthFrom | code/app/src/main/java/com/example/gratitudegarden/screen/GardenScreen.kt:188-190 | the month search finds the month whose span holds the day |
| Calendar.FromEpochDay | code/app/src/main/java/com/example/gratitudegarden/screen/GardenScreen.kt:188-190 | `toLocalDate()` on an epoch day gives a valid date that maps back to the same epoch day |
| Calendar.YearUnique | code/app/src/main/java/com/example/gratitudegarden/screen/GardenScreen.kt:188-190 | only one year's span holds a given day |
| Calendar.MonthUnique | code/app/src/main/java/com/example/gratitudegarden/screen/GardenScreen.kt:188-190 | only one month's span holds a given day of a year |
| Calendar.EpochDayWithin | code/app/src/main/java/com/example/gratitudegarden/screen/HistoryScreen.kt:352 | a valid date's epoch day lies within its year and its month |
| Calendar.DateRoundTrip | code/app/src/main/java/com/example/gratitudegarden/screen/DetailEntryScreen.kt:41-47 | converting a valid date to an epoch day and back gives the same date |
| Calendar.LengthOfMonthOf | code/app/src/main/java/com/example/gratitudegarden/screen/GardenScreen.kt:154 | `selectedDate.lengthOfMonth()` is 28 to 31 days |
| Calendar.DayOfMonth | code/app/src/main/java/com/example/gratitudegarden/screen/GardenScreen.kt:208 | `dayOfMonth` lies between 1 and the month's length |
| Calendar.DayOfWeek | code/app/src/main/java/com/example/gratitudegarden/screen/HistoryScreen.kt:347 | `dayOfWeek.value` is 1 (Monday) to 7 |
| Calendar.DayOf | code/app/src/main/java/com/example/gratitudegarden/screen/GardenScreen.kt:188-190 | `Instant.ofEpochMilli(t).atZone(zone).toLocalDate()` is the day whose span, shifted by the zone offset, holds t |
| Calendar.StartOfDay | code/app/src/main/java/com/example/gratitudegarden/screen/GardenScreen.kt:177-180 | `atStartOfDay(zone)` of a date is an instant whose local date is that date |
| Calendar.MonthSteppingInverse | code/app/src/main/java/com/example/gratitudegarden/screen/HistoryScreen.kt:154 | `plusMonths(1)` and `minusMonths(1)` undo each other |
| Calendar.MonthsTile | code/app/src/main/java/com/example/gratitudegarden/screen/HistoryScreen.kt:214 | the next month starts the day after this month's last day |
| Calendar.NextDayIsCalendarSuccessor | code/app/src/main/java/com/example/gratitudegarden/screen/GardenScreen.kt:139 | `plusDays(1)` is the next day of the month, or the 1st of the next month after a month's last day |
| Calendar.DayOfStartOfDay | code/app/src/main/java/com/example/gratitudegarden/screen/GardenScreen.kt:177-190 | `atStartOfDay` followed by `toLocalDate` gives back the date, and every instant lies within its own day |
| Calendar.DayOfMonotone | code/app/src/main/java/com/example/gratitudegarden/screen/SettingsScreen.kt:43-48 | a later instant never has an earlier local date (used to show that the week filter lets every later entry through) |
| DatePicker.ShownDate | code/app/src/main/java/com/example/gratitudegarden/screen/GardenScreen.kt:175-181 | the picker highlights the UTC date whose span holds the initial instant |
| DatePicker.SelectedMillis | code/app/src/main/java/com/example/gratitudegarden/screen/GardenScreen.kt:187 | the picker reports a picked day as that day's UTC midnight, which it shows as the same day |
| DatePicker.InitialMillisAsWritten | code/app/src/main/java/com/example/gratitudegarden/screen/GardenScreen.kt:176-181 | as written, the picker starts on an instant whose local date is the selected day, and shows that day, or the day before when the zone is east of UTC |
| DatePicker.ReadsPickedDateAsWritten | code/app/src/main/java/com/example/gratitudegarden/screen/GardenScreen.kt:186-190 | as written, OK yields the picked day, or the day before when the zone is west of UTC |
| DatePicker.UntouchedPickerShiftsDate | code/app/src/main/java/com/example/gratitudegarden/screen/GardenScreen.kt:176-190 | as written, opening the picker and pressing OK moves the date back one day unless the zone is UTC |
| DatePicker.CorrectedPickerKeepsDate | code/app/src/main/java/com/example/gratitudegarden/screen/GardenScreen.kt:176-190 | with UTC on both sides the picker opens on the selected day, OK yields the picked day, and an untouched OK keeps the date |
| Text.Lowercase | code/app/src/main/java/com/example/gratitudegarden/screen/SettingsScreen.kt:71 | `lowercase()` maps every character to lower case and keeps the length |
| Text.CapitalizeFirst | code/app/src/main/java/com/example/gratitudegarden/screen/SettingsScreen.kt:72 | `replaceFirstChar { it.uppercase() }` changes only the first character |
| Text.DisplayName | code/app/src/main/java/com/example/gratitudegarden/screen/SettingsScreen.kt:71-72 | the display form has the key's length, a capital first letter and lower case after that |
| Text.DisplayNameInjective | code/app/src/main/java/com/example/gratitudegarden/screen/HistoryScreen.kt:166-168 | different all-capital enum names have different display forms |
| Text.NatToString | code/app/src/main/java/com/example/gratitudegarden/screen/SettingsScreen.kt:102-104 | `toString()` of a count is decimal digits with no leading zero |
| Text.NatToStringRoundTrip | code/app/src/main/java/com/example/gratitudegarden/screen/SettingsScreen.kt:102-104 | reading the printed digits back gives the count |
| Text.NatToStringInjective | code/app/src/main/java/com/example/gratitudegarden/screen/GardenScreen.kt:90 | different counts print differently |
| Text.IntToString | code/app/src/main/java/com/example/gratitudegarden/screen/HistoryScreen.kt:169 | a year prints as an optional minus sign followed by digits, with no space |
| Text.IntToStringInjective | code/app/src/main/java/com/example/gratitudegarden/screen/HistoryScreen.kt:169 | different years print differently |
| Text.SplitAtFirstSpace | code/app/src/main/java/com/example/gratitudegarden/screen/HistoryScreen.kt:166-169 | "name year" texts with space-free names are equal only when both parts are equal |
| Text.Utf8Encode3 | code/app/src/main/java/com/example/gratitudegarden/screen/SettingsScreen.kt:73 | a character in U+0800..U+FFFF encodes to a three-byte UTF-8 sequence |
| Text.Cp1252Decode | code/app/src/main/java/com/example/gratitudegarden/screen/SettingsScreen.kt:73 | Windows-1252 decoding gives one character per byte |
| SettingsScreen.TotalEntries | code/app/src/main/java/com/example/gratitudegarden/screen/SettingsScreen.kt:39 | `entries.size` counts every entry once and is 0 only for an empty journal |
| SettingsScreen.EntriesThisWeek | code/app/src/main/java/com/example/gratitudegarden/screen/SettingsScreen.kt:40-48 | "This Week" is at most the total; it equals the total iff every entry is dated today-6 or later, and it is 0 iff none is |
| SettingsScreen.WeekCountAdd | code/app/src/main/java/com/example/gratitudegarden/screen/SettingsScreen.kt:41-48 | one more entry raises "This Week" by one iff its date is on or after today minus six days, and otherwise leaves it alone |
| SettingsScreen.InThisWeekUpwardClosed | code/app/src/main/java/com/example/gratitudegarden/screen/SettingsScreen.kt:43-48 | an entry no older than one counted in "This Week" is counted too |
| SettingsScreen.FutureEntryCountsThisWeek | code/app/src/main/java/com/example/gratitudegarden/screen/SettingsScreen.kt:43-48 | as written, an entry dated tomorrow raises "This Week" by one |
| SettingsScreen.EntriesInWindow | code/app/src/main/java/com/example/gratitudegarden/screen/SettingsScreen.kt:43-48 | the intended weekly count, of the entries dated today-6 to today: at most the number of entries, and 0 iff no entry is in the window |
| SettingsScreen.WindowCountsAll | code/app/src/main/java/com/example/gratitudegarden/screen/SettingsScreen.kt:43-48 | the intended count equals the number of entries iff every entry is dated today-6 to today |
| SettingsScreen.WindowVersusThisWeek | code/app/src/main/java/com/example/gratitudegarden/screen/SettingsScreen.kt:43-48 | the intended count never exceeds the as-written count, and equals it iff no entry is dated after today |
| SettingsScreen.WindowCountAdd | code/app/src/main/java/com/example/gratitudegarden/screen/SettingsScreen.kt:43-48 | one more entry raises the intended count by one iff its date is within today-6 to today, so past and future dates are not counted |
| SettingsScreen.LeadingConsecutivePairs | code/app/src/main/java/com/example/gratitudegarden/screen/SettingsScreen.kt:61-64 | `takeWhile` over `zipWithNext` counts the longest run of day-apart dates from the front, stopping at the first gap |
| SettingsScreen.CurrentStreak | code/app/src/main/java/com/example/gratitudegarden/screen/SettingsScreen.kt:59-64 | the streak is 0 iff there are no entries, and otherwise between 1 and the number of distinct dates, so never more than the number of entries |
| SettingsScreen.StreakIsRunEndingAtLatest | code/app/src/main/java/com/example/gratitudegarden/screen/SettingsScreen.kt:59-64 | every day of the `streak` days ending at the latest entry date has an entry, and the day before them has none |
| SettingsScreen.Moods | code/app/src/main/java/com/example/gratitudegarden/screen/SettingsScreen.kt:67 | one mood key per entry, in list order |
| SettingsScreen.FirstMaxIndex | code/app/src/main/java/com/example/gratitudegarden/screen/SettingsScreen.kt:69 | `maxByOrNull` picks the first key with the largest count |
| SettingsScreen.MostCommonMoodKey | code/app/src/main/java/com/example/gratitudegarden/screen/SettingsScreen.kt:66-70 | there is no most common mood iff there are no entries, and otherwise it is some entry's mood |
| SettingsScreen.MostCommonMoodIsFirstMaximal | code/app/src/main/java/com/example/gratitudegarden/screen/SettingsScreen.kt:66-70 | no mood occurs more often than the chosen one, and a mood that ties with it does not occur first before it |
| SettingsScreen.MostCommonMoodLabelAsWritten | code/app/src/main/java/com/example/gratitudegarden/screen/SettingsScreen.kt:66-73 | as written, an empty journal shows the literal placeholder and otherwise the display name of some entry's mood |
| SettingsScreen.PlaceholderIsMisdecodedDash | code/app/src/main/java/com/example/gratitudegarden/screen/SettingsScreen.kt:73 | the placeholder literal is the em dash's UTF-8 bytes read as Windows-1252, so an empty journal shows three characters, not a dash |
| SettingsScreen.MostCommonMoodLabel | code/app/src/main/java/com/example/gratitudegarden/screen/SettingsScreen.kt:66-73 | with no entries the card shows one em dash; otherwise it shows the display name of some entry's mood |
| SettingsScreen.LabelNamesMostCommonMood | code/app/src/main/java/com/example/gratitudegarden/screen/SettingsScreen.kt:66-72 | the card names a mood that no other entry's mood outnumbers |
| SettingsScreen.ComputeStats | code/app/src/main/java/com/example/gratitudegarden/screen/SettingsScreen.kt:39-73 | "This Week" (the corrected seven-day window) is at most the total, which is the entry count; the streak is at most the total and is 0 exactly when the total is; the mood card names a most frequent mood, and shows one em dash (the corrected placeholder) for an empty journal |
| SettingsScreen.StatsWeekIsWindow | code/app/src/main/java/com/example/gratitudegarden/screen/SettingsScreen.kt:43-48 | the card's "This Week" is the intended seven-day count, hence 0 iff no entry is in the window, and never more than the as-written count |
| HistoryScreen.LeadingBlanks | code/app/src/main/java/com/example/gratitudegarden/screen/HistoryScreen.kt:346-347 | there are 0 to 6 blank cells before the 1st |
| HistoryScreen.WeekdayColumn | code/app/src/main/java/com/example/gratitudegarden/screen/HistoryScreen.kt:236-255 | the cell of day k is in the column of k's weekday (Mon to Sun) |
| HistoryScreen.AtDayInMonth | code/app/src/main/java/com/example/gratitudegarden/screen/HistoryScreen.kt:352 | `month.atDay(k)` is the date (year, month, k) |
| HistoryScreen.DaysInMonth | code/app/src/main/java/com/example/gratitudegarden/screen/HistoryScreen.kt:345-355 | the grid is the blanks, then each day of the month once, in order and in its weekday's column, with at most 37 cells |
| HistoryScreen.GridCellsAreMonthDays | code/app/src/main/java/com/example/gratitudegarden/screen/HistoryScreen.kt:345-355 | each filled cell holds the date of its day number, and its column is that date's weekday |
| HistoryScreen.February2024 | code/app/src/main/java/com/example/gratitudegarden/screen/HistoryScreen.kt:345-355 | February 2024 has 3 blanks and 29 days |
| HistoryScreen.EntriesOn | code/app/src/main/java/com/example/gratitudegarden/screen/HistoryScreen.kt:363-366 | `groupBy` puts into a date's group exactly the entries of that date, in their input order (the order-preserving filter by date), each as many times as in the input |
| HistoryScreen.EntriesOnSorted | code/app/src/main/java/com/example/gratitudegarden/screen/HistoryScreen.kt:361-366 | a group taken from the newest-first list is itself newest first |
| HistoryScreen.GroupEntriesByDate | code/app/src/main/java/com/example/gratitudegarden/screen/HistoryScreen.kt:357-370 | the group dates strictly descend, and every entry of a group falls on the group's date |
| HistoryScreen.GroupsOrdered | code/app/src/main/java/com/example/gratitudegarden/screen/HistoryScreen.kt:357-370 | the groups' dates strictly descend, no group is empty, and each group is newest first |
| HistoryScreen.EntryInItsOwnGroup | code/app/src/main/java/com/example/gratitudegarden/screen/HistoryScreen.kt:357-370 | every entry appears in the group of its own date |
| HistoryScreen.EntryHasAGroup | code/app/src/main/java/com/example/gratitudegarden/screen/HistoryScreen.kt:357-370 | every entry appears in the group headed by its own local date |
| HistoryScreen.FlattenCount | code/app/src/main/java/com/example/gratitudegarden/screen/HistoryScreen.kt:357-370 | the grouped list shows each entry as often as the input holds it |
| HistoryScreen.GroupsArePermutation | code/app/src/main/java/com/example/gratitudegarden/screen/HistoryScreen.kt:357-370 | the groups together list every entry exactly as often as the input does |
| HistoryScreen.EntryForDate | code/app/src/main/java/com/example/gratitudegarden/screen/HistoryScreen.kt:272-276 | `firstOrNull` finds no entry iff none falls on the date, and otherwise the first such entry in list order |
| HistoryScreen.CellIsClickable | code/app/src/main/java/com/example/gratitudegarden/screen/HistoryScreen.kt:285-288 | a day cell is clickable iff some entry falls on that date |
| HistoryScreen.MonthName | code/app/src/main/java/com/example/gratitudegarden/screen/HistoryScreen.kt:166 | `Month.name` is an all-capital name of at least three letters |
| HistoryScreen.MonthTitle | code/app/src/main/java/com/example/gratitudegarden/screen/HistoryScreen.kt:165-169 | the title is a capitalised name with no other capital, one space, then the year's digits |
| HistoryScreen.MonthTitleInjective | code/app/src/main/java/com/example/gratitudegarden/screen/HistoryScreen.kt:165-169 | different months have different titles ("January 2025") |
| HistoryScreen.MenuMonths | code/app/src/main/java/com/example/gratitudegarden/screen/HistoryScreen.kt:136-137 | the drop-down lists 24 items, January 2025 to December 2026, each item's successor next; a month is listed iff its year is 2025 or 2026 |
| HistoryScreen.MonthSelector.constructor | code/app/src/main/java/com/example/gratitudegarden/screen/HistoryScreen.kt:44 | the selector starts on the current month with the menu closed |
| HistoryScreen.MonthSelector.PreviousMonthClicked | code/app/src/main/java/com/example/gratitudegarden/screen/HistoryScreen.kt:153-155 | the left chevron moves to the previous month and leaves the menu alone |
| HistoryScreen.MonthSelector.NextMonthClicked | code/app/src/main/java/com/example/gratitudegarden/screen/HistoryScreen.kt:213-215 | the right chevron moves to the next month and leaves the menu alone |
| HistoryScreen.MonthSelector.TitleClicked | code/app/src/main/java/com/example/gratitudegarden/screen/HistoryScreen.kt:162 | clicking the title opens the menu and keeps the month |
| HistoryScreen.MonthSelector.MenuDismissed | code/app/src/main/java/com/example/gratitudegarden/screen/HistoryScreen.kt:176 | dismissing closes the menu and keeps the month |
| HistoryScreen.MonthSelector.MenuItemClicked | code/app/src/main/java/com/example/gratitudegarden/screen/HistoryScreen.kt:187-190 | choosing an item shows that month and closes the menu |
| HistoryScreen.NextThenPreviousMonth | code/app/src/main/java/com/example/gratitudegarden/screen/HistoryScreen.kt:153-155 | the right chevron followed by the left one restores the month and leaves the menu alone |
| HistoryScreen.PreviousThenNextMonth | code/app/src/main/java/com/example/gratitudegarden/screen/HistoryScreen.kt:153-155 | the left chevron followed by the right one restores the month and leaves the menu alone |
| HistoryScreen.OneMenuItemSelected | code/app/src/main/java/com/example/gratitudegarden/screen/HistoryScreen.kt:184-199 | `isSelected` marks at most one of the 24 items, and marks one iff the current month lies in 2025 or 2026 |
| GardenScreen.ThresholdsReachedMonotone | code/app/src/main/java/com/example/gratitudegarden/screen/GardenScreen.kt:243-249 | a larger count reaches at least as many stage thresholds |
| GardenScreen.StageThresholdsUnrolled | code/app/src/main/java/com/example/gratitudegarden/screen/GardenScreen.kt:243-249 | the number of thresholds reached is the sum over 3, 6, 10 and 15 |
| GardenScreen.PlantStage | code/app/src/main/java/com/example/gratitudegarden/screen/GardenScreen.kt:243-249 | the plant stage is 1 to 5: one more than the number of thresholds (3, 6, 10, 15) the entry count has reached |
| GardenScreen.PlantStageMonotone | code/app/src/main/java/com/example/gratitudegarden/screen/GardenScreen.kt:243-249 | more entries never give a smaller plant |
| GardenScreen.EntryCountText | code/app/src/main/java/com/example/gratitudegarden/screen/GardenScreen.kt:87-91 | no entries gives the "no moments yet" caption; any other count is its digits followed by " moment of gratitude" for one entry and " moments of gratitude" otherwise |
| GardenScreen.EntryCountTextNamesCount | code/app/src/main/java/com/example/gratitudegarden/screen/GardenScreen.kt:87-91 | a caption for one or more entries starts with the count's digits, and different counts never share a caption |
| GardenScreen.CaptionsDiffer | code/app/src/main/java/com/example/gratitudegarden/screen/GardenScreen.kt:87-91 | the captions of two different counts differ |
| GardenScreen.GardenState.constructor | code/app/src/main/java/com/example/gratitudegarden/screen/GardenScreen.kt:44-45 | the screen starts on today with the picker closed |
| GardenScreen.GardenState.PreviousDayClicked | code/app/src/main/java/com/example/gratitudegarden/screen/GardenScreen.kt:113-115 | the left chevron moves back one day |
| GardenScreen.GardenState.NextDayClicked | code/app/src/main/java/com/example/gratitudegarden/screen/GardenScreen.kt:138-140 | the right chevron moves forward one day |
| GardenScreen.GardenState.DateClicked | code/app/src/main/java/com/example/gratitudegarden/screen/GardenScreen.kt:122 | clicking the date opens the picker |
| GardenScreen.GardenState.PickerConfirmed | code/app/src/main/java/com/example/gratitudegarden/screen/GardenScreen.kt:186-192 | OK reads the picked day's UTC midnight in the system zone, which gives the day before when the zone is west of UTC; nothing picked keeps the date; the picker closes |
| GardenScreen.GardenState.PickerDismissed | code/app/src/main/java/com/example/gratitudegarden/screen/GardenScreen.kt:184 | dismissing closes the picker and keeps the date |
| GardenScreen.NextThenPreviousDay | code/app/src/main/java/com/example/gratitudegarden/screen/GardenScreen.kt:113-140 | the right chevron followed by the left one restores the date |
| GardenScreen.PreviousThenNextDay | code/app/src/main/java/com/example/gratitudegarden/screen/GardenScreen.kt:113-140 | the left chevron followed by the right one restores the date |
| GardenScreen.UntouchedPickerAsWritten | code/app/src/main/java/com/example/gratitudegarden/screen/GardenScreen.kt:176-192 | opening the picker and pressing OK without touching it moves the date back one day in every zone except UTC |
| GardenScreen.MonthlyDots | code/app/src/main/java/com/example/gratitudegarden/screen/GardenScreen.kt:214-235 | one dot per day 1..n in order (none when n < 1); a dot is ringed iff its day equals today's day of the month |
| GardenScreen.GardenDots | code/app/src/main/java/com/example/gratitudegarden/screen/GardenScreen.kt:153-156 | the ring has one dot per day of the selected date's month; at most one is ringed, the one for today's day of the month, and there is one iff that day exists in the month |
| DetailEntryScreen.FindEntryById | code/app/src/main/java/com/example/gratitudegarden/data/viewmodel/AddEntryViewModel.kt:51-53 | no entry is found iff no entry has the id; a found entry is in the list and has the id |
| DetailEntryScreen.IndexOfFirstId | code/app/src/main/java/com/example/gratitudegarden/screen/DetailEntryScreen.kt:58 | `indexOfFirst` is -1 iff no entry has the id, and otherwise the first position holding it |
| DetailEntryScreen.UniqueIdsPermutation | code/app/src/main/java/com/example/gratitudegarden/screen/DetailEntryScreen.kt:54-58 | sorting keeps the primary-key ids unique |
| DetailEntryScreen.IndexOfOwnId | code/app/src/main/java/com/example/gratitudegarden/screen/DetailEntryScreen.kt:58 | with unique ids, an entry's id is found at its own position |
| DetailEntryScreen.PreviousEntry | code/app/src/main/java/com/example/gratitudegarden/screen/DetailEntryScreen.kt:60-118 | "Previous entry" is enabled iff the entry is not the last (oldest), and leads to an entry no newer than it |
| DetailEntryScreen.NextEntry | code/app/src/main/java/com/example/gratitudegarden/screen/DetailEntryScreen.kt:61-147 | "Next entry" is enabled iff the entry is not the first (newest), and leads to an entry no older than it |
| DetailEntryScreen.NeighboursAreInverse | code/app/src/main/java/com/example/gratitudegarden/screen/DetailEntryScreen.kt:116-149 | in a list with unique ids, the previous entry's next entry is the entry itself, and the other way round |
| DetailEntryScreen.ChevronsAreInverse | code/app/src/main/java/com/example/gratitudegarden/screen/DetailEntryScreen.kt:116-149 | with unique ids, following "Previous entry" then "Next entry" (or the reverse) returns to the same entry |
| DetailEntryScreen.DetailState.constructor | code/app/src/main/java/com/example/gratitudegarden/screen/DetailEntryScreen.kt:36-61 | the screen opens read-only; text, mood and date come from the entry; and the entry's id is found in the sorted list |
| DetailEntryScreen.DetailState.PreviousTarget | code/app/src/main/java/com/example/gratitudegarden/screen/DetailEntryScreen.kt:116-118 | the left chevron works only outside edit mode, when there is an older entry |
| DetailEntryScreen.DetailState.NextTarget | code/app/src/main/java/com/example/gratitudegarden/screen/DetailEntryScreen.kt:145-147 | the right chevron works only outside edit mode, when there is a newer entry |
| DetailEntryScreen.DetailState.EditClicked | code/app/src/main/java/com/example/gratitudegarden/screen/DetailEntryScreen.kt:230-235 | "Edit entry" switches to edit mode and changes nothing else |
| DetailEntryScreen.DetailState.TextChanged | code/app/src/main/java/com/example/gratitudegarden/screen/DetailEntryScreen.kt:158-161 | typing changes the text only in edit mode |
| DetailEntryScreen.DetailState.MoodClicked | code/app/src/main/java/com/example/gratitudegarden/screen/DetailEntryScreen.kt:205-207 | a mood tile changes the mood only in edit mode |
| DetailEntryScreen.DetailState.DateClicked | code/app/src/main/java/com/example/gratitudegarden/screen/DetailEntryScreen.kt:129 | clicking the date opens the picker only in edit mode |
| DetailEntryScreen.DetailState.PickerConfirmed | code/app/src/main/java/com/example/gratitudegarden/screen/DetailEntryScreen.kt:321-327 | OK reads the picked day's UTC midnight in the system zone, which gives the day before when the zone is west of UTC; nothing picked keeps the date; the picker closes; nothing else changes |
| DetailEntryScreen.DetailState.PickerDismissed | code/app/src/main/java/com/example/gratitudegarden/screen/DetailEntryScreen.kt:317-336 | cancelling or dismissing closes the picker and keeps the date |
| DetailEntryScreen.DetailState.SaveClicked | code/app/src/main/java/com/example/gratitudegarden/screen/DetailEntryScreen.kt:241-249 | the saved copy keeps the id, takes the edited text, stores a mood name that parses back to the selected mood, and has a timestamp at the start of the selected local date |
| DetailEntryScreen.DetailState.DeleteClicked | code/app/src/main/java/com/example/gratitudegarden/screen/DetailEntryScreen.kt:261-263 | "Delete" only opens the confirmation dialog |
| DetailEntryScreen.DetailState.DeleteConfirmed | code/app/src/main/java/com/example/gratitudegarden/screen/DetailEntryScreen.kt:290-294 | confirming deletes exactly the entry the screen opened on, and closes the dialog |
| DetailEntryScreen.DetailState.DeleteCancelled | code/app/src/main/java/com/example/gratitudegarden/screen/DetailEntryScreen.kt:270-306 | cancelling or dismissing closes the dialog and changes nothing else |
| DetailEntryScreen.OpenDetail | code/app/src/main/java/com/example/gratitudegarden/screen/DetailEntryScreen.kt:36 | the screen shows nothing iff no entry has the id, and otherwise opens read-only on the first entry with it; only that entry's mood must parse |
| DetailEntryScreen.SaveWithoutChanges | code/app/src/main/java/com/example/gratitudegarden/screen/DetailEntryScreen.kt:38-249 | editing and saving without changes keeps the id, text, mood and local date, and sets the timestamp to the start of that local day, no later than the original |

## Left out

- Persistence is not modelled: the Room database, the DAO, the repository and the view model's coroutines. The entry list is a parameter. Update and delete are modelled as the entry each screen hands on.
- Reminder notifications and the notifications switch on the Settings screen are not modelled. They are platform I/O.
- Compose rendering is not modelled: layout, colours and icons, including `moodColor`. The History grid and list call `Mood.valueOf` on each shown entry's stored mood only to pick a colour or icon; a stored mood that is not a Mood name makes that call throw and crashes the screen, which is not modelled.
- Dot geometry is not modelled: the angle, the radius and the floating-point positions of the Garden's dots. Only which dots exist and which one is ringed is modelled.
- Dates are formatted with "dd MMM yyyy" by Java's formatter. The formatting is not modelled.
- Navigation is not modelled: `navigate`, `popUpTo`, `popBackStack` and the settings button. The chevron targets and the saved or deleted entry are what the model returns instead.
- AddEntryScreen is not part of this model.
- Calendar.Zone: the system time zone is a fixed UTC offset of at most 18 hours either way, so daylight-saving transitions are not modelled.
- DatePicker: the Material 3 picker is modelled only by the two conversions it performs (UTC date of the initial instant, UTC midnight of the picked day). Its calendar UI, year range and input mode are not modelled.
- Text.Lowercase: case mapping covers the ASCII letters only, which is all that enum names and mood keys contain.
- Calendar.FromEpochDay: the computation is unbounded integer arithmetic. Java's `Long` range is not modelled, and no timestamp in the app reaches it.
- SettingsScreen.StreakIsRunEndingAtLatest: the streak is the run of consecutive dates ending at the latest entry date, whether or not that date is today. This is what the code computes.
- DetailEntryScreen.DetailState.constructor: requires that the stored mood is a Mood name. `Mood.valueOf` throws otherwise, and the screen does not handle that.
- DetailEntryScreen.OpenDetail: requires that the opened entry's stored mood is a Mood name, for the same reason; no other entry's mood is parsed.

## Findings

| source | as written | input that shows it | evidently intended | confidence | as-written member | corrected member |
|---|---|---|---|---|---|---|
| code/app/src/main/java/com/example/gratitudegarden/screen/SettingsScreen.kt:73 | the "Common Mood" placeholder literal is the three characters U+00E2 U+20AC U+201D | an empty journal, which shows the three characters "â€”" on the card | a single em dash, U+2014, whose UTF-8 bytes E2 80 94 read as Windows-1252 give exactly those three characters | medium, not executed; the mangling may be in how the file was saved rather than in the original | SettingsScreen.PlaceholderIsMisdecodedDash | SettingsScreen.MostCommonMoodLabel |
| code/app/src/main/java/com/example/gratitudegarden/screen/GardenScreen.kt:176-190 | the picker is opened on the start of the selected day in the system zone, and its result is read back in the system zone, while the Material 3 picker works in UTC | any zone other than UTC, for example UTC+2: with 10 March selected, the picker opens on 9 March (the UTC date of 9 March 22:00 UTC), and OK stores 9 March; at UTC-5 it opens on 10 March and OK reads 10 March 00:00 UTC as 9 March | convert with UTC on both sides, so the picker opens on the selected day and OK keeps the picked day; DetailEntryScreen.kt:310-327 has the same code | medium, not executed | DatePicker.UntouchedPickerShiftsDate | DatePicker.CorrectedPickerKeepsDate |
| code/app/src/main/java/com/example/gratitudegarden/screen/SettingsScreen.kt:43-48 | "This Week" counts every entry dated after today minus seven days, with no upper bound | an entry dated tomorrow, which the edit date picker allows, is counted in "This Week" | count only the seven days ending today, today - 6 to today | medium, not executed | SettingsScreen.FutureEntryCountsThisWeek | SettingsScreen.EntriesInWindow |
