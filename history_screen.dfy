/**
 * The History screen: the Monday-first month grid, the entry shown in each
 * day cell, the month selector (chevrons and drop-down) and the list of
 * entries grouped by local date.
 */
module HistoryScreen {
  import opened Wrappers
  import opened Calendar
  import opened Entries
  import Lists
  import opened Text

  /** `firstDay.dayOfWeek.value - 1`: blank cells before the 1st in a week starting on Monday. */
  function LeadingBlanks(ym: YearMonth): (n: int)
    requires ValidYearMonth(ym)
    ensures 0 <= n <= 6
  {
    DayOfWeek(FirstDayOfMonth(ym)) - 1
  }

  lemma WeekdayShift(f: int, k: int)
    requires k >= 1
    ensures (f + k - 1 + 3) % 7 == ((f + 3) % 7 + k - 1) % 7
  {
    var q := (f + 3) / 7;
    assert f + 3 == 7 * q + (f + 3) % 7;
    assert f + k - 1 + 3 == 7 * q + ((f + 3) % 7 + k - 1);
  }

  /** Day k of a month falls in grid column (blanks + k - 1) mod 7, the column of its weekday. */
  lemma WeekdayColumn(ym: YearMonth, k: int)
    requires ValidYearMonth(ym) && 1 <= k <= MonthLength(ym)
    ensures DayOfWeek(AtDay(ym, k)) == (LeadingBlanks(ym) + k - 1) % 7 + 1
  {
    var f := FirstDayOfMonth(ym);
    assert AtDay(ym, k) == f + k - 1;
    WeekdayShift(f, k);
  }

  /** Day k of the month is, as a calendar date, day k of that year and month. */
  lemma AtDayInMonth(ym: YearMonth, k: int)
    requires ValidYearMonth(ym) && 1 <= k <= MonthLength(ym)
    ensures FromEpochDay(AtDay(ym, k)) == Date(ym.year, ym.month, k)
  {
    DateRoundTrip(Date(ym.year, ym.month, k));
  }

  /**
   * `daysInMonth(month)`: the cells of the calendar grid. The list starts with
   * one blank per weekday before the 1st, then holds every day of the month in
   * order; each day lands in the column of its weekday, and each is a date of
   * the requested month.
   */
  method DaysInMonth(ym: YearMonth) returns (days: seq<Option<int>>)
    requires ValidYearMonth(ym)
    ensures |days| == LeadingBlanks(ym) + MonthLength(ym) <= 37
    ensures forall j | 0 <= j < LeadingBlanks(ym) :: days[j] == None
    ensures forall j | LeadingBlanks(ym) <= j < |days| ::
      days[j] == Some(AtDay(ym, j - LeadingBlanks(ym) + 1))
    ensures forall j | 0 <= j < |days| && days[j].Some? ::
      FromEpochDay(days[j].value) == Date(ym.year, ym.month, j - LeadingBlanks(ym) + 1)
    ensures forall j | 0 <= j < |days| && days[j].Some? :: DayOfWeek(days[j].value) == j % 7 + 1
  {
    var offset := LeadingBlanks(ym);
    days := [];
    var i := 0;
    while i < offset
      invariant 0 <= i <= offset && |days| == i
      invariant forall j | 0 <= j < i :: days[j] == None
    {
      days := days + [None];
      i := i + 1;
    }
    var day := 0;
    while day < MonthLength(ym)
      invariant 0 <= day <= MonthLength(ym) && |days| == offset + day
      invariant forall j | 0 <= j < offset :: days[j] == None
      invariant forall j | offset <= j < |days| :: days[j] == Some(AtDay(ym, j - offset + 1))
    {
      days := days + [Some(AtDay(ym, day + 1))];
      day := day + 1;
    }
    GridCellsAreMonthDays(ym, days);
  }

  /** Each day cell of a grid laid out as above holds a date of the month, in its weekday's column. */
  lemma GridCellsAreMonthDays(ym: YearMonth, days: seq<Option<int>>)
    requires ValidYearMonth(ym)
    requires |days| == LeadingBlanks(ym) + MonthLength(ym)
    requires forall j | 0 <= j < LeadingBlanks(ym) :: days[j] == None
    requires forall j | LeadingBlanks(ym) <= j < |days| ::
      days[j] == Some(AtDay(ym, j - LeadingBlanks(ym) + 1))
    ensures forall j | 0 <= j < |days| && days[j].Some? ::
      FromEpochDay(days[j].value) == Date(ym.year, ym.month, j - LeadingBlanks(ym) + 1)
    ensures forall j | 0 <= j < |days| && days[j].Some? :: DayOfWeek(days[j].value) == j % 7 + 1
  {
    var offset := LeadingBlanks(ym);
    forall j | 0 <= j < |days| && days[j].Some?
      ensures FromEpochDay(days[j].value) == Date(ym.year, ym.month, j - offset + 1)
    {
      var k := j - offset + 1;
      assert days[j].value == AtDay(ym, k);
      AtDayInMonth(ym, k);
    }
    forall j | 0 <= j < |days| && days[j].Some?
      ensures DayOfWeek(days[j].value) == j % 7 + 1
    {
      var k := j - offset + 1;
      assert days[j].value == AtDay(ym, k);
      WeekdayColumn(ym, k);
    }
  }

  /** February 2024, a leap-year month, starts on a Thursday: three blanks, then 29 days. */
  lemma February2024()
    ensures ValidYearMonth(YearMonth(2024, 2))
    ensures MonthLength(YearMonth(2024, 2)) == 29
    ensures LeadingBlanks(YearMonth(2024, 2)) == 3
  {
    assert YearStart(2024) == 19723;
    assert DaysBeforeMonth(2024, 2) == 31;
  }

  /** The entries of s whose local date is d, in their order in s: one bucket of `groupBy`. */
  function EntriesOn(zone: Zone, s: seq<GratitudeEntry>, d: int): (r: seq<GratitudeEntry>)
    ensures forall i | 0 <= i < |r| :: EntryDay(zone, r[i]) == d
    ensures forall x :: multiset(r)[x] == if EntryDay(zone, x) == d then multiset(s)[x] else 0
    ensures r == Lists.WithKey(s, DayKey(zone), d)
  {
    if s == [] then []
    else
      assert s == [s[0]] + s[1..];
      if EntryDay(zone, s[0]) == d then [s[0]] + EntriesOn(zone, s[1..], d)
      else EntriesOn(zone, s[1..], d)
  }

  /** A bucket of a list sorted by descending timestamp is itself in that order. */
  lemma {:induction false} EntriesOnSorted(zone: Zone, s: seq<GratitudeEntry>, d: int)
    requires Lists.SortedDescBy(s, Timestamp)
    ensures Lists.SortedDescBy(EntriesOn(zone, s, d), Timestamp)
  {
    if s != [] {
      EntriesOnSorted(zone, s[1..], d);
      var rest := EntriesOn(zone, s[1..], d);
      forall k | 0 <= k < |rest| ensures Timestamp(rest[k]) <= Timestamp(s[0]) {
        assert rest[k] in multiset(rest);
        var j :| 0 <= j < |s[1..]| && s[1..][j] == rest[k];
      }
    }
  }

  /** One heading of the history list: a local date and its entries. */
  datatype DateGroup = DateGroup(date: int, entries: seq<GratitudeEntry>)

  /** `.map { it.key to it.value }` over the buckets, in the order of `keys`. */
  function GroupsFor(zone: Zone, sorted: seq<GratitudeEntry>, keys: seq<int>): (groups: seq<DateGroup>)
    ensures |groups| == |keys|
    ensures forall i | 0 <= i < |keys| :: groups[i] == DateGroup(keys[i], EntriesOn(zone, sorted, keys[i]))
  {
    if keys == [] then []
    else [DateGroup(keys[0], EntriesOn(zone, sorted, keys[0]))] + GroupsFor(zone, sorted, keys[1..])
  }

  /**
   * `groupEntriesByDate(entries)`: sort by descending timestamp, bucket by
   * local date, then order the buckets by descending date.
   */
  function GroupEntriesByDate(zone: Zone, entries: seq<GratitudeEntry>): (groups: seq<DateGroup>)
    ensures forall i, j | 0 <= i < j < |groups| :: groups[i].date > groups[j].date
    ensures forall i | 0 <= i < |groups| ::
      forall k | 0 <= k < |groups[i].entries| :: EntryDay(zone, groups[i].entries[k]) == groups[i].date
  {
    var sorted := SortedByTimestampDesc(entries);
    GroupsFor(zone, sorted, DistinctDaysDesc(zone, sorted))
  }

  /** The entries in the order the history list shows them, group after group. */
  function Flatten(groups: seq<DateGroup>): seq<GratitudeEntry> {
    if groups == [] then [] else groups[0].entries + Flatten(groups[1..])
  }

  /**
   * The group headings are strictly decreasing dates, no group is empty, and
   * within a group entries go from latest to earliest timestamp.
   */
  lemma GroupsOrdered(zone: Zone, entries: seq<GratitudeEntry>)
    ensures var groups := GroupEntriesByDate(zone, entries);
      && (forall i, j | 0 <= i < j < |groups| :: groups[i].date > groups[j].date)
      && (forall i | 0 <= i < |groups| :: groups[i].entries != [])
      && (forall i | 0 <= i < |groups| :: Lists.SortedDescBy(groups[i].entries, Timestamp))
  {
    var sorted := SortedByTimestampDesc(entries);
    var keys := DistinctDaysDesc(zone, sorted);
    var groups := GroupEntriesByDate(zone, entries);
    forall i | 0 <= i < |groups| ensures groups[i].entries != [] {
      DistinctDaysMembers(zone, sorted, keys[i]);
      var j :| 0 <= j < |sorted| && EntryDay(zone, sorted[j]) == keys[i];
      assert sorted[j] in multiset(sorted);
      assert multiset(groups[i].entries)[sorted[j]] > 0;
    }
    forall i | 0 <= i < |groups| ensures Lists.SortedDescBy(groups[i].entries, Timestamp) {
      EntriesOnSorted(zone, sorted, keys[i]);
    }
  }

  /** Every entry is listed under exactly one heading: the one for its own local date. */
  lemma EntryInItsOwnGroup(zone: Zone, entries: seq<GratitudeEntry>, e: GratitudeEntry)
    requires e in entries
    ensures var groups := GroupEntriesByDate(zone, entries);
      exists i | 0 <= i < |groups| :: groups[i].date == EntryDay(zone, e) && e in groups[i].entries
    ensures var groups := GroupEntriesByDate(zone, entries);
      forall i | 0 <= i < |groups| && e in groups[i].entries :: groups[i].date == EntryDay(zone, e)
  {
    EntryHasAGroup(zone, entries, e);
    var groups := GroupEntriesByDate(zone, entries);
    forall i | 0 <= i < |groups| && e in groups[i].entries ensures groups[i].date == EntryDay(zone, e) {
      var k :| 0 <= k < |groups[i].entries| && groups[i].entries[k] == e;
    }
  }

  lemma EntryHasAGroup(zone: Zone, entries: seq<GratitudeEntry>, e: GratitudeEntry)
    requires e in entries
    ensures var groups := GroupEntriesByDate(zone, entries);
      exists i | 0 <= i < |groups| :: groups[i].date == EntryDay(zone, e) && e in groups[i].entries
  {
    var sorted := SortedByTimestampDesc(entries);
    var keys := DistinctDaysDesc(zone, sorted);
    var groups := GroupsFor(zone, sorted, keys);
    var d := EntryDay(zone, e);
    assert multiset(sorted)[e] > 0 by {
      assert e in multiset(entries);
    }
    assert HasEntryOn(zone, sorted, d) by {
      var j :| 0 <= j < |sorted| && sorted[j] == e;
      assert EntryDay(zone, sorted[j]) == d;
    }
    DistinctDaysMembers(zone, sorted, d);
    var i :| 0 <= i < |keys| && keys[i] == d;
    var bucket := EntriesOn(zone, sorted, d);
    assert groups[i] == DateGroup(d, bucket);
    assert multiset(bucket)[e] > 0;
    assert e in bucket;
    assert groups == GroupEntriesByDate(zone, entries);
    assert groups[i].date == d && e in groups[i].entries;
  }

  lemma {:induction false} FlattenCount(zone: Zone, sorted: seq<GratitudeEntry>, keys: seq<int>, x: GratitudeEntry)
    requires Lists.NoDuplicates(keys)
    ensures multiset(Flatten(GroupsFor(zone, sorted, keys)))[x]
            == if EntryDay(zone, x) in keys then multiset(sorted)[x] else 0
  {
    if keys != [] {
      var groups := GroupsFor(zone, sorted, keys);
      assert groups[1..] == GroupsFor(zone, sorted, keys[1..]);
      assert Lists.NoDuplicates(keys[1..]);
      FlattenCount(zone, sorted, keys[1..], x);
      assert EntryDay(zone, x) in keys <==> EntryDay(zone, x) == keys[0] || EntryDay(zone, x) in keys[1..];
      if EntryDay(zone, x) == keys[0] {
        assert EntryDay(zone, x) !in keys[1..];
      }
    }
  }

  /** The history list shows every entry exactly as often as it occurs: a permutation of the input. */
  lemma GroupsArePermutation(zone: Zone, entries: seq<GratitudeEntry>)
    ensures multiset(Flatten(GroupEntriesByDate(zone, entries))) == multiset(entries)
  {
    var sorted := SortedByTimestampDesc(entries);
    var keys := DistinctDaysDesc(zone, sorted);
    assert Lists.NoDuplicates(keys);
    forall x ensures multiset(Flatten(GroupEntriesByDate(zone, entries)))[x] == multiset(entries)[x] {
      FlattenCount(zone, sorted, keys, x);
      DistinctDaysMembers(zone, sorted, EntryDay(zone, x));
      if x in sorted {
        var j :| 0 <= j < |sorted| && sorted[j] == x;
      }
    }
  }

  /**
   * The entry a calendar cell shows: `entries.firstOrNull { local date == date }`,
   * the first entry in list order that falls on the cell's date.
   */
  function EntryForDate(zone: Zone, entries: seq<GratitudeEntry>, date: int): (r: Option<GratitudeEntry>)
    ensures r.None? <==> !HasEntryOn(zone, entries, date)
    ensures r.Some? ==> exists i | 0 <= i < |entries| ::
      && entries[i] == r.value
      && EntryDay(zone, entries[i]) == date
      && forall j | 0 <= j < i :: EntryDay(zone, entries[j]) != date
  {
    if entries == [] then None
    else if EntryDay(zone, entries[0]) == date then Some(entries[0])
    else
      var r := EntryForDate(zone, entries[1..], date);
      assert HasEntryOn(zone, entries, date) ==> HasEntryOn(zone, entries[1..], date) by {
        if HasEntryOn(zone, entries, date) {
          var i :| 0 <= i < |entries| && EntryDay(zone, entries[i]) == date;
          assert entries[1..][i - 1] == entries[i];
        }
      }
      if r.Some? then
        var i :| 0 <= i < |entries[1..]| && entries[1..][i] == r.value && EntryDay(zone, entries[1..][i]) == date
          && forall j | 0 <= j < i :: EntryDay(zone, entries[1..][j]) != date;
        assert entries[i + 1] == r.value;
        r
      else r
  }

  /** A day cell is clickable exactly when some entry falls on its date. */
  function CellIsClickable(zone: Zone, entries: seq<GratitudeEntry>, date: int): (clickable: bool)
    ensures clickable <==> HasEntryOn(zone, entries, date)
  {
    EntryForDate(zone, entries, date).Some?
  }

  /** `Month.name`: the enum constant's name of a month number. */
  function MonthName(month: int): (name: string)
    requires 1 <= month <= 12
    ensures |name| >= 3 && forall i | 0 <= i < |name| :: IsUpperAscii(name[i])
  {
    ["JANUARY", "FEBRUARY", "MARCH", "APRIL", "MAY", "JUNE", "JULY",
     "AUGUST", "SEPTEMBER", "OCTOBER", "NOVEMBER", "DECEMBER"][month - 1]
  }

  /** The month number of an enum constant's name: the inverse of `MonthName`, used to tell titles apart. */
  function MonthOfName(name: string): (month: Option<int>)
    ensures month.Some? ==> 1 <= month.value <= 12 && MonthName(month.value) == name
  {
    if name == "JANUARY" then Some(1) else if name == "FEBRUARY" then Some(2)
    else if name == "MARCH" then Some(3) else if name == "APRIL" then Some(4)
    else if name == "MAY" then Some(5) else if name == "JUNE" then Some(6)
    else if name == "JULY" then Some(7) else if name == "AUGUST" then Some(8)
    else if name == "SEPTEMBER" then Some(9) else if name == "OCTOBER" then Some(10)
    else if name == "NOVEMBER" then Some(11) else if name == "DECEMBER" then Some(12)
    else None
  }

  /** Each month's name leads back to the month. */
  lemma MonthNameRoundTrip(month: int)
    requires 1 <= month <= 12
    ensures MonthOfName(MonthName(month)) == Some(month)
  {
  }

  /**
   * The selector's title and each drop-down item's text: the month's name
   * lower-cased with a capital first letter, a space, then the year
   * ("January 2025").
   */
  function MonthTitle(ym: YearMonth): (title: string)
    requires ValidYearMonth(ym)
    ensures exists n | 3 <= n < |title| ::
      && IsUpperAscii(title[0]) && (forall i | 1 <= i < n :: !IsUpperAscii(title[i]))
      && title[n] == ' ' && ' ' !in title[..n] && title[n + 1..] == IntToString(ym.year)
  {
    var name := DisplayName(MonthName(ym.month));
    var title := name + " " + IntToString(ym.year);
    assert IsUpperAscii(title[0]) by {
      assert title[0] == ToUpperChar(ToLowerChar(MonthName(ym.month)[0]));
    }
    assert ' ' !in title[..|name|] by {
      assert title[..|name|] == name;
      forall i | 0 <= i < |name| ensures name[i] != ' ' {
        if i == 0 { assert name[0] == ToUpperChar(ToLowerChar(MonthName(ym.month)[0])); }
      }
    }
    assert title[|name| + 1..] == IntToString(ym.year);
    title
  }

  /** Different months have different titles, so exactly one menu item matches a title. */
  lemma MonthTitleInjective(a: YearMonth, b: YearMonth)
    requires ValidYearMonth(a) && ValidYearMonth(b)
    requires MonthTitle(a) == MonthTitle(b)
    ensures a == b
  {
    var na, nb := DisplayName(MonthName(a.month)), DisplayName(MonthName(b.month));
    assert ' ' !in na by {
      forall i | 0 <= i < |na| ensures na[i] != ' ' {
        if i == 0 { assert na[0] == ToUpperChar(ToLowerChar(MonthName(a.month)[0])); }
      }
    }
    assert ' ' !in nb by {
      forall i | 0 <= i < |nb| ensures nb[i] != ' ' {
        if i == 0 { assert nb[0] == ToUpperChar(ToLowerChar(MonthName(b.month)[0])); }
      }
    }
    SplitAtFirstSpace(na, IntToString(a.year), nb, IntToString(b.year));
    DisplayNameInjective(MonthName(a.month), MonthName(b.month));
    MonthNameRoundTrip(a.month);
    MonthNameRoundTrip(b.month);
    IntToStringInjective(a.year, b.year);
  }

  /** The drop-down menu's first and last year. */
  const FirstMenuYear := 2025
  const LastMenuYear := 2026

  /**
   * The drop-down items, `years.forEach { year -> months.forEach { ... } }`:
   * the 24 months January 2025 to December 2026 in calendar order.
   */
  method MenuMonths() returns (items: seq<YearMonth>)
    ensures |items| == 24
    ensures forall i | 0 <= i < |items| :: items[i] == YearMonth(FirstMenuYear + i / 12, i % 12 + 1)
    ensures items[0] == YearMonth(FirstMenuYear, 1) && items[23] == YearMonth(LastMenuYear, 12)
    ensures forall i | 0 <= i < |items| - 1 :: items[i + 1] == NextMonth(items[i])
    ensures forall ym :: ym in items <==> ValidYearMonth(ym) && FirstMenuYear <= ym.year <= LastMenuYear
  {
    items := [];
    for year := FirstMenuYear to LastMenuYear + 1
      invariant |items| == 12 * (year - FirstMenuYear)
      invariant forall i | 0 <= i < |items| :: items[i] == YearMonth(FirstMenuYear + i / 12, i % 12 + 1)
    {
      for month := 1 to 13
        invariant |items| == 12 * (year - FirstMenuYear) + month - 1
        invariant forall i | 0 <= i < |items| :: items[i] == YearMonth(FirstMenuYear + i / 12, i % 12 + 1)
      {
        items := items + [YearMonth(year, month)];
      }
    }
    forall ym | ValidYearMonth(ym) && FirstMenuYear <= ym.year <= LastMenuYear ensures ym in items {
      var i := 12 * (ym.year - FirstMenuYear) + ym.month - 1;
      assert items[i] == ym;
    }
  }

  /**
   * The month selector's state: `currentMonth` (held by the History screen) and
   * whether the drop-down is `expanded`.
   */
  class MonthSelector {
    var currentMonth: YearMonth
    var expanded: bool

    ghost predicate Valid()
      reads this
    {
      ValidYearMonth(currentMonth)
    }

    /** `mutableStateOf(YearMonth.now())`, menu closed. */
    constructor (now: YearMonth)
      requires ValidYearMonth(now)
      ensures Valid() && currentMonth == now && !expanded
    {
      currentMonth := now;
      expanded := false;
    }

    /** Left chevron: `currentMonth.minusMonths(1)`. */
    method PreviousMonthClicked()
      requires Valid()
      modifies this
      ensures Valid()
      ensures currentMonth == PreviousMonth(old(currentMonth)) && expanded == old(expanded)
    {
      currentMonth := PreviousMonth(currentMonth);
    }

    /** Right chevron: `currentMonth.plusMonths(1)`. */
    method NextMonthClicked()
      requires Valid()
      modifies this
      ensures Valid()
      ensures currentMonth == NextMonth(old(currentMonth)) && expanded == old(expanded)
    {
      currentMonth := NextMonth(currentMonth);
    }

    /** Clicking the month title opens the drop-down. */
    method TitleClicked()
      requires Valid()
      modifies this
      ensures Valid() && expanded && currentMonth == old(currentMonth)
    {
      expanded := true;
    }

    /** Dismissing the drop-down closes it and keeps the month. */
    method MenuDismissed()
      requires Valid()
      modifies this
      ensures Valid() && !expanded && currentMonth == old(currentMonth)
    {
      expanded := false;
    }

    /** Choosing a drop-down item shows that month and closes the menu. */
    method MenuItemClicked(item: YearMonth)
      requires Valid() && ValidYearMonth(item)
      modifies this
      ensures Valid() && !expanded && currentMonth == item
    {
      currentMonth := item;
      expanded := false;
    }

    /** The drop-down item drawn in the selected weight: the one equal to the current month. */
    predicate IsSelectedItem(item: YearMonth)
      reads this
    {
      item == currentMonth
    }
  }

  /** The right chevron followed by the left one restores the month. */
  method NextThenPreviousMonth(selector: MonthSelector)
    requires selector.Valid()
    modifies selector
    ensures selector.Valid() && selector.currentMonth == old(selector.currentMonth)
    ensures selector.expanded == old(selector.expanded)
  {
    MonthSteppingInverse(selector.currentMonth);
    selector.NextMonthClicked();
    selector.PreviousMonthClicked();
  }

  /** The left chevron followed by the right one restores the month. */
  method PreviousThenNextMonth(selector: MonthSelector)
    requires selector.Valid()
    modifies selector
    ensures selector.Valid() && selector.currentMonth == old(selector.currentMonth)
    ensures selector.expanded == old(selector.expanded)
  {
    MonthSteppingInverse(selector.currentMonth);
    selector.PreviousMonthClicked();
    selector.NextMonthClicked();
  }

  /**
   * Over the 24 drop-down items at most one is drawn in the medium weight, and one is exactly
   * when the current month lies in the menu's years.
   */
  lemma OneMenuItemSelected(selector: MonthSelector, items: seq<YearMonth>)
    requires selector.Valid()
    requires |items| == 24
    requires forall i | 0 <= i < |items| :: items[i] == YearMonth(FirstMenuYear + i / 12, i % 12 + 1)
    ensures forall i, j | 0 <= i < j < |items| :: !(selector.IsSelectedItem(items[i]) && selector.IsSelectedItem(items[j]))
    ensures (exists i | 0 <= i < |items| :: selector.IsSelectedItem(items[i]))
            <==> FirstMenuYear <= selector.currentMonth.year <= LastMenuYear
  {
    var cm := selector.currentMonth;
    if FirstMenuYear <= cm.year <= LastMenuYear {
      var i := 12 * (cm.year - FirstMenuYear) + cm.month - 1;
      assert i / 12 == cm.year - FirstMenuYear && i % 12 == cm.month - 1;
      assert selector.IsSelectedItem(items[i]);
    }
  }
}
