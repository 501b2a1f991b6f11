/**
 * The journal entry record and the views of an entry list that several
 * screens share: each entry's local date, and the list ordered by
 * descending timestamp.
 */
module Entries {
  import opened Wrappers
  import opened Calendar
  import Lists

  /** A row of the gratitude_entries table; `mood` holds a Mood name, `timestamp` epoch milliseconds. */
  datatype GratitudeEntry = GratitudeEntry(id: int, text: string, mood: string, timestamp: int)

  /** The mood enumeration, in declaration order. */
  datatype Mood = HAPPY | PEACEFUL | GRATEFUL | HOPEFUL | CALM

  /** `Mood.name`. */
  function MoodName(m: Mood): string {
    match m
    case HAPPY => "HAPPY"
    case PEACEFUL => "PEACEFUL"
    case GRATEFUL => "GRATEFUL"
    case HOPEFUL => "HOPEFUL"
    case CALM => "CALM"
  }

  /** `Mood.valueOf(s)`; None where Kotlin throws IllegalArgumentException. */
  function MoodValueOf(s: string): (r: Option<Mood>)
    ensures r.Some? ==> MoodName(r.value) == s
  {
    if s == "HAPPY" then Some(HAPPY)
    else if s == "PEACEFUL" then Some(PEACEFUL)
    else if s == "GRATEFUL" then Some(GRATEFUL)
    else if s == "HOPEFUL" then Some(HOPEFUL)
    else if s == "CALM" then Some(CALM)
    else None
  }

  /** Storing a mood by name and reading it back gives the same mood. */
  lemma MoodNameRoundTrip(m: Mood)
    ensures MoodValueOf(MoodName(m)) == Some(m)
  {
  }

  /** Ids are unique: the table's primary key. */
  predicate UniqueIds(entries: seq<GratitudeEntry>) {
    forall i, j | 0 <= i < j < |entries| :: entries[i].id != entries[j].id
  }

  function Timestamp(e: GratitudeEntry): int {
    e.timestamp
  }

  /** The local date of an entry: Instant.ofEpochMilli(timestamp).atZone(zone).toLocalDate(). */
  function EntryDay(zone: Zone, e: GratitudeEntry): int {
    DayOf(zone, e.timestamp)
  }

  /** `entries.sortedByDescending { it.timestamp }`. */
  function SortedByTimestampDesc(entries: seq<GratitudeEntry>): (r: seq<GratitudeEntry>)
    ensures multiset(r) == multiset(entries)
    ensures Lists.SortedDescBy(r, Timestamp)
  {
    Lists.SortByKeyDesc(entries, Timestamp)
  }

  /** An entry's local date as a sort or filter key. */
  function DayKey(zone: Zone): GratitudeEntry -> int {
    e => EntryDay(zone, e)
  }

  /** `entries.map { local date }`. */
  function EntryDays(zone: Zone, entries: seq<GratitudeEntry>): (r: seq<int>)
    ensures |r| == |entries|
    ensures forall i | 0 <= i < |entries| :: r[i] == EntryDay(zone, entries[i])
  {
    if entries == [] then [] else [EntryDay(zone, entries[0])] + EntryDays(zone, entries[1..])
  }

  function Identity(d: int): int {
    d
  }

  /** Some entry falls on local date d. */
  ghost predicate HasEntryOn(zone: Zone, entries: seq<GratitudeEntry>, d: int) {
    exists i | 0 <= i < |entries| :: EntryDay(zone, entries[i]) == d
  }

  /**
   * The distinct local dates of the entries, latest first:
   * `map { date }.distinct().sortedDescending()`. No date appears twice and
   * each is later than the ones after it. This is the settings screen's
   * `entryDates`, and the history screen's group keys.
   */
  function DistinctDaysDesc(zone: Zone, entries: seq<GratitudeEntry>): (ds: seq<int>)
    ensures forall i, j | 0 <= i < j < |ds| :: ds[i] > ds[j]
  {
    var dist := Lists.Distinct(EntryDays(zone, entries));
    var ds := Lists.SortByKeyDesc(dist, Identity);
    Lists.NoDuplicatesPermutation(dist, ds);
    StrictWithoutDuplicates(ds);
    ds
  }

  /** Descending without a repeated value is strictly descending. */
  lemma StrictWithoutDuplicates(ds: seq<int>)
    requires Lists.NoDuplicates(ds) && Lists.SortedDescBy(ds, Identity)
    ensures forall i, j | 0 <= i < j < |ds| :: ds[i] > ds[j]
  {
    forall i, j | 0 <= i < j < |ds| ensures ds[i] > ds[j] {
      assert Identity(ds[i]) >= Identity(ds[j]);
    }
  }

  /** A date is among the distinct dates exactly when some entry falls on it. */
  lemma DistinctDaysMembers(zone: Zone, entries: seq<GratitudeEntry>, d: int)
    ensures d in DistinctDaysDesc(zone, entries) <==> HasEntryOn(zone, entries, d)
  {
    var days := EntryDays(zone, entries);
    var dist := Lists.Distinct(days);
    var ds := DistinctDaysDesc(zone, entries);
    assert d in ds <==> d in multiset(ds);
    assert d in dist <==> d in multiset(dist);
    Lists.DistinctMember(days, d);
    if d in days {
      var i :| 0 <= i < |days| && days[i] == d;
      assert EntryDay(zone, entries[i]) == d;
    }
    if HasEntryOn(zone, entries, d) {
      var i :| 0 <= i < |entries| && EntryDay(zone, entries[i]) == d;
      assert days[i] in days;
    }
  }

  /** There are no more distinct dates than entries, and none exactly when there are no entries. */
  lemma DistinctDaysCount(zone: Zone, entries: seq<GratitudeEntry>)
    ensures var ds := DistinctDaysDesc(zone, entries);
      |ds| <= |entries| && (ds == [] <==> entries == [])
  {
    var dist := Lists.Distinct(EntryDays(zone, entries));
    var ds := DistinctDaysDesc(zone, entries);
    assert |ds| == |multiset(ds)| == |multiset(dist)| == |dist|;
    if entries != [] {
      assert HasEntryOn(zone, entries, EntryDay(zone, entries[0]));
      DistinctDaysMembers(zone, entries, EntryDay(zone, entries[0]));
    }
  }
}
