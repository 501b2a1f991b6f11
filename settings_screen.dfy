/**
 * The statistics card of the Settings screen: total entries, entries this
 * week, the current streak and the most common mood, each derived from the
 * current entry list (and, for the week, today's local date).
 */
module SettingsScreen {
  import opened Wrappers
  import opened Calendar
  import opened Entries
  import opened Text
  import Lists

  /** `entries.size`: every entry counts once, and the count is 0 only for an empty journal. */
  function TotalEntries(entries: seq<GratitudeEntry>): (n: nat)
    ensures n == |multiset(entries)|
    ensures n == 0 <==> entries == []
  {
    |entries|
  }

  /**
   * The week filter: the local date is after `today.minusDays(6).minusDays(1)`.
   * There is no upper bound, so entries dated after today pass too.
   */
  predicate InThisWeek(zone: Zone, today: int, e: GratitudeEntry) {
    EntryDay(zone, e) > (today - 6) - 1
  }

  /** An entry dated tomorrow still raises "This Week": the filter has no upper bound. */
  lemma FutureEntryCountsThisWeek(zone: Zone, today: int, entries: seq<GratitudeEntry>, e: GratitudeEntry)
    requires EntryDay(zone, e) == today + 1
    ensures EntriesThisWeek(zone, today, entries + [e]) == EntriesThisWeek(zone, today, entries) + 1
  {
    WeekCountAdd(zone, today, entries, e);
  }

  /** The seven local days ending today, both ends included. */
  predicate InWindow(zone: Zone, today: int, e: GratitudeEntry) {
    today - 6 <= EntryDay(zone, e) <= today
  }

  /** Every entry falls in the seven days ending today. */
  predicate AllInWindow(zone: Zone, today: int, entries: seq<GratitudeEntry>) {
    forall i | 0 <= i < |entries| :: InWindow(zone, today, entries[i])
  }

  /** No entry falls in the seven days ending today. */
  predicate NoneInWindow(zone: Zone, today: int, entries: seq<GratitudeEntry>) {
    forall i | 0 <= i < |entries| :: !InWindow(zone, today, entries[i])
  }

  /**
   * The weekly count with the window closed on both sides: the entries dated
   * today - 6 to today.
   */
  function EntriesInWindow(zone: Zone, today: int, entries: seq<GratitudeEntry>): (n: nat)
    ensures n <= |entries|
    ensures n == 0 <==> NoneInWindow(zone, today, entries)
  {
    if entries == [] then 0
    else
      (if InWindow(zone, today, entries[0]) then 1 else 0) + EntriesInWindow(zone, today, entries[1..])
  }

  /** The window count is the whole journal exactly when every entry is in the window. */
  lemma {:induction false} WindowCountsAll(zone: Zone, today: int, entries: seq<GratitudeEntry>)
    ensures EntriesInWindow(zone, today, entries) == |entries| <==> AllInWindow(zone, today, entries)
  {
    if entries != [] {
      WindowCountsAll(zone, today, entries[1..]);
      if AllInWindow(zone, today, entries) {
        assert forall i | 0 <= i < |entries[1..]| :: entries[1..][i] == entries[i + 1];
      } else if AllInWindow(zone, today, entries[1..]) {
        assert !InWindow(zone, today, entries[0]) by {
          forall i | 1 <= i < |entries| ensures InWindow(zone, today, entries[i]) {
            assert entries[i] == entries[1..][i - 1];
          }
        }
      }
    }
  }

  /**
   * The window count never exceeds the as-written count, and the two agree
   * exactly when no entry is dated after today.
   */
  lemma {:induction false} WindowVersusThisWeek(zone: Zone, today: int, entries: seq<GratitudeEntry>)
    ensures EntriesInWindow(zone, today, entries) <= EntriesThisWeek(zone, today, entries)
    ensures EntriesInWindow(zone, today, entries) == EntriesThisWeek(zone, today, entries) <==>
      forall i | 0 <= i < |entries| :: EntryDay(zone, entries[i]) <= today
  {
    if entries != [] {
      WindowVersusThisWeek(zone, today, entries[1..]);
      if forall i | 0 <= i < |entries| :: EntryDay(zone, entries[i]) <= today {
        assert forall i | 0 <= i < |entries[1..]| :: EntryDay(zone, entries[1..][i]) <= today by {
          forall i | 0 <= i < |entries[1..]| ensures EntryDay(zone, entries[1..][i]) <= today {
            assert entries[1..][i] == entries[i + 1];
          }
        }
      } else {
        var j :| 0 <= j < |entries| && EntryDay(zone, entries[j]) > today;
        if j > 0 {
          assert entries[1..][j - 1] == entries[j];
        }
      }
    }
  }

  /**
   * Adding an entry raises the window count by one exactly when its date is
   * within today - 6 to today; past and future dates leave it unchanged.
   */
  lemma {:induction false} WindowCountAdd(zone: Zone, today: int, entries: seq<GratitudeEntry>, e: GratitudeEntry)
    ensures EntriesInWindow(zone, today, entries + [e])
            == EntriesInWindow(zone, today, entries) + (if today - 6 <= EntryDay(zone, e) <= today then 1 else 0)
  {
    if entries != [] {
      assert (entries + [e])[1..] == entries[1..] + [e];
      WindowCountAdd(zone, today, entries[1..], e);
    }
  }

  /** An entry made no earlier than one that counts for the week counts too. */
  lemma InThisWeekUpwardClosed(zone: Zone, today: int, e: GratitudeEntry, later: GratitudeEntry)
    requires InThisWeek(zone, today, e) && e.timestamp <= later.timestamp
    ensures InThisWeek(zone, today, later)
  {
    DayOfMonotone(zone, e.timestamp, later.timestamp);
  }

  /** `entries.count { local date is after today - 7 days }`. */
  function EntriesThisWeek(zone: Zone, today: int, entries: seq<GratitudeEntry>): (n: nat)
    ensures n <= TotalEntries(entries)
    ensures n == TotalEntries(entries) <==> forall i | 0 <= i < |entries| :: InThisWeek(zone, today, entries[i])
    ensures n == 0 <==> forall i | 0 <= i < |entries| :: !InThisWeek(zone, today, entries[i])
  {
    if entries == [] then 0
    else
      (if InThisWeek(zone, today, entries[0]) then 1 else 0) + EntriesThisWeek(zone, today, entries[1..])
  }

  /**
   * Adding an entry raises the week count by one exactly when its date is
   * today - 6 or later (a future date included), and leaves it unchanged otherwise.
   */
  lemma {:induction false} WeekCountAdd(zone: Zone, today: int, entries: seq<GratitudeEntry>, e: GratitudeEntry)
    ensures EntriesThisWeek(zone, today, entries + [e])
            == EntriesThisWeek(zone, today, entries) + (if EntryDay(zone, e) >= today - 6 then 1 else 0)
  {
    if entries != [] {
      assert (entries + [e])[1..] == entries[1..] + [e];
      WeekCountAdd(zone, today, entries[1..], e);
    }
  }

  /**
   * `entryDates.zipWithNext().takeWhile { (a, b) -> a.minusDays(1) == b }.count()`:
   * how many leading neighbours are one day apart.
   */
  function LeadingConsecutivePairs(ds: seq<int>): (n: nat)
    ensures ds != [] ==> n < |ds|
    ensures forall k | 0 <= k <= n && k < |ds| :: ds[k] == ds[0] - k
    ensures n + 1 < |ds| ==> ds[n + 1] != ds[0] - (n + 1)
  {
    if |ds| < 2 || ds[0] - 1 != ds[1] then 0 else 1 + LeadingConsecutivePairs(ds[1..])
  }

  /**
   * `if (entryDates.isEmpty()) 0 else <leading consecutive pairs> + 1`: 0
   * exactly when there are no entries, and otherwise between 1 and the number
   * of distinct dates.
   */
  function CurrentStreak(zone: Zone, entries: seq<GratitudeEntry>): (streak: nat)
    ensures streak == 0 <==> entries == []
    ensures entries != [] ==> 1 <= streak <= |DistinctDaysDesc(zone, entries)|
    ensures streak <= |entries|
  {
    DistinctDaysCount(zone, entries);
    var ds := DistinctDaysDesc(zone, entries);
    if ds == [] then 0 else LeadingConsecutivePairs(ds) + 1
  }

  /**
   * The streak is the length of the longest run of consecutive days, each with
   * an entry, that ends at the latest entry date. Today plays no part: a run
   * that ended long ago still counts.
   */
  lemma StreakIsRunEndingAtLatest(zone: Zone, entries: seq<GratitudeEntry>)
    requires entries != []
    ensures var latest := DistinctDaysDesc(zone, entries)[0];
      var streak := CurrentStreak(zone, entries);
      && (forall i | 0 <= i < |entries| :: EntryDay(zone, entries[i]) <= latest)
      && (forall d | latest - streak < d <= latest :: HasEntryOn(zone, entries, d))
      && !HasEntryOn(zone, entries, latest - streak)
  {
    var ds := DistinctDaysDesc(zone, entries);
    DistinctDaysCount(zone, entries);
    var latest := ds[0];
    var streak := CurrentStreak(zone, entries);
    forall i | 0 <= i < |entries| ensures EntryDay(zone, entries[i]) <= latest {
      assert HasEntryOn(zone, entries, EntryDay(zone, entries[i]));
      DistinctDaysMembers(zone, entries, EntryDay(zone, entries[i]));
    }
    forall d | latest - streak < d <= latest ensures HasEntryOn(zone, entries, d) {
      var k := latest - d;
      assert 0 <= k < streak && ds[k] == d;
      DistinctDaysMembers(zone, entries, d);
    }
    forall j | 0 <= j < |ds| ensures ds[j] != latest - streak {
      if j < streak {
        assert ds[j] == latest - j;
      } else if j > streak {
        assert ds[streak - 1] == latest - (streak - 1);
        assert ds[streak - 1] > ds[streak] > ds[j];
      }
    }
    DistinctDaysMembers(zone, entries, latest - streak);
  }

  /** `entries.map { it.mood }`. */
  function Moods(entries: seq<GratitudeEntry>): (r: seq<string>)
    ensures |r| == |entries|
    ensures forall i | 0 <= i < |entries| :: r[i] == entries[i].mood
  {
    if entries == [] then [] else [entries[0].mood] + Moods(entries[1..])
  }

  /**
   * `maxByOrNull { it.value }` over the (key, count) pairs: the index of the
   * candidate so far is `best`, and the pairs from `next` on are still to be
   * seen. A later key replaces the candidate only when its count is strictly
   * larger, so the first key with the largest count wins.
   */
  function FirstMaxIndex(keys: seq<string>, counts: multiset<string>, best: nat, next: nat): (r: nat)
    requires best < next <= |keys|
    requires forall j | 0 <= j < next :: counts[keys[j]] <= counts[keys[best]]
    requires forall j | 0 <= j < best :: counts[keys[j]] < counts[keys[best]]
    ensures best <= r < |keys|
    ensures forall j | 0 <= j < |keys| :: counts[keys[j]] <= counts[keys[r]]
    ensures forall j | 0 <= j < r :: counts[keys[j]] < counts[keys[r]]
    decreases |keys| - next
  {
    if next == |keys| then best
    else if counts[keys[best]] < counts[keys[next]] then FirstMaxIndex(keys, counts, next, next + 1)
    else FirstMaxIndex(keys, counts, best, next + 1)
  }

  /**
   * `groupingBy { it.mood }.eachCount().maxByOrNull { it.value }?.key`: the
   * map's keys come in order of first occurrence and each maps to its count.
   * There is no key exactly when there are no entries, and the key is always
   * some entry's mood.
   */
  function MostCommonMoodKey(entries: seq<GratitudeEntry>): (key: Option<string>)
    ensures key.None? <==> entries == []
    ensures key.Some? ==> exists i | 0 <= i < |entries| :: entries[i].mood == key.value
  {
    var moods := Moods(entries);
    var keys := Lists.Distinct(moods);
    assert entries != [] ==> keys != [] by {
      if entries != [] {
        Lists.DistinctMember(moods, moods[0]);
      }
    }
    if keys == [] then None
    else
      var k := keys[FirstMaxIndex(keys, multiset(moods), 0, 1)];
      CountedMoodOccurs(entries, k);
      Some(k)
  }

  /** A key of the count map is the mood of some entry. */
  lemma CountedMoodOccurs(entries: seq<GratitudeEntry>, k: string)
    requires k in Lists.Distinct(Moods(entries))
    ensures exists i | 0 <= i < |entries| :: entries[i].mood == k
  {
    Lists.DistinctMember(Moods(entries), k);
    MoodOccurs(entries, k);
  }

  lemma MoodOccurs(entries: seq<GratitudeEntry>, k: string)
    requires k in Moods(entries)
    ensures exists i | 0 <= i < |entries| :: entries[i].mood == k
  {
    var moods := Moods(entries);
    var i :| 0 <= i < |moods| && moods[i] == k;
    assert moods[i] == entries[i].mood;
  }

  /**
   * No mood occurs more often than the most common one, and among moods that
   * occur equally often it is the one met first in the list.
   */
  lemma MostCommonMoodIsFirstMaximal(entries: seq<GratitudeEntry>, i: int)
    requires 0 <= i < |entries|
    ensures MostCommonMoodKey(entries).Some?
    ensures var k := MostCommonMoodKey(entries).value;
      var counts := multiset(Moods(entries));
      && counts[entries[i].mood] <= counts[k]
      && (counts[entries[i].mood] == counts[k] ==> k in Moods(entries)[..i + 1])
  {
    var moods := Moods(entries);
    var keys := Lists.Distinct(moods);
    var a := Lists.DistinctIndex(moods, moods[i]);
    var counts := multiset(moods);
    var r := FirstMaxIndex(keys, counts, 0, 1);
    assert MostCommonMoodKey(entries) == Some(keys[r]);
    assert entries[i].mood == keys[a];
    assert counts[keys[a]] <= counts[keys[r]];
    if counts[keys[a]] == counts[keys[r]] {
      assert r <= a;
      Lists.DistinctEarlierOccursEarlier(moods, i, a, r);
    }
  }

  /** The dash the card shows when there is no entry: U+2014 EM DASH. */
  const EmDash: char := '\U{2014}'

  /**
   * The placeholder literal as the source file spells it: the three characters
   * U+00E2 U+20AC U+201D.
   */
  const PlaceholderAsWritten: string := "\U{00E2}\U{20AC}\U{201D}"

  /** The "Common Mood" card text as written: the display name of the key, else the literal above. */
  function MostCommonMoodLabelAsWritten(entries: seq<GratitudeEntry>): (shown: string)
    ensures entries == [] ==> shown == PlaceholderAsWritten
    ensures entries != [] ==> exists i | 0 <= i < |entries| :: shown == DisplayName(entries[i].mood)
  {
    match MostCommonMoodKey(entries)
    case Some(k) => DisplayName(k)
    case None => PlaceholderAsWritten
  }

  /**
   * The literal is the em dash's UTF-8 bytes read back as Windows-1252 text, so
   * an empty journal shows three stray characters instead of one dash.
   */
  lemma PlaceholderIsMisdecodedDash()
    ensures Cp1252Decode(Utf8Encode3(EmDash)) == PlaceholderAsWritten
    ensures MostCommonMoodLabelAsWritten([]) == PlaceholderAsWritten != [EmDash]
  {
    assert Utf8Encode3(EmDash) == [0xE2, 0x80, 0x94];
    assert Cp1252Char(0xE2) == '\U{00E2}';
    assert Cp1252Char(0x80) == '\U{20AC}';
    assert Cp1252Char(0x94) == '\U{201D}';
    assert Cp1252Decode([0x94]) == "\U{201D}";
    assert Cp1252Decode([0x80, 0x94]) == "\U{20AC}\U{201D}";
  }

  /**
   * The "Common Mood" card text: the most common mood's key in display form
   * ("CALM" becomes "Calm"), or a single em dash for an empty journal.
   */
  function MostCommonMoodLabel(entries: seq<GratitudeEntry>): (shown: string)
    ensures entries == [] ==> shown == [EmDash]
    ensures entries != [] ==> exists i | 0 <= i < |entries| :: shown == DisplayName(entries[i].mood)
  {
    match MostCommonMoodKey(entries)
    case Some(k) => DisplayName(k)
    case None => [EmDash]
  }

  /** `shown` is the display name of a mood no other entry's mood outnumbers. */
  ghost predicate NamesMostCommonMood(entries: seq<GratitudeEntry>, shown: string) {
    forall i | 0 <= i < |entries| :: exists j | 0 <= j < |entries| ::
      && shown == DisplayName(entries[j].mood)
      && multiset(Moods(entries))[entries[i].mood] <= multiset(Moods(entries))[entries[j].mood]
  }

  /** The label names a mood that occurs at least as often as every entry's mood. */
  lemma LabelNamesMostCommonMood(entries: seq<GratitudeEntry>)
    ensures NamesMostCommonMood(entries, MostCommonMoodLabel(entries))
  {
    var counts := multiset(Moods(entries));
    forall i | 0 <= i < |entries| ensures exists j | 0 <= j < |entries| ::
      && MostCommonMoodLabel(entries) == DisplayName(entries[j].mood)
      && counts[entries[i].mood] <= counts[entries[j].mood]
    {
      MostCommonMoodIsFirstMaximal(entries, i);
      var k := MostCommonMoodKey(entries).value;
      var j :| 0 <= j < |entries| && entries[j].mood == k;
      assert MostCommonMoodLabel(entries) == DisplayName(entries[j].mood);
    }
  }

  /** The four statistics the card shows. */
  datatype Stats = Stats(total: nat, thisWeek: nat, streak: nat, commonMood: string)

  /**
   * The card's four values. "This Week" counts the entries dated in the seven
   * days ending today. The mood card shows the display name of a most frequent
   * mood, and a single em dash for an empty journal.
   */
  function ComputeStats(zone: Zone, today: int, entries: seq<GratitudeEntry>): (s: Stats)
    ensures s.thisWeek <= s.total == |entries|
    ensures s.streak == 0 <==> s.total == 0
    ensures s.streak <= s.total
    ensures s.total == 0 ==> s.commonMood == [EmDash]
    ensures NamesMostCommonMood(entries, s.commonMood)
  {
    var week := EntriesInWindow(zone, today, entries);
    var streak := CurrentStreak(zone, entries);
    var mood := MostCommonMoodLabel(entries);
    LabelNamesMostCommonMood(entries);
    Stats(TotalEntries(entries), week, streak, mood)
  }

  /**
   * The "This Week" card shows the count of entries dated in the seven days
   * ending today, which never exceeds the count the source shows.
   */
  lemma StatsWeekIsWindow(zone: Zone, today: int, entries: seq<GratitudeEntry>)
    ensures ComputeStats(zone, today, entries).thisWeek == EntriesInWindow(zone, today, entries)
    ensures ComputeStats(zone, today, entries).thisWeek <= EntriesThisWeek(zone, today, entries)
  {
    WindowVersusThisWeek(zone, today, entries);
  }
}
