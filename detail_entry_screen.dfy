/**
 * The Detail Entry screen: one entry shown read-only, with chevrons to the
 * neighbouring entries in timestamp order, an edit mode (text, mood, date)
 * whose Save writes back a copy of the entry, and a confirmed delete.
 */
module DetailEntryScreen {
  import opened Wrappers
  import opened Calendar
  import opened DatePicker
  import opened Entries
  import Lists

  /** `entries.value.firstOrNull { it.id == id }`. */
  function FindEntryById(entries: seq<GratitudeEntry>, id: int): (found: Option<GratitudeEntry>)
    ensures found.None? <==> forall i | 0 <= i < |entries| :: entries[i].id != id
    ensures found.Some? ==> exists i | 0 <= i < |entries| :: entries[i] == found.value && found.value.id == id
  {
    if entries == [] then None
    else if entries[0].id == id then Some(entries[0])
    else
      var rest := FindEntryById(entries[1..], id);
      assert forall i | 1 <= i < |entries| :: entries[i] == entries[1..][i - 1];
      rest
  }

  /** `indexOfFirst { it.id == id }`: the first position holding that id, or -1. */
  function IndexOfFirstId(entries: seq<GratitudeEntry>, id: int): (index: int)
    ensures -1 <= index < |entries|
    ensures index == -1 <==> forall i | 0 <= i < |entries| :: entries[i].id != id
    ensures index >= 0 ==> entries[index].id == id && forall i | 0 <= i < index :: entries[i].id != id
  {
    if entries == [] then -1
    else if entries[0].id == id then 0
    else
      var k := IndexOfFirstId(entries[1..], id);
      assert forall i | 1 <= i < |entries| :: entries[i] == entries[1..][i - 1];
      if k == -1 then -1 else k + 1
  }

  /** Permuting a list keeps its ids unique. */
  lemma UniqueIdsPermutation(s: seq<GratitudeEntry>, t: seq<GratitudeEntry>)
    requires UniqueIds(s) && multiset(s) == multiset(t)
    ensures UniqueIds(t)
  {
    assert Lists.NoDuplicates(s);
    Lists.NoDuplicatesPermutation(s, t);
    forall i, j | 0 <= i < j < |t| ensures t[i].id != t[j].id {
      assert t[i] in multiset(s) && t[j] in multiset(s);
      var a :| 0 <= a < |s| && s[a] == t[i];
      var b :| 0 <= b < |s| && s[b] == t[j];
      assert a == b || s[a].id != s[b].id;
    }
  }

  /** With unique ids, the position of an entry's id is that entry's position. */
  lemma IndexOfOwnId(s: seq<GratitudeEntry>, i: int)
    requires UniqueIds(s) && 0 <= i < |s|
    ensures IndexOfFirstId(s, s[i].id) == i
  {
  }

  /**
   * The left chevron ("Previous entry"): enabled when the entry is not the
   * last in the newest-first order, and leads to the one after it, i.e. the
   * next older entry.
   */
  function PreviousEntry(sorted: seq<GratitudeEntry>, index: int): (target: Option<GratitudeEntry>)
    requires -1 <= index < |sorted|
    ensures target.Some? <==> index < |sorted| - 1
    ensures target.Some? && index >= 0 && Lists.SortedDescBy(sorted, Timestamp) ==>
      target.value.timestamp <= sorted[index].timestamp
    ensures target.Some? ==> target.value in sorted
  {
    if index < |sorted| - 1 then Some(sorted[index + 1]) else None
  }

  /**
   * The right chevron ("Next entry"): enabled when the entry is not the first
   * (newest), and leads to the one before it, i.e. the next newer entry.
   */
  function NextEntry(sorted: seq<GratitudeEntry>, index: int): (target: Option<GratitudeEntry>)
    requires -1 <= index < |sorted|
    ensures target.Some? <==> index > 0
    ensures target.Some? && Lists.SortedDescBy(sorted, Timestamp) ==>
      target.value.timestamp >= sorted[index].timestamp
    ensures target.Some? ==> target.value in sorted
  {
    if index > 0 then Some(sorted[index - 1]) else None
  }

  /** On a list with unique ids, the two chevrons undo each other from any position. */
  lemma NeighboursAreInverse(sorted: seq<GratitudeEntry>, index: int)
    requires UniqueIds(sorted) && 0 <= index < |sorted|
    ensures PreviousEntry(sorted, index).Some? ==>
      NextEntry(sorted, IndexOfFirstId(sorted, PreviousEntry(sorted, index).value.id)) == Some(sorted[index])
    ensures NextEntry(sorted, index).Some? ==>
      PreviousEntry(sorted, IndexOfFirstId(sorted, NextEntry(sorted, index).value.id)) == Some(sorted[index])
  {
    if index < |sorted| - 1 {
      IndexOfOwnId(sorted, index + 1);
    }
    if index > 0 {
      IndexOfOwnId(sorted, index - 1);
    }
  }

  /**
   * Going to the previous entry and then to that entry's next one comes back,
   * and the other way round, when ids are unique.
   */
  lemma ChevronsAreInverse(entries: seq<GratitudeEntry>, id: int)
    requires UniqueIds(entries)
    ensures var sorted := SortedByTimestampDesc(entries);
      var index := IndexOfFirstId(sorted, id);
      index >= 0 ==>
        (PreviousEntry(sorted, index).Some? ==>
          NextEntry(sorted, IndexOfFirstId(sorted, PreviousEntry(sorted, index).value.id)) == Some(sorted[index])) &&
        (NextEntry(sorted, index).Some? ==>
          PreviousEntry(sorted, IndexOfFirstId(sorted, NextEntry(sorted, index).value.id)) == Some(sorted[index]))
  {
    var sorted := SortedByTimestampDesc(entries);
    UniqueIdsPermutation(entries, sorted);
    var index := IndexOfFirstId(sorted, id);
    if index >= 0 {
      NeighboursAreInverse(sorted, index);
    }
  }

  /** The state of one Detail Entry screen. */
  class DetailState {
    const zone: Zone
    const entry: GratitudeEntry
    /** `allEntries.sortedByDescending { it.timestamp }`. */
    const sortedEntries: seq<GratitudeEntry>
    /** The position of the entry's id in `sortedEntries`. */
    const currentIndex: int
    var isEditing: bool
    var text: string
    var selectedMood: Mood
    var selectedDate: int
    var showDatePicker: bool
    var showDeleteDialog: bool

    /**
     * The opened entry sits at `currentIndex` in the sorted list. It reads only
     * the constant fields `entry`, `sortedEntries` and `currentIndex`, so the
     * mutators below, which change only the `var` fields, keep it.
     */
    ghost predicate Valid()
      reads this
    {
      0 <= currentIndex < |sortedEntries| && sortedEntries[currentIndex].id == entry.id
    }

    /**
     * The screen opened on `entry`, found in `allEntries` by its id: view mode,
     * the fields start from the entry, no dialog open. The stored mood must be
     * a Mood name (`Mood.valueOf` throws otherwise).
     */
    constructor (zone: Zone, allEntries: seq<GratitudeEntry>, entry: GratitudeEntry)
      requires entry in allEntries
      requires MoodValueOf(entry.mood).Some?
      ensures Valid()
      ensures this.zone == zone && this.entry == entry
      ensures sortedEntries == SortedByTimestampDesc(allEntries)
      ensures currentIndex == IndexOfFirstId(sortedEntries, entry.id)
      ensures !isEditing && !showDatePicker && !showDeleteDialog
      ensures text == entry.text && MoodName(selectedMood) == entry.mood
      ensures selectedDate == EntryDay(zone, entry)
    {
      this.zone := zone;
      this.entry := entry;
      var sorted := SortedByTimestampDesc(allEntries);
      assert entry in multiset(sorted);
      sortedEntries := sorted;
      currentIndex := IndexOfFirstId(sorted, entry.id);
      isEditing := false;
      text := entry.text;
      selectedMood := MoodValueOf(entry.mood).value;
      selectedDate := DayOf(zone, entry.timestamp);
      showDatePicker := false;
      showDeleteDialog := false;
    }

    /** The left chevron's target; disabled while editing. */
    function PreviousTarget(): (target: Option<GratitudeEntry>)
      reads this
      requires Valid()
      ensures target.Some? <==> !isEditing && currentIndex < |sortedEntries| - 1
      ensures target.Some? ==> target == PreviousEntry(sortedEntries, currentIndex)
    {
      if !isEditing then PreviousEntry(sortedEntries, currentIndex) else None
    }

    /** The right chevron's target; disabled while editing. */
    function NextTarget(): (target: Option<GratitudeEntry>)
      reads this
      requires Valid()
      ensures target.Some? <==> !isEditing && currentIndex > 0
      ensures target.Some? ==> target == NextEntry(sortedEntries, currentIndex)
    {
      if !isEditing then NextEntry(sortedEntries, currentIndex) else None
    }

    /** "Edit entry". */
    method EditClicked()
      modifies this
      ensures isEditing
      ensures text == old(text) && selectedMood == old(selectedMood) && selectedDate == old(selectedDate)
      ensures showDatePicker == old(showDatePicker) && showDeleteDialog == old(showDeleteDialog)
    {
      isEditing := true;
    }

    /** Typing in the text field, which is disabled outside edit mode. */
    method TextChanged(newText: string)
      modifies this
      ensures text == if old(isEditing) then newText else old(text)
      ensures isEditing == old(isEditing) && selectedMood == old(selectedMood) && selectedDate == old(selectedDate)
      ensures showDatePicker == old(showDatePicker) && showDeleteDialog == old(showDeleteDialog)
    {
      if isEditing {
        text := newText;
      }
    }

    /** Clicking a mood tile, which is disabled outside edit mode. */
    method MoodClicked(mood: Mood)
      modifies this
      ensures selectedMood == if old(isEditing) then mood else old(selectedMood)
      ensures isEditing == old(isEditing) && text == old(text) && selectedDate == old(selectedDate)
      ensures showDatePicker == old(showDatePicker) && showDeleteDialog == old(showDeleteDialog)
    {
      if isEditing {
        selectedMood := mood;
      }
    }

    /** Clicking the date, which opens the picker only in edit mode. */
    method DateClicked()
      modifies this
      ensures showDatePicker == (old(showDatePicker) || old(isEditing))
      ensures isEditing == old(isEditing) && text == old(text) && selectedMood == old(selectedMood)
      ensures selectedDate == old(selectedDate) && showDeleteDialog == old(showDeleteDialog)
    {
      if isEditing {
        showDatePicker := true;
      }
    }

    /** `initialSelectedDateMillis`: the start of the selected day in the system zone. */
    function PickerInitialMillis(): int
      reads this
    {
      InitialMillisAsWritten(zone, selectedDate)
    }

    /**
     * OK in the picker with day `picked` chosen: its UTC midnight read in the
     * system zone becomes the selected date, which west of UTC is the day
     * before. With nothing picked the date stays.
     */
    method PickerConfirmed(picked: Option<int>)
      modifies this
      ensures !showDatePicker
      ensures selectedDate == if picked.Some? then ConfirmedDateAsWritten(zone, SelectedMillis(picked.value)) else old(selectedDate)
      ensures picked.Some? ==> selectedDate == if zone.offsetMillis < 0 then picked.value - 1 else picked.value
      ensures isEditing == old(isEditing) && text == old(text) && selectedMood == old(selectedMood)
      ensures showDeleteDialog == old(showDeleteDialog)
    {
      if picked.Some? {
        ReadsPickedDateAsWritten(zone, picked.value);
        selectedDate := ConfirmedDateAsWritten(zone, SelectedMillis(picked.value));
      }
      showDatePicker := false;
    }

    /** Cancelling or dismissing the picker. */
    method PickerDismissed()
      modifies this
      ensures !showDatePicker
      ensures isEditing == old(isEditing) && text == old(text) && selectedMood == old(selectedMood)
      ensures selectedDate == old(selectedDate) && showDeleteDialog == old(showDeleteDialog)
    {
      showDatePicker := false;
    }

    /**
     * "Save changes", shown only in edit mode: the entry to write back is a
     * copy with the same id, the edited text, the selected mood's name and
     * the start of the selected day as its timestamp.
     */
    method SaveClicked() returns (updated: GratitudeEntry)
      requires isEditing
      ensures updated.id == entry.id
      ensures updated.text == text
      ensures MoodValueOf(updated.mood) == Some(selectedMood)
      ensures EntryDay(zone, updated) == selectedDate
      ensures updated.timestamp == StartOfDay(zone, selectedDate)
    {
      MoodNameRoundTrip(selectedMood);
      DayOfStartOfDay(zone, selectedDate, 0);
      updated := entry.(text := text, mood := MoodName(selectedMood), timestamp := StartOfDay(zone, selectedDate));
    }

    /** "Delete" only opens the confirmation dialog. */
    method DeleteClicked()
      modifies this
      ensures showDeleteDialog
      ensures isEditing == old(isEditing) && text == old(text) && selectedMood == old(selectedMood)
      ensures selectedDate == old(selectedDate) && showDatePicker == old(showDatePicker)
    {
      showDeleteDialog := true;
    }

    /** The dialog's "Delete": the entry to delete is the one the screen opened on. */
    method DeleteConfirmed() returns (deleted: GratitudeEntry)
      requires showDeleteDialog
      modifies this
      ensures deleted == entry && !showDeleteDialog
      ensures isEditing == old(isEditing) && text == old(text) && selectedMood == old(selectedMood)
      ensures selectedDate == old(selectedDate) && showDatePicker == old(showDatePicker)
    {
      deleted := entry;
      showDeleteDialog := false;
    }

    /** "Cancel", or dismissing the dialog: nothing is deleted. */
    method DeleteCancelled()
      modifies this
      ensures !showDeleteDialog
      ensures isEditing == old(isEditing) && text == old(text) && selectedMood == old(selectedMood)
      ensures selectedDate == old(selectedDate) && showDatePicker == old(showDatePicker)
    {
      showDeleteDialog := false;
    }
  }

  /**
   * Opening `detail/{id}`: the screen shows nothing when no entry has that id,
   * and otherwise opens on the first entry with it.
   */
  method OpenDetail(zone: Zone, allEntries: seq<GratitudeEntry>, id: int) returns (screen: Option<DetailState>)
    requires FindEntryById(allEntries, id).Some? ==> MoodValueOf(FindEntryById(allEntries, id).value.mood).Some?
    ensures screen.None? <==> forall i | 0 <= i < |allEntries| :: allEntries[i].id != id
    ensures screen.Some? ==> screen.value.Valid() && !screen.value.isEditing
    ensures screen.Some? ==> Some(screen.value.entry) == FindEntryById(allEntries, id)
  {
    var found := FindEntryById(allEntries, id);
    if found.None? {
      screen := None;
    } else {
      var detail := new DetailState(zone, allEntries, found.value);
      screen := Some(detail);
    }
  }

  /**
   * Editing and saving without changing anything keeps the id, text and mood
   * but moves the timestamp back to the start of its local day.
   */
  method SaveWithoutChanges(zone: Zone, allEntries: seq<GratitudeEntry>, entry: GratitudeEntry)
    returns (saved: GratitudeEntry)
    requires entry in allEntries && MoodValueOf(entry.mood).Some?
    ensures saved.id == entry.id && saved.text == entry.text && saved.mood == entry.mood
    ensures EntryDay(zone, saved) == EntryDay(zone, entry)
    ensures saved.timestamp == StartOfDay(zone, EntryDay(zone, entry))
    ensures saved.timestamp <= entry.timestamp < saved.timestamp + MillisPerDay
  {
    var detail := new DetailState(zone, allEntries, entry);
    detail.EditClicked();
    saved := detail.SaveClicked();
    DayOfStartOfDay(zone, EntryDay(zone, entry), entry.timestamp);
  }
}
