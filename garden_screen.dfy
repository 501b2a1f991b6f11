/**
 * The Garden screen: the plant's growth stage, the entry-count caption, the
 * day selector with its chevrons and date picker, and the ring of day dots.
 */
module GardenScreen {
  import opened Wrappers
  import opened Calendar
  import opened DatePicker
  import opened Text

  /** The entry counts at which the plant reaches stages 2, 3, 4 and 5. */
  const StageThresholds: seq<int> := [3, 6, 10, 15]

  /** How many of the thresholds a count has reached. */
  function ThresholdsReached(thresholds: seq<int>, count: int): nat {
    if thresholds == [] then 0
    else (if thresholds[0] <= count then 1 else 0) + ThresholdsReached(thresholds[1..], count)
  }

  lemma {:induction false} ThresholdsReachedMonotone(thresholds: seq<int>, m: int, n: int)
    requires m <= n
    ensures ThresholdsReached(thresholds, m) <= ThresholdsReached(thresholds, n)
  {
    if thresholds != [] {
      ThresholdsReachedMonotone(thresholds[1..], m, n);
    }
  }

  lemma StageThresholdsUnrolled(n: int)
    ensures ThresholdsReached(StageThresholds, n) ==
      (if 3 <= n then 1 else 0) + (if 6 <= n then 1 else 0) + (if 10 <= n then 1 else 0) + (if 15 <= n then 1 else 0)
  {
    var t := StageThresholds;
    assert t[1..] == [6, 10, 15];
    assert ThresholdsReached([15], n) == (if 15 <= n then 1 else 0) + ThresholdsReached([15][1..], n);
    assert ThresholdsReached([10, 15], n) == (if 10 <= n then 1 else 0) + ThresholdsReached([15], n) by {
      assert [10, 15][1..] == [15];
    }
    assert ThresholdsReached([6, 10, 15], n) == (if 6 <= n then 1 else 0) + ThresholdsReached([10, 15], n) by {
      assert [6, 10, 15][1..] == [10, 15];
    }
  }

  /**
   * `PlantStageImage`'s `when`: stage 1 below 3 entries, 2 below 6, 3 below 10,
   * 4 below 15, and 5 from 15 on; that is, one more than the number of
   * thresholds reached.
   */
  function PlantStage(totalEntries: int): (stage: int)
    ensures 1 <= stage <= 5
    ensures stage == 1 + ThresholdsReached(StageThresholds, totalEntries)
  {
    StageThresholdsUnrolled(totalEntries);
    if totalEntries < 3 then 1
    else if totalEntries < 6 then 2
    else if totalEntries < 10 then 3
    else if totalEntries < 15 then 4
    else 5
  }

  /** The plant never shrinks as entries are added. */
  lemma PlantStageMonotone(m: int, n: int)
    requires m <= n
    ensures PlantStage(m) <= PlantStage(n)
  {
    ThresholdsReachedMonotone(StageThresholds, m, n);
  }

  const NoMomentsText := "No moments of gratitude yet"
  const OneMomentText := "1 moment of gratitude"
  const MomentsSuffix := " moments of gratitude"

  /**
   * The caption above the plant: `when (entryCount)` with cases 0, 1 and else.
   * Every count but 0 is spelled as its digits followed by the phrase, singular
   * for one entry and plural otherwise.
   */
  function EntryCountText(entryCount: nat): (caption: string)
    ensures entryCount == 0 ==> caption == NoMomentsText
    ensures entryCount >= 1 ==>
      caption == NatToString(entryCount) + (if entryCount == 1 then " moment of gratitude" else MomentsSuffix)
  {
    assert NatToString(1) == "1";
    if entryCount == 0 then NoMomentsText
    else if entryCount == 1 then OneMomentText
    else NatToString(entryCount) + MomentsSuffix
  }

  /**
   * The caption names the count: it starts with the count's digits unless there
   * are none, and different counts never share a caption.
   */
  lemma EntryCountTextNamesCount(m: nat, n: nat)
    ensures m >= 1 ==> EntryCountText(m)[..|NatToString(m)|] == NatToString(m)
    ensures EntryCountText(m) == EntryCountText(n) ==> m == n
  {
    if m == 1 {
      assert NatToString(1) == "1";
    }
    if EntryCountText(m) == EntryCountText(n) && m != n {
      CaptionsDiffer(m, n);
    }
  }

  lemma CaptionsDiffer(m: nat, n: nat)
    requires m != n
    ensures EntryCountText(m) != EntryCountText(n)
  {
    if m >= 2 && n >= 2 {
      if EntryCountText(m) == EntryCountText(n) {
        var a, b := NatToString(m), NatToString(n);
        assert |a| == |b|;
        assert a == (a + MomentsSuffix)[..|a|] == (b + MomentsSuffix)[..|b|] == b;
        NatToStringInjective(m, n);
      }
    } else if m >= 2 || n >= 2 {
      var k := if m >= 2 then m else n;
      var other := if m >= 2 then n else m;
      assert EntryCountText(k)[0] == NatToString(k)[0];
      assert IsDigit(EntryCountText(k)[0]);
      if other == 1 {
        assert |EntryCountText(k)| > |OneMomentText|;
      } else {
        assert !IsDigit(EntryCountText(other)[0]);
      }
    } else {
      assert EntryCountText(m)[0] != EntryCountText(n)[0];
    }
  }

  /** The Garden screen's state: the date shown and whether the date picker is open. */
  class GardenState {
    const zone: Zone
    var selectedDate: int
    var showDatePicker: bool

    /** `mutableStateOf(LocalDate.now())`, picker closed. */
    constructor (zone: Zone, today: int)
      ensures this.zone == zone && selectedDate == today && !showDatePicker
    {
      this.zone := zone;
      selectedDate := today;
      showDatePicker := false;
    }

    /** Left chevron: `selectedDate.minusDays(1)`. */
    method PreviousDayClicked()
      modifies this
      ensures selectedDate == old(selectedDate) - 1 && showDatePicker == old(showDatePicker)
    {
      selectedDate := selectedDate - 1;
    }

    /** Right chevron: `selectedDate.plusDays(1)`. */
    method NextDayClicked()
      modifies this
      ensures selectedDate == old(selectedDate) + 1 && showDatePicker == old(showDatePicker)
    {
      selectedDate := selectedDate + 1;
    }

    /** Clicking the date opens the picker. */
    method DateClicked()
      modifies this
      ensures showDatePicker && selectedDate == old(selectedDate)
    {
      showDatePicker := true;
    }

    /** `initialSelectedDateMillis`: the start of the selected day in the system zone. */
    function PickerInitialMillis(): int
      reads this
    {
      InitialMillisAsWritten(zone, selectedDate)
    }

    /**
     * OK in the picker with day `picked` chosen: the picker hands back that
     * day's UTC midnight and the screen reads it in the system zone, which
     * west of UTC gives the day before. With nothing picked the date stays.
     * The picker closes either way.
     */
    method PickerConfirmed(picked: Option<int>)
      modifies this
      ensures !showDatePicker
      ensures selectedDate == if picked.Some? then ConfirmedDateAsWritten(zone, SelectedMillis(picked.value)) else old(selectedDate)
      ensures picked.Some? ==> selectedDate == if zone.offsetMillis < 0 then picked.value - 1 else picked.value
    {
      if picked.Some? {
        ReadsPickedDateAsWritten(zone, picked.value);
        selectedDate := ConfirmedDateAsWritten(zone, SelectedMillis(picked.value));
      }
      showDatePicker := false;
    }

    /** Dismissing the picker closes it and keeps the date. */
    method PickerDismissed()
      modifies this
      ensures !showDatePicker && selectedDate == old(selectedDate)
    {
      showDatePicker := false;
    }
  }

  /** The right chevron followed by the left one restores the date. */
  method NextThenPreviousDay(garden: GardenState)
    modifies garden
    ensures garden.selectedDate == old(garden.selectedDate)
  {
    garden.NextDayClicked();
    garden.PreviousDayClicked();
  }

  /** The left chevron followed by the right one restores the date. */
  method PreviousThenNextDay(garden: GardenState)
    modifies garden
    ensures garden.selectedDate == old(garden.selectedDate)
  {
    garden.PreviousDayClicked();
    garden.NextDayClicked();
  }

  /**
   * Opening the picker and pressing OK on the day it shows moves the selected
   * date back one day in every zone except UTC.
   */
  method UntouchedPickerAsWritten(garden: GardenState)
    modifies garden
    ensures garden.selectedDate == if garden.zone.offsetMillis == 0 then old(garden.selectedDate) else old(garden.selectedDate) - 1
  {
    garden.DateClicked();
    var shown := ShownDate(garden.PickerInitialMillis());
    garden.PickerConfirmed(Some(shown));
  }

  /** One dot of the ring: its day of the month and whether it carries the "today" ring. */
  datatype Dot = Dot(day: int, highlighted: bool)

  /**
   * `MonthlyDotsCircle`: `for (day in 1..daysInMonth)` draws one dot per day and
   * rings the dot whose number equals today's day of the month.
   */
  method MonthlyDots(daysInMonth: int, todayDayOfMonth: int) returns (dots: seq<Dot>)
    ensures |dots| == if daysInMonth < 1 then 0 else daysInMonth
    ensures forall i | 0 <= i < |dots| :: dots[i].day == i + 1
    ensures forall i | 0 <= i < |dots| :: dots[i].highlighted <==> i + 1 == todayDayOfMonth
  {
    dots := [];
    var day := 1;
    while day <= daysInMonth
      invariant 1 <= day && |dots| == day - 1
      invariant day <= (if daysInMonth < 1 then 0 else daysInMonth) + 1
      invariant forall i | 0 <= i < |dots| :: dots[i] == Dot(i + 1, i + 1 == todayDayOfMonth)
    {
      dots := dots + [Dot(day, day == todayDayOfMonth)];
      day := day + 1;
    }
  }

  /**
   * The ring under the plant: one dot for each day of the selected date's
   * month, and at most one ringed dot, the one for today's day of the month
   * (not the selected date's); none when that day is past the month's end.
   */
  method GardenDots(selectedDate: int, today: int) returns (dots: seq<Dot>)
    ensures |dots| == LengthOfMonthOf(selectedDate)
    ensures forall i | 0 <= i < |dots| :: dots[i].day == i + 1
    ensures forall i | 0 <= i < |dots| :: dots[i].highlighted <==> dots[i].day == DayOfMonth(today)
    ensures forall i, j | 0 <= i < |dots| && 0 <= j < |dots| && dots[i].highlighted && dots[j].highlighted :: i == j
    ensures (exists i | 0 <= i < |dots| :: dots[i].highlighted) <==> DayOfMonth(today) <= LengthOfMonthOf(selectedDate)
  {
    dots := MonthlyDots(LengthOfMonthOf(selectedDate), DayOfMonth(today));
    if DayOfMonth(today) <= LengthOfMonthOf(selectedDate) {
      assert dots[DayOfMonth(today) - 1].highlighted;
    }
  }
}
