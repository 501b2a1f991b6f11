/**
 * The Material 3 date picker as the Garden and Detail Entry screens drive it.
 * The picker works in UTC: it highlights the UTC date of the
 * `initialSelectedDateMillis` it is given, and its `selectedDateMillis` is
 * the UTC midnight of the day the user picked. Both screens convert into and
 * out of the picker with the system zone instead.
 */
module DatePicker {
  import opened Calendar

  const Utc: Zone := ZoneOffset(0)

  /** The day the picker highlights when it opens on `initialMillis`. */
  function ShownDate(initialMillis: int): (day: int)
    ensures day * MillisPerDay <= initialMillis < (day + 1) * MillisPerDay
  {
    DayOf(Utc, initialMillis)
  }

  /** `selectedDateMillis` once the user has picked a day: that day's UTC midnight. */
  function SelectedMillis(picked: int): (millis: int)
    ensures ShownDate(millis) == picked && millis == picked * MillisPerDay
  {
    StartOfDay(Utc, picked)
  }

  /**
   * As written, the screens open the picker on the start of the selected day
   * in the system zone. That instant reads back as the selected day in the
   * zone, but the picker shows its UTC date, which east of UTC is the day
   * before.
   */
  function InitialMillisAsWritten(zone: Zone, selected: int): (millis: int)
    ensures DayOf(zone, millis) == selected
    ensures ShownDate(millis) == if zone.offsetMillis > 0 then selected - 1 else selected
  {
    var ts := StartOfDay(zone, selected);
    assert ts == selected * MillisPerDay - zone.offsetMillis;
    if zone.offsetMillis > 0 then
      assert (selected - 1) * MillisPerDay <= ts < selected * MillisPerDay;
      DayUnique(ts, ShownDate(ts), selected - 1);
      ts
    else
      assert selected * MillisPerDay <= ts < (selected + 1) * MillisPerDay;
      DayUnique(ts, ShownDate(ts), selected);
      ts
  }

  /** As written, the screens read the picker's millis back in the system zone. */
  function ConfirmedDateAsWritten(zone: Zone, millis: int): int {
    DayOf(zone, millis)
  }

  /** West of UTC the picked day is read back as the day before it. */
  lemma ReadsPickedDateAsWritten(zone: Zone, picked: int)
    ensures ConfirmedDateAsWritten(zone, SelectedMillis(picked)) ==
      if zone.offsetMillis < 0 then picked - 1 else picked
  {
    var d := DayOf(zone, picked * MillisPerDay);
    var expected := if zone.offsetMillis < 0 then picked - 1 else picked;
    assert expected * MillisPerDay <= picked * MillisPerDay + zone.offsetMillis < (expected + 1) * MillisPerDay;
    DayUnique(picked * MillisPerDay + zone.offsetMillis, d, expected);
  }

  /**
   * Opening the picker and pressing OK without touching it moves the date back
   * one day in every zone except UTC.
   */
  lemma UntouchedPickerShiftsDate(zone: Zone, selected: int)
    ensures ConfirmedDateAsWritten(zone, SelectedMillis(ShownDate(InitialMillisAsWritten(zone, selected)))) ==
      if zone.offsetMillis == 0 then selected else selected - 1
  {
    ReadsPickedDateAsWritten(zone, ShownDate(InitialMillisAsWritten(zone, selected)));
  }

  /** Corrected: hand the picker the selected day's UTC midnight. */
  function InitialMillis(selected: int): int {
    StartOfDay(Utc, selected)
  }

  /** Corrected: read the picker's millis as a UTC date. */
  function ConfirmedDate(millis: int): int {
    DayOf(Utc, millis)
  }

  /**
   * With UTC on both sides the picker opens on the selected day, OK returns
   * exactly the picked day, and an untouched picker keeps the date.
   */
  lemma CorrectedPickerKeepsDate(selected: int, picked: int)
    ensures ShownDate(InitialMillis(selected)) == selected
    ensures ConfirmedDate(SelectedMillis(picked)) == picked
    ensures ConfirmedDate(SelectedMillis(ShownDate(InitialMillis(selected)))) == selected
  {
  }

  /** Only one day's span holds a given instant. */
  lemma DayUnique(t: int, a: int, b: int)
    requires a * MillisPerDay <= t < (a + 1) * MillisPerDay
    requires b * MillisPerDay <= t < (b + 1) * MillisPerDay
    ensures a == b
  {
  }
}
