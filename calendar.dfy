/**
 * Proleptic Gregorian calendar arithmetic on epoch days (day 0 is 1970-01-01),
 * the part of java.time that the screens rely on: LocalDate, YearMonth,
 * lengthOfMonth, dayOfWeek, plusDays/minusDays, plusMonths/minusMonths, and the
 * conversion between an instant in milliseconds and a local date in a zone.
 */
module Calendar {

  const MillisPerDay: int := 86_400_000

  /** Gregorian leap year: divisible by 4, and not by 100 unless by 400. */
  predicate IsLeapYear(y: int) {
    y % 4 == 0 && (y % 100 != 0 || y % 400 == 0)
  }

  function YearLength(y: int): int {
    if IsLeapYear(y) then 366 else 365
  }

  predicate ValidMonth(m: int) {
    1 <= m <= 12
  }

  /** The length of month m (1 = January) of year y, as YearMonth.lengthOfMonth. */
  function LengthOfMonth(y: int, m: int): (n: int)
    requires ValidMonth(m)
    ensures 28 <= n <= 31
    ensures n == 29 <==> m == 2 && IsLeapYear(y)
  {
    if m == 2 then (if IsLeapYear(y) then 29 else 28)
    else if m == 4 || m == 6 || m == 9 || m == 11 then 30
    else 31
  }

  /** Number of leap years in 1..n when n >= 0; floor division extends it to all n. */
  function LeapsUpTo(n: int): int {
    n / 4 - n / 100 + n / 400
  }

  lemma LeapsStep(n: int)
    ensures LeapsUpTo(n) - LeapsUpTo(n - 1) == if IsLeapYear(n) then 1 else 0
  {
    assert n / 4 - (n - 1) / 4 == if n % 4 == 0 then 1 else 0;
    assert n / 100 - (n - 1) / 100 == if n % 100 == 0 then 1 else 0;
    assert n / 400 - (n - 1) / 400 == if n % 400 == 0 then 1 else 0;
    assert n % 400 == 0 ==> n % 100 == 0;
    assert n % 100 == 0 ==> n % 4 == 0;
  }

  /** Epoch day of January 1st of year y. */
  function YearStart(y: int): int {
    365 * (y - 1970) + LeapsUpTo(y - 1) - LeapsUpTo(1969)
  }

  /** Consecutive years tile the day line: a year ends where the next begins. */
  lemma YearStartStep(y: int)
    ensures YearStart(y + 1) == YearStart(y) + YearLength(y)
  {
    LeapsStep(y);
  }

  lemma {:induction false} YearStartMonotone(a: int, b: int)
    requires a <= b
    ensures YearStart(a) + 365 * (b - a) <= YearStart(b)
    decreases b - a
  {
    if a < b {
      YearStartMonotone(a, b - 1);
      YearStartStep(b - 1);
    }
  }

  /** Days of year y that precede the first of month m; m = 13 gives the whole year. */
  function DaysBeforeMonth(y: int, m: int): int
    requires 1 <= m <= 13
    decreases m
  {
    if m == 1 then 0 else DaysBeforeMonth(y, m - 1) + LengthOfMonth(y, m - 1)
  }

  /** The twelve months of a year add up to the length of that year. */
  lemma MonthsFillYear(y: int)
    ensures DaysBeforeMonth(y, 13) == YearLength(y)
  {
    assert DaysBeforeMonth(y, 2) == 31;
    assert DaysBeforeMonth(y, 3) == 31 + LengthOfMonth(y, 2);
    assert DaysBeforeMonth(y, 4) == 62 + LengthOfMonth(y, 2);
    assert DaysBeforeMonth(y, 5) == 92 + LengthOfMonth(y, 2);
    assert DaysBeforeMonth(y, 6) == 123 + LengthOfMonth(y, 2);
    assert DaysBeforeMonth(y, 7) == 153 + LengthOfMonth(y, 2);
    assert DaysBeforeMonth(y, 8) == 184 + LengthOfMonth(y, 2);
    assert DaysBeforeMonth(y, 9) == 215 + LengthOfMonth(y, 2);
    assert DaysBeforeMonth(y, 10) == 245 + LengthOfMonth(y, 2);
    assert DaysBeforeMonth(y, 11) == 276 + LengthOfMonth(y, 2);
    assert DaysBeforeMonth(y, 12) == 306 + LengthOfMonth(y, 2);
    assert DaysBeforeMonth(y, 13) == 337 + LengthOfMonth(y, 2);
  }

  lemma {:induction false} DaysBeforeMonthMonotone(y: int, m: int, k: int)
    requires 1 <= m <= k <= 13
    ensures DaysBeforeMonth(y, m) + 28 * (k - m) <= DaysBeforeMonth(y, k)
    decreases k - m
  {
    if m < k {
      DaysBeforeMonthMonotone(y, m, k - 1);
    }
  }

  /** A calendar date, as java.time.LocalDate. */
  datatype Date = Date(year: int, month: int, day: int)

  predicate ValidDate(d: Date) {
    ValidMonth(d.month) && 1 <= d.day <= LengthOfMonth(d.year, d.month)
  }

  /** A year and month, as java.time.YearMonth. */
  datatype YearMonth = YearMonth(year: int, month: int)

  predicate ValidYearMonth(ym: YearMonth) {
    ValidMonth(ym.month)
  }

  function MonthLength(ym: YearMonth): (n: int)
    requires ValidYearMonth(ym)
  {
    LengthOfMonth(ym.year, ym.month)
  }

  /** Epoch day of the first day of a month. */
  function FirstDayOfMonth(ym: YearMonth): int
    requires ValidYearMonth(ym)
  {
    YearStart(ym.year) + DaysBeforeMonth(ym.year, ym.month)
  }

  function ToEpochDay(d: Date): int
    requires ValidDate(d)
  {
    FirstDayOfMonth(YearMonth(d.year, d.month)) + d.day - 1
  }

  /** YearMonth.atDay(k): the epoch day of day k of the month. */
  function AtDay(ym: YearMonth, k: int): (n: int)
    requires ValidYearMonth(ym) && 1 <= k <= MonthLength(ym)
    ensures FirstDayOfMonth(ym) <= n < FirstDayOfMonth(ym) + MonthLength(ym)
  {
    ToEpochDay(Date(ym.year, ym.month, k))
  }

  /** The year containing epoch day n, searched upwards from year y. */
  function YearUpFrom(n: int, y: int): (r: int)
    requires YearStart(y) <= n
    ensures YearStart(r) <= n < YearStart(r + 1)
    decreases n - YearStart(y)
  {
    YearStartStep(y);
    if n < YearStart(y + 1) then y else YearUpFrom(n, y + 1)
  }

  /** The year containing epoch day n, searched downwards from year y. */
  function YearDownFrom(n: int, y: int): (r: int)
    requires n < YearStart(y + 1)
    ensures YearStart(r) <= n < YearStart(r + 1)
    decreases YearStart(y + 1) - n
  {
    YearStartStep(y);
    if YearStart(y) <= n then y else YearDownFrom(n, y - 1)
  }

  function YearOfEpochDay(n: int): (r: int)
    ensures YearStart(r) <= n < YearStart(r + 1)
  {
    if 0 <= n then YearUpFrom(n, 1970) else YearDownFrom(n, 1969)
  }

  /** The month of year y that contains day-of-year offset off, searched from month m. */
  function MonthFrom(y: int, off: int, m: int): (r: int)
    requires ValidMonth(m) && DaysBeforeMonth(y, m) <= off < YearLength(y)
    ensures m <= r <= 12 && DaysBeforeMonth(y, r) <= off < DaysBeforeMonth(y, r + 1)
    decreases 12 - m
  {
    MonthsFillYear(y);
    if off < DaysBeforeMonth(y, m + 1) then m else MonthFrom(y, off, m + 1)
  }

  /** LocalDate.ofEpochDay: the calendar date of epoch day n. */
  function FromEpochDay(n: int): (d: Date)
    ensures ValidDate(d) && ToEpochDay(d) == n
  {
    var y := YearOfEpochDay(n);
    YearStartStep(y);
    var m := MonthFrom(y, n - YearStart(y), 1);
    Date(y, m, n - YearStart(y) - DaysBeforeMonth(y, m) + 1)
  }

  lemma YearUnique(n: int, a: int, b: int)
    requires YearStart(a) <= n < YearStart(a + 1)
    requires YearStart(b) <= n < YearStart(b + 1)
    ensures a == b
  {
    if a < b {
      YearStartMonotone(a + 1, b);
    } else if b < a {
      YearStartMonotone(b + 1, a);
    }
  }

  lemma MonthUnique(y: int, off: int, a: int, b: int)
    requires ValidMonth(a) && DaysBeforeMonth(y, a) <= off < DaysBeforeMonth(y, a + 1)
    requires ValidMonth(b) && DaysBeforeMonth(y, b) <= off < DaysBeforeMonth(y, b + 1)
    ensures a == b
  {
    if a < b {
      DaysBeforeMonthMonotone(y, a + 1, b);
    } else if b < a {
      DaysBeforeMonthMonotone(y, b + 1, a);
    }
  }

  /** A valid date's epoch day lies inside its year, and its day-of-year inside its month. */
  lemma EpochDayWithin(d: Date)
    requires ValidDate(d)
    ensures YearStart(d.year) <= ToEpochDay(d) < YearStart(d.year + 1)
    ensures var off := ToEpochDay(d) - YearStart(d.year);
      DaysBeforeMonth(d.year, d.month) <= off < DaysBeforeMonth(d.year, d.month + 1)
  {
    MonthsFillYear(d.year);
    DaysBeforeMonthMonotone(d.year, d.month + 1, 13);
    YearStartStep(d.year);
  }

  /** Converting a valid date to its epoch day and back gives the same date. */
  lemma DateRoundTrip(d: Date)
    requires ValidDate(d)
    ensures FromEpochDay(ToEpochDay(d)) == d
  {
    var n := ToEpochDay(d);
    var r := FromEpochDay(n);
    EpochDayWithin(d);
    EpochDayWithin(r);
    YearUnique(n, r.year, d.year);
    MonthUnique(d.year, n - YearStart(d.year), r.month, d.month);
  }

  /** LocalDate.lengthOfMonth of an epoch day. */
  function LengthOfMonthOf(n: int): (len: int)
    ensures 28 <= len <= 31
  {
    var d := FromEpochDay(n);
    LengthOfMonth(d.year, d.month)
  }

  /** LocalDate.dayOfMonth of an epoch day. */
  function DayOfMonth(n: int): (k: int)
    ensures 1 <= k <= LengthOfMonthOf(n)
  {
    FromEpochDay(n).day
  }

  /** DayOfWeek.value of an epoch day: Monday = 1 ... Sunday = 7; 1970-01-01 was a Thursday. */
  function DayOfWeek(n: int): (w: int)
    ensures 1 <= w <= 7
  {
    (n + 3) % 7 + 1
  }

  /** YearMonth.plusMonths(1): the month that starts the day after this one ends. */
  function NextMonth(ym: YearMonth): (next: YearMonth)
    ensures ValidYearMonth(ym) ==>
      ValidYearMonth(next) && FirstDayOfMonth(next) == FirstDayOfMonth(ym) + MonthLength(ym)
  {
    if ym.month == 12 then
      MonthsFillYear(ym.year);
      YearStartStep(ym.year);
      YearMonth(ym.year + 1, 1)
    else YearMonth(ym.year, ym.month + 1)
  }

  /** YearMonth.minusMonths(1): the month that ends the day before this one starts. */
  function PreviousMonth(ym: YearMonth): (previous: YearMonth)
    ensures ValidYearMonth(ym) ==>
      ValidYearMonth(previous) && FirstDayOfMonth(previous) + MonthLength(previous) == FirstDayOfMonth(ym)
  {
    if ym.month == 1 then
      MonthsFillYear(ym.year - 1);
      YearStartStep(ym.year - 1);
      YearMonth(ym.year - 1, 12)
    else YearMonth(ym.year, ym.month - 1)
  }

  /** Stepping a month forward and back (either order) returns to the same month. */
  lemma MonthSteppingInverse(ym: YearMonth)
    requires ValidYearMonth(ym)
    ensures ValidYearMonth(NextMonth(ym)) && ValidYearMonth(PreviousMonth(ym))
    ensures PreviousMonth(NextMonth(ym)) == ym && NextMonth(PreviousMonth(ym)) == ym
  {
  }

  /** The next month begins the day after the last day of this one. */
  lemma MonthsTile(ym: YearMonth)
    requires ValidYearMonth(ym)
    ensures ValidYearMonth(NextMonth(ym))
    ensures FirstDayOfMonth(NextMonth(ym)) == FirstDayOfMonth(ym) + MonthLength(ym)
  {
    if ym.month == 12 {
      MonthsFillYear(ym.year);
      YearStartStep(ym.year);
    }
  }

  /**
   * LocalDate.plusDays(1) on epoch days agrees with the calendar: the next day
   * of the same month, or the 1st of the next month after a month's last day.
   */
  lemma NextDayIsCalendarSuccessor(n: int)
    ensures var d := FromEpochDay(n);
      FromEpochDay(n + 1) ==
        if d.day < LengthOfMonth(d.year, d.month) then Date(d.year, d.month, d.day + 1)
        else var next := NextMonth(YearMonth(d.year, d.month)); Date(next.year, next.month, 1)
  {
    var d := FromEpochDay(n);
    var ym := YearMonth(d.year, d.month);
    if d.day < LengthOfMonth(d.year, d.month) {
      DateRoundTrip(Date(d.year, d.month, d.day + 1));
    } else {
      var next := NextMonth(ym);
      MonthsTile(ym);
      assert ToEpochDay(Date(next.year, next.month, 1)) == n + 1;
      DateRoundTrip(Date(next.year, next.month, 1));
    }
  }

  /** A fixed offset from UTC, in milliseconds. */
  datatype ZoneOffset = ZoneOffset(offsetMillis: int)

  /** java.time.ZoneOffset allows offsets from -18:00 to +18:00. */
  const MaxOffsetMillis: int := 18 * 3600 * 1000

  /** A local time zone, as ZoneId.systemDefault(), with a fixed offset from UTC. */
  type Zone = z: ZoneOffset | -MaxOffsetMillis <= z.offsetMillis <= MaxOffsetMillis witness ZoneOffset(0)

  /** Instant.ofEpochMilli(ts).atZone(zone).toLocalDate(), as an epoch day: the day whose local span holds ts. */
  function DayOf(zone: Zone, ts: int): (d: int)
    ensures d * MillisPerDay <= ts + zone.offsetMillis < (d + 1) * MillisPerDay
  {
    (ts + zone.offsetMillis) / MillisPerDay
  }

  /** LocalDate.atStartOfDay(zone).toInstant().toEpochMilli(): an instant on that local day. */
  function StartOfDay(zone: Zone, d: int): (ts: int)
    ensures DayOf(zone, ts) == d
  {
    d * MillisPerDay - zone.offsetMillis
  }

  /** The start of a day falls on that day, and every instant lies within its own day. */
  lemma DayOfStartOfDay(zone: Zone, d: int, ts: int)
    ensures DayOf(zone, StartOfDay(zone, d)) == d
    ensures StartOfDay(zone, DayOf(zone, ts)) <= ts < StartOfDay(zone, DayOf(zone, ts) + 1)
  {
  }

  /** A later instant never falls on an earlier local date. */
  lemma DayOfMonotone(zone: Zone, s: int, t: int)
    requires s <= t
    ensures DayOf(zone, s) <= DayOf(zone, t)
  {
  }
}
