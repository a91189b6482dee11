/**
 * The proleptic Gregorian calendar as `java.time` uses it: a `LocalDate` is a
 * (year, month, day) triple, stored by the app as its epoch day (days since
 * 1970-01-01); a `LocalDateTime` is a date plus a nanosecond of the day.
 *
 * The epoch-day conversion counts in 400-year eras of 146097 days that start
 * on a 1 March, so that the leap day is the last day of its year.
 */
module Calendar {

  datatype Date = Date(year: int, month: int, day: int)

  predicate IsLeapYear(year: int) {
    year % 4 == 0 && (year % 100 != 0 || year % 400 == 0)
  }

  function LengthOfMonth(year: int, month: int): (n: int)
    requires 1 <= month <= 12
    ensures 28 <= n <= 31
    ensures n == 29 <==> month == 2 && IsLeapYear(year)
  {
    if month == 2 then (if IsLeapYear(year) then 29 else 28)
    else if month == 4 || month == 6 || month == 9 || month == 11 then 30
    else 31
  }

  predicate IsValidDate(d: Date) {
    1 <= d.month <= 12 && 1 <= d.day <= LengthOfMonth(d.year, d.month)
  }

  /** A date that exists in the calendar, as every `java.time.LocalDate` does. */
  type LocalDate = d: Date | IsValidDate(d) witness Date(1970, 1, 1)

  const DaysPerEra: int := 146097
  /** Days from 0000-03-01 to 1970-01-01. */
  const EraShift: int := 719468

  // ---------------------------------------------------------------------
  // Years inside an era. Year-of-era `yoe` runs from 1 March of year
  // 400 * era + yoe to the end of February of the following year.

  /** Day of the era on which year-of-era `yoe` starts. */
  function YearStart(yoe: int): int
    requires 0 <= yoe < 400
  {
    365 * yoe + yoe / 4 - yoe / 100
  }

  /** Whether year-of-era `yoe` ends with a 29 February. */
  predicate EndsWithLeapDay(yoe: int) {
    (yoe + 1) % 4 == 0 && ((yoe + 1) % 100 != 0 || yoe == 399)
  }

  function YearLength(yoe: int): int {
    if EndsWithLeapDay(yoe) then 366 else 365
  }

  /** The year-of-era that contains day-of-era `doe`: centuries, then four-year blocks, then years. */
  function YearOfDayOfEra(doe: int): (yoe: int)
    requires 0 <= doe < DaysPerEra
    ensures 0 <= yoe < 400
    ensures YearStart(yoe) <= doe < YearStart(yoe) + YearLength(yoe)
  {
    var century := if doe / 36524 < 4 then doe / 36524 else 3;
    var inCentury := doe - 36524 * century;
    var block := inCentury / 1461;
    var inBlock := inCentury - 1461 * block;
    var year := if inBlock / 365 < 4 then inBlock / 365 else 3;
    YearDecodeBounds(doe, century, block, year);
    100 * century + 4 * block + year
  }

  lemma YearDecodeBounds(doe: int, century: int, block: int, year: int)
    requires 0 <= doe < DaysPerEra
    requires century == if doe / 36524 < 4 then doe / 36524 else 3
    requires block == (doe - 36524 * century) / 1461
    requires var inBlock := doe - 36524 * century - 1461 * block;
      year == if inBlock / 365 < 4 then inBlock / 365 else 3
    ensures var yoe := 100 * century + 4 * block + year;
      0 <= yoe < 400 && YearStart(yoe) <= doe < YearStart(yoe) + YearLength(yoe)
  {
    var yoe := 100 * century + 4 * block + year;
    assert yoe / 100 == century && (yoe % 100) / 4 == block && yoe % 4 == year;
    YearStartSplit(yoe);
  }

  lemma YearStartSplit(yoe: int)
    requires 0 <= yoe < 400
    ensures YearStart(yoe) == 36524 * (yoe / 100) + 1461 * ((yoe % 100) / 4) + 365 * (yoe % 4)
  {
  }

  lemma YearOfDayOfEraOfStart(yoe: int, doy: int)
    requires 0 <= yoe < 400 && 0 <= doy < YearLength(yoe)
    ensures YearStart(yoe) + doy < DaysPerEra
    ensures YearOfDayOfEra(YearStart(yoe) + doy) == yoe
  {
    YearsInOrder(yoe, 399);
    var other := YearOfDayOfEra(YearStart(yoe) + doy);
    YearsInOrder(other, yoe);
    YearsInOrder(yoe, other);
  }

  /** An earlier year-of-era ends no later than a later one starts. */
  lemma {:induction false} YearsInOrder(a: int, b: int)
    requires 0 <= a < 400 && 0 <= b < 400
    ensures a < b ==> YearStart(a) + YearLength(a) <= YearStart(b)
    decreases b - a
  {
    if a < b {
      YearStartNext(a);
      YearsInOrder(a + 1, b);
    }
  }

  lemma YearStartNext(yoe: int)
    requires 0 <= yoe < 399
    ensures YearStart(yoe + 1) == YearStart(yoe) + YearLength(yoe)
  {
    assert (yoe + 1) / 4 == yoe / 4 + (if (yoe + 1) % 4 == 0 then 1 else 0);
    assert (yoe + 1) / 100 == yoe / 100 + (if (yoe + 1) % 100 == 0 then 1 else 0);
  }

  lemma ShiftMod4(q: int, r: int)
    ensures (4 * q + r) % 4 == r % 4
  {
  }

  lemma ShiftMod100(q: int, r: int)
    ensures (100 * q + r) % 100 == r % 100
  {
  }

  lemma ShiftMod400(q: int, r: int)
    ensures (400 * q + r) % 400 == r % 400
  {
  }

  /** The leap day closing year-of-era `yoe` of any era is the 29 February of a leap year. */
  lemma LeapDayOfEra(era: int, yoe: int)
    requires 0 <= yoe < 400
    ensures IsLeapYear(400 * era + yoe + 1) == EndsWithLeapDay(yoe)
  {
    var y := 400 * era + yoe + 1;
    ShiftMod4(100 * era, yoe + 1);
    ShiftMod100(4 * era, yoe + 1);
    ShiftMod400(era, yoe + 1);
    assert y % 4 == (yoe + 1) % 4 && y % 100 == (yoe + 1) % 100 && y % 400 == (yoe + 1) % 400;
  }

  // ---------------------------------------------------------------------
  // Months inside a year that starts in March: index 0 is March, 11 is February.

  function DaysBeforeMonth(mp: int): int
    requires 0 <= mp < 12
  {
    (153 * mp + 2) / 5
  }

  function MonthIndexOfDay(doy: int): int {
    (5 * doy + 2) / 153
  }

  /** Length of month index `mp` in a year whose February has `feb` days. */
  function MonthIndexLength(mp: int, feb: int): int
    requires 0 <= mp < 12
  {
    if mp == 11 then feb
    else if mp == 1 || mp == 3 || mp == 6 || mp == 8 then 30
    else 31
  }

  function MonthOfIndex(mp: int): int
    requires 0 <= mp < 12
  {
    if mp < 10 then mp + 3 else mp - 9
  }

  function IndexOfMonth(month: int): int
    requires 1 <= month <= 12
  {
    if month > 2 then month - 3 else month + 9
  }

  lemma MonthIndexOfDayOfMonth(mp: int, day: int)
    requires 0 <= mp < 12 && 1 <= day <= MonthIndexLength(mp, 29)
    ensures MonthIndexOfDay(DaysBeforeMonth(mp) + day - 1) == mp
  {
  }

  lemma MonthIndexBounds(doy: int, feb: int)
    requires feb == 28 || feb == 29
    requires 0 <= doy < 337 + feb
    ensures 0 <= MonthIndexOfDay(doy) < 12
    ensures DaysBeforeMonth(MonthIndexOfDay(doy)) <= doy
    ensures doy - DaysBeforeMonth(MonthIndexOfDay(doy)) < MonthIndexLength(MonthIndexOfDay(doy), feb)
  {
  }

  lemma DaysBeforeNextMonth(mp: int)
    requires 0 <= mp < 11
    ensures DaysBeforeMonth(mp + 1) == DaysBeforeMonth(mp) + MonthIndexLength(mp, 29)
  {
  }

  /** The month's length as the calendar has it, read off the March-based index. */
  lemma MonthLengthByIndex(year: int, month: int)
    requires 1 <= month <= 12
    ensures LengthOfMonth(year, month) == MonthIndexLength(IndexOfMonth(month), if IsLeapYear(year) then 29 else 28)
  {
  }

  // ---------------------------------------------------------------------
  // Epoch days

  /** `LocalDate.toEpochDay`: days since 1970-01-01 (negative before it). */
  function ToEpochDay(d: LocalDate): int {
    var y := if d.month <= 2 then d.year - 1 else d.year;
    var era := y / 400;
    var yoe := y % 400;
    var doy := DaysBeforeMonth(IndexOfMonth(d.month)) + d.day - 1;
    era * DaysPerEra + YearStart(yoe) + doy - EraShift
  }

  /** `LocalDate.ofEpochDay`: the date `e` days after 1970-01-01. */
  function OfEpochDay(e: int): LocalDate {
    var z := e + EraShift;
    var era := z / DaysPerEra;
    var doe := z % DaysPerEra;
    var yoe := YearOfDayOfEra(doe);
    DateInEra(era, yoe, doe - YearStart(yoe))
  }

  /** Day `doy` of year-of-era `yoe` of era `era`, as a date of the calendar. */
  function DateInEra(era: int, yoe: int, doy: int): LocalDate
    requires 0 <= yoe < 400 && 0 <= doy < YearLength(yoe)
  {
    DecodedDateValid(era, yoe, doy);
    DecodedDate(era, yoe, doy)
  }

  /** The date on day `doy` of year-of-era `yoe` of era `era`. */
  function DecodedDate(era: int, yoe: int, doy: int): Date
    requires 0 <= doy < 366
  {
    var mp := MonthIndexOfDay(doy);
    var month := MonthOfIndex(mp);
    Date(400 * era + yoe + (if month <= 2 then 1 else 0), month, doy - DaysBeforeMonth(mp) + 1)
  }

  /** Every day of a year of an era is a date of the calendar. */
  lemma DecodedDateValid(era: int, yoe: int, doy: int)
    requires 0 <= yoe < 400 && 0 <= doy < YearLength(yoe)
    ensures IsValidDate(DecodedDate(era, yoe, doy))
  {
    var feb := if EndsWithLeapDay(yoe) then 29 else 28;
    MonthIndexBounds(doy, feb);
    var d := DecodedDate(era, yoe, doy);
    LeapDayOfEra(era, yoe);
    MonthLengthByIndex(d.year, d.month);
  }

  /** `OfEpochDay` decodes the epoch day of day `doy` of year-of-era `yoe` of era `era` to that day's date. */
  lemma OfEpochDayInEra(era: int, yoe: int, doy: int, e: int)
    requires 0 <= yoe < 400 && 0 <= doy < YearLength(yoe)
    requires e == era * DaysPerEra + YearStart(yoe) + doy - EraShift
    ensures OfEpochDay(e) == DecodedDate(era, yoe, doy)
  {
    YearOfDayOfEraOfStart(yoe, doy);
    var z := e + EraShift;
    assert z == era * DaysPerEra + (YearStart(yoe) + doy);
    assert z / DaysPerEra == era && z % DaysPerEra == YearStart(yoe) + doy;
    assert YearOfDayOfEra(z % DaysPerEra) == yoe;
    OfEpochDayUnfolded(e, era, yoe, doy);
    DateInEraDecoded(era, yoe, doy);
  }

  lemma OfEpochDayUnfolded(e: int, era: int, yoe: int, doy: int)
    requires era == (e + EraShift) / DaysPerEra
    requires yoe == YearOfDayOfEra((e + EraShift) % DaysPerEra)
    requires doy == (e + EraShift) % DaysPerEra - YearStart(yoe)
    ensures 0 <= yoe < 400 && 0 <= doy < YearLength(yoe)
    ensures OfEpochDay(e) == DateInEra(era, yoe, doy)
  {
  }

  lemma DateInEraDecoded(era: int, yoe: int, doy: int)
    requires 0 <= yoe < 400 && 0 <= doy < YearLength(yoe)
    ensures DateInEra(era, yoe, doy) == DecodedDate(era, yoe, doy)
  {
  }


  /** The day of its March-based year on which a valid date falls lies inside that year. */
  lemma DayOfYearInRange(d: LocalDate)
    ensures var y := if d.month <= 2 then d.year - 1 else d.year;
      0 <= DaysBeforeMonth(IndexOfMonth(d.month)) + d.day - 1 < YearLength(y % 400)
  {
    var y := if d.month <= 2 then d.year - 1 else d.year;
    LeapDayOfEra(y / 400, y % 400);
    assert 400 * (y / 400) + y % 400 == y;
    MonthLengthByIndex(d.year, d.month);
    var mp := IndexOfMonth(d.month);
    if mp < 11 {
      assert DaysBeforeMonth(mp) + MonthIndexLength(mp, 29) <= 337;
    } else {
      assert d.year == y + 1;
    }
  }

  /** A date read back from its epoch day is the same date. */
  lemma {:induction false} OfEpochDayOfToEpochDay(d: LocalDate)
    ensures OfEpochDay(ToEpochDay(d)) == d
  {
    var y := if d.month <= 2 then d.year - 1 else d.year;
    var era, yoe := y / 400, y % 400;
    var doy := DaysBeforeMonth(IndexOfMonth(d.month)) + d.day - 1;
    DayOfYearInRange(d);
    var e := ToEpochDay(d);
    assert e == era * DaysPerEra + YearStart(yoe) + doy - EraShift;
    OfEpochDayInEra(era, yoe, doy, e);
    DecodeInEra(d);
    assert DecodedDate(era, yoe, doy) == d;
    assert OfEpochDay(e) == d;
  }

  /** Decoding a date's era, year-of-era and day-of-year gives back its fields. */
  lemma DecodeInEra(d: LocalDate)
    ensures var y := if d.month <= 2 then d.year - 1 else d.year;
      DecodedDate(y / 400, y % 400, DaysBeforeMonth(IndexOfMonth(d.month)) + d.day - 1) == d
  {
    var mp := IndexOfMonth(d.month);
    MonthLengthByIndex(d.year, d.month);
    MonthIndexOfDayOfMonth(mp, d.day);
    var y := if d.month <= 2 then d.year - 1 else d.year;
    assert 400 * (y / 400) + y % 400 == y;
  }

  /** An epoch day survives the trip through its date. */
  lemma {:induction false} ToEpochDayOfOfEpochDay(e: int)
    ensures ToEpochDay(OfEpochDay(e)) == e
  {
    var z := e + EraShift;
    var era, doe := z / DaysPerEra, z % DaysPerEra;
    var yoe := YearOfDayOfEra(doe);
    var doy := doe - YearStart(yoe);
    assert e == era * DaysPerEra + YearStart(yoe) + doy - EraShift;
    OfEpochDayInEra(era, yoe, doy, e);
    EncodeInEra(era, yoe, doy, OfEpochDay(e));
  }

  /** Encoding the date that `OfEpochDayInEra` decodes gives back its era, year-of-era and day-of-year. */
  lemma EncodeInEra(era: int, yoe: int, doy: int, d: LocalDate)
    requires 0 <= yoe < 400 && 0 <= doy < YearLength(yoe)
    requires d == DecodedDate(era, yoe, doy)
    ensures ToEpochDay(d) == era * DaysPerEra + YearStart(yoe) + doy - EraShift
  {
    MonthIndexBounds(doy, if EndsWithLeapDay(yoe) then 29 else 28);
    var mp := MonthIndexOfDay(doy);
    assert IndexOfMonth(d.month) == mp;
    var y := if d.month <= 2 then d.year - 1 else d.year;
    assert y == 400 * era + yoe;
    assert y / 400 == era && y % 400 == yoe;
  }

  /** The calendar's successor of a date, written out by months and years. */
  function NextDay(d: LocalDate): LocalDate {
    if d.day < LengthOfMonth(d.year, d.month) then Date(d.year, d.month, d.day + 1)
    else if d.month < 12 then Date(d.year, d.month + 1, 1)
    else Date(d.year + 1, 1, 1)
  }

  /** Consecutive dates have consecutive epoch days; with `EpochDayOrigin` this pins `ToEpochDay` down. */
  lemma EpochDayOfNextDay(d: LocalDate)
    ensures ToEpochDay(NextDay(d)) == ToEpochDay(d) + 1
  {
    MonthLengthByIndex(d.year, d.month);
    if d.day < LengthOfMonth(d.year, d.month) {
      NextDayInMonth(d);
    } else if d.month != 2 {
      NextDayNewMonth(d);
    } else {
      NextDayFirstOfMarch(d);
    }
  }

  lemma NextDayInMonth(d: LocalDate)
    requires d.day < LengthOfMonth(d.year, d.month)
    ensures ToEpochDay(NextDay(d)) == ToEpochDay(d) + 1
  {
    assert NextDay(d) == Date(d.year, d.month, d.day + 1);
  }

  lemma NextDayNewMonth(d: LocalDate)
    requires d.day == LengthOfMonth(d.year, d.month) && d.month != 2
    ensures ToEpochDay(NextDay(d)) == ToEpochDay(d) + 1
  {
    var n := NextDay(d);
    var mp := IndexOfMonth(d.month);
    MonthLengthByIndex(d.year, d.month);
    assert IndexOfMonth(n.month) == mp + 1;
    DaysBeforeNextMonth(mp);
  }

  // 28 or 29 February, followed by 1 March: the next year of the era starts.
  lemma NextDayFirstOfMarch(d: LocalDate)
    requires d.day == LengthOfMonth(d.year, d.month) && d.month == 2
    ensures ToEpochDay(NextDay(d)) == ToEpochDay(d) + 1
  {
    var y := d.year - 1;
    var era, yoe := y / 400, y % 400;
    MonthLengthByIndex(d.year, d.month);
    LeapDayOfEra(era, yoe);
    assert 400 * era + yoe + 1 == d.year;
    assert DaysBeforeMonth(11) + d.day == YearLength(yoe);
    if yoe < 399 {
      YearStartNext(yoe);
      assert d.year / 400 == era && d.year % 400 == yoe + 1;
    } else {
      assert d.year / 400 == era + 1 && d.year % 400 == 0;
    }
  }

  lemma EpochDayOrigin()
    ensures ToEpochDay(Date(1970, 1, 1)) == 0
  {
  }

  /**
   * The YEAR_OF_ERA field that the `y` pattern letters print: the year itself
   * from year 1 on, and 1 - year before it (year 0 is 1 BC).
   */
  function YearOfEraField(year: int): (y: int)
    ensures y >= 1
    ensures year >= 1 ==> y == year
  {
    if year >= 1 then year else 1 - year
  }

  // ---------------------------------------------------------------------
  // Date-times

  const NanosPerMilli: int := 1_000_000
  const NanosPerMinute: int := 60_000_000_000
  const NanosPerHour: int := 3_600_000_000_000
  const NanosPerDay: int := 86_400_000_000_000

  type NanoOfDay = n: int | 0 <= n < NanosPerDay

  /** A `java.time.LocalDateTime`: a date and a time of day, with no time zone. */
  datatype LocalDateTime = LocalDateTime(date: LocalDate, nanoOfDay: NanoOfDay)

  function Hour(t: LocalDateTime): (h: int)
    ensures 0 <= h < 24
  {
    t.nanoOfDay / NanosPerHour
  }

  function Minute(t: LocalDateTime): (m: int)
    ensures 0 <= m < 60
  {
    (t.nanoOfDay / NanosPerMinute) % 60
  }

  /** Nanoseconds since 1970-01-01T00:00: the time line on which date-times are compared. */
  function ToNanos(t: LocalDateTime): int {
    ToEpochDay(t.date) * NanosPerDay + t.nanoOfDay
  }

  function OfNanos(n: int): LocalDateTime {
    LocalDateTime(OfEpochDay(n / NanosPerDay), n % NanosPerDay)
  }

  lemma ToNanosOfNanos(n: int)
    ensures ToNanos(OfNanos(n)) == n
  {
    ToEpochDayOfOfEpochDay(n / NanosPerDay);
  }

  lemma OfNanosToNanos(t: LocalDateTime)
    ensures OfNanos(ToNanos(t)) == t
  {
    OfEpochDayOfToEpochDay(t.date);
    var n := ToNanos(t);
    assert n / NanosPerDay == ToEpochDay(t.date) && n % NanosPerDay == t.nanoOfDay;
  }

  /** `LocalDateTime.minusMinutes`. */
  function MinusMinutes(t: LocalDateTime, minutes: int): (r: LocalDateTime)
    ensures ToNanos(r) == ToNanos(t) - minutes * NanosPerMinute
  {
    var n := ToNanos(t) - minutes * NanosPerMinute;
    ToNanosOfNanos(n);
    OfNanos(n)
  }

  /** `LocalDateTime.minusDays`: the same time of day, `days` dates earlier. */
  function MinusDays(t: LocalDateTime, days: int): (r: LocalDateTime)
    ensures r.nanoOfDay == t.nanoOfDay
    ensures ToNanos(r) == ToNanos(t) - days * NanosPerDay
  {
    var e := ToEpochDay(t.date) - days;
    ToEpochDayOfOfEpochDay(e);
    LocalDateTime(OfEpochDay(e), t.nanoOfDay)
  }

  /** Java's integer division, which truncates towards zero. */
  function TruncDiv(a: int, b: int): int
    requires b > 0
  {
    if a >= 0 then a / b else -((-a) / b)
  }

  /**
   * `Duration.between(from, to).toMillis()`: the whole milliseconds between the
   * two instants, the sub-millisecond part dropped towards zero.
   */
  function MillisBetween(from: LocalDateTime, to: LocalDateTime): (ms: int)
    ensures var d := ToNanos(to) - ToNanos(from);
      && (d >= 0 ==> 0 <= ms && ms * NanosPerMilli <= d < (ms + 1) * NanosPerMilli)
      && (d < 0 ==> ms <= 0 && (ms - 1) * NanosPerMilli < d <= ms * NanosPerMilli)
  {
    TruncDiv(ToNanos(to) - ToNanos(from), NanosPerMilli)
  }
}
