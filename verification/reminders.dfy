/**
 * The reminders that scheduling an activity hands to the work queue: one at
 * once, one thirty minutes before the activity and one a day before it, each
 * carrying the pet's name, the activity type and the activity's time printed
 * as "dd.MM.yyyy HH:mm".
 */
module Reminders {
  import opened Wrappers
  import opened Calendar
  import opened Text

  /** The input data of a reminder: the keys pet_name, activity_type and activity_time. */
  datatype Payload = Payload(petName: Option<string>, activityType: string, activityTime: string)

  /** A one-time work request: run the notification worker after `initialDelayMillis` with `input`. */
  datatype WorkRequest = WorkRequest(initialDelayMillis: int, input: Payload)

  // ---------------------------------------------------------------------
  // The "dd.MM.yyyy HH:mm" pattern

  /**
   * The year field of the pattern: the year of era with at least four digits,
   * and a leading '+' once it needs more than four.
   */
  function FourDigitYear(year: int): string {
    var y := YearOfEraField(year);
    if y > 9999 then "+" + Decimal(y) else ZeroPadded(y, 4)
  }

  lemma FourDigitYearField(year: int)
    ensures var y, s := YearOfEraField(year), FourDigitYear(year);
      && (y <= 9999 ==> |s| == 4 && AllDigits(s) && ValueOf(s) == y)
      && (y > 9999 ==> |s| >= 6 && s[0] == '+' && AllDigits(s[1..]) && ValueOf(s[1..]) == y)
  {
    var y := YearOfEraField(year);
    if y <= 9999 {
      assert Pow10(4) == 10000;
      ZeroPaddedField(y, 4);
    } else {
      var s := FourDigitYear(year);
      assert s[1..] == Decimal(y);
      ValueOfDecimal(y);
      assert Pow10(4) == 10000;
      LengthBoundsValue(Decimal(y));
      PowMonotone(|Decimal(y)|, 4);
    }
  }

  /** A digit string of length k reads back as less than 10^k. */
  lemma {:induction false} LengthBoundsValue(s: string)
    requires AllDigits(s)
    ensures ValueOf(s) < Pow10(|s|)
  {
    if s != [] {
      LengthBoundsValue(s[..|s| - 1]);
    }
  }

  lemma {:induction false} PowMonotone(k: nat, m: nat)
    ensures k <= m ==> Pow10(k) <= Pow10(m)
    decreases m
  {
    if k <= m && k < m {
      PowMonotone(k, m - 1);
    }
  }

  /** `dateTime.format(DateTimeFormatter.ofPattern("dd.MM.yyyy HH:mm"))`. */
  function FormatActivityTime(t: LocalDateTime): string {
    ZeroPadded(t.date.day, 2) + "." + ZeroPadded(t.date.month, 2) + "."
      + FourDigitYear(t.date.year) + " " + ZeroPadded(Hour(t), 2) + ":" + ZeroPadded(Minute(t), 2)
  }

  /**
   * The printed time: two-digit day and month separated by dots, the year
   * field, a space, then two-digit hour and minute around a colon, each
   * reading back as the field it prints.
   */
  lemma ActivityTimeFields(t: LocalDateTime)
    ensures var s, k := FormatActivityTime(t), |FormatActivityTime(t)|;
      && k == 12 + |FourDigitYear(t.date.year)|
      && s[2] == '.' && s[5] == '.' && s[k - 6] == ' ' && s[k - 3] == ':'
      && AllDigits(s[0..2]) && ValueOf(s[0..2]) == t.date.day
      && AllDigits(s[3..5]) && ValueOf(s[3..5]) == t.date.month
      && s[6..k - 6] == FourDigitYear(t.date.year)
      && AllDigits(s[k - 5..k - 3]) && ValueOf(s[k - 5..k - 3]) == Hour(t)
      && AllDigits(s[k - 2..]) && ValueOf(s[k - 2..]) == Minute(t)
  {
    assert Pow10(2) == 100;
    ZeroPaddedField(t.date.day, 2);
    ZeroPaddedField(t.date.month, 2);
    ZeroPaddedField(Hour(t), 2);
    ZeroPaddedField(Minute(t), 2);
    DatePieces(t);
    TimePieces(t);
  }

  lemma DatePieces(t: LocalDateTime)
    requires |ZeroPadded(t.date.day, 2)| == 2 && |ZeroPadded(t.date.month, 2)| == 2
    ensures var s := FormatActivityTime(t);
      && s[0..2] == ZeroPadded(t.date.day, 2) && s[3..5] == ZeroPadded(t.date.month, 2)
      && s[6..6 + |FourDigitYear(t.date.year)|] == FourDigitYear(t.date.year)
  {
  }

  lemma TimePieces(t: LocalDateTime)
    requires |ZeroPadded(Hour(t), 2)| == 2 && |ZeroPadded(Minute(t), 2)| == 2
    ensures var s, k := FormatActivityTime(t), |FormatActivityTime(t)|;
      && s[k - 5..k - 3] == ZeroPadded(Hour(t), 2) && s[k - 2..] == ZeroPadded(Minute(t), 2)
  {
  }

  /** For years 1 to 9999 the printed time is exactly sixteen characters. */
  lemma ActivityTimeLength(t: LocalDateTime)
    requires 1 <= t.date.year <= 9999
    ensures |FormatActivityTime(t)| == 16
    ensures FormatActivityTime(t)[10] == ' ' && FormatActivityTime(t)[13] == ':'
  {
    FourDigitYearField(t.date.year);
    ActivityTimeFields(t);
  }

  // ---------------------------------------------------------------------
  // Delays

  const ThirtyMinutesBefore: int := 30
  const OneDayBefore: int := 1

  /**
   * A delayed reminder for `target`, read against the clock value `now`:
   * `Duration.between(now, target).toMillis()` and enqueued only when positive.
   */
  function DelayedReminder(target: LocalDateTime, now: LocalDateTime, payload: Payload): seq<WorkRequest> {
    var delay := MillisBetween(now, target);
    if delay > 0 then [WorkRequest(delay, payload)] else []
  }

  /**
   * `w` waits the whole number of milliseconds in `lead` nanoseconds, rounded
   * down, and that number is positive.
   */
  predicate WaitsFor(w: WorkRequest, lead: int) {
    && w.initialDelayMillis > 0
    && w.initialDelayMillis * NanosPerMilli <= lead < (w.initialDelayMillis + 1) * NanosPerMilli
  }

  /**
   * The requests `scheduleNotification` enqueues, in order. The clock is read
   * twice, once per delayed reminder: `nowThirty` and `nowDay` are those readings.
   */
  function PlanReminders(dateTime: LocalDateTime, nowThirty: LocalDateTime, nowDay: LocalDateTime, payload: Payload): (r: seq<WorkRequest>)
    ensures var leadThirty := ToNanos(dateTime) - ThirtyMinutesBefore * NanosPerMinute - ToNanos(nowThirty);
      var leadDay := ToNanos(dateTime) - OneDayBefore * NanosPerDay - ToNanos(nowDay);
      && |r| == 1 + (if leadThirty >= NanosPerMilli then 1 else 0) + (if leadDay >= NanosPerMilli then 1 else 0)
      && r[0] == WorkRequest(0, payload)
      && (forall w :: w in r ==> w.input == payload)
      && (leadThirty >= NanosPerMilli ==> WaitsFor(r[1], leadThirty))
      && (leadDay >= NanosPerMilli ==> WaitsFor(r[|r| - 1], leadDay))
  {
    [WorkRequest(0, payload)]
      + DelayedReminder(MinusMinutes(dateTime, ThirtyMinutesBefore), nowThirty, payload)
      + DelayedReminder(MinusDays(dateTime, OneDayBefore), nowDay, payload)
  }

  /**
   * With the clock read in order, a day-before reminder is only ever enqueued
   * together with a thirty-minutes-before one, and it fires no later than it.
   */
  lemma DayReminderNeedsThirtyMinuteReminder(dateTime: LocalDateTime, nowThirty: LocalDateTime, nowDay: LocalDateTime, payload: Payload)
    requires ToNanos(nowThirty) <= ToNanos(nowDay)
    ensures var r := PlanReminders(dateTime, nowThirty, nowDay, payload);
      ToNanos(dateTime) - OneDayBefore * NanosPerDay - ToNanos(nowDay) >= NanosPerMilli ==> |r| == 3
    ensures var r := PlanReminders(dateTime, nowThirty, nowDay, payload);
      |r| == 3 ==> r[2].initialDelayMillis <= r[1].initialDelayMillis
  {
    var r := PlanReminders(dateTime, nowThirty, nowDay, payload);
    var leadThirty := ToNanos(dateTime) - ThirtyMinutesBefore * NanosPerMinute - ToNanos(nowThirty);
    var leadDay := ToNanos(dateTime) - OneDayBefore * NanosPerDay - ToNanos(nowDay);
    assert leadDay < leadThirty;
    if |r| == 3 {
      assert WaitsFor(r[1], leadThirty) && WaitsFor(r[2], leadDay);
      assert r[2].initialDelayMillis * NanosPerMilli < (r[1].initialDelayMillis + 1) * NanosPerMilli;
    }
  }

  /** A lead of a whole number of milliseconds is waited exactly. */
  lemma WaitsForWholeMillis(w: WorkRequest, n: int)
    requires WaitsFor(w, n * NanosPerMilli)
    ensures w.initialDelayMillis == n
  {
    var d := w.initialDelayMillis;
    assert d * NanosPerMilli <= n * NanosPerMilli < (d + 1) * NanosPerMilli;
  }

  /** An activity two days ahead gets all three reminders, at 0 ms, 47.5 hours and 24 hours. */
  lemma TwoDaysAhead(dateTime: LocalDateTime, now: LocalDateTime, payload: Payload)
    requires ToNanos(dateTime) == ToNanos(now) + 2 * NanosPerDay
    ensures PlanReminders(dateTime, now, now, payload)
      == [WorkRequest(0, payload), WorkRequest(171_000_000, payload), WorkRequest(86_400_000, payload)]
  {
    var r := PlanReminders(dateTime, now, now, payload);
    var leadThirty := ToNanos(dateTime) - ThirtyMinutesBefore * NanosPerMinute - ToNanos(now);
    var leadDay := ToNanos(dateTime) - OneDayBefore * NanosPerDay - ToNanos(now);
    assert leadThirty == 171_000_000 * NanosPerMilli;
    assert leadDay == 86_400_000 * NanosPerMilli;
    assert |r| == 3;
    WaitsForWholeMillis(r[1], 171_000_000);
    WaitsForWholeMillis(r[2], 86_400_000);
  }

  /** An activity less than thirty minutes and a millisecond ahead, or already past, gets only the immediate reminder. */
  lemma SoonOrPast(dateTime: LocalDateTime, now: LocalDateTime, payload: Payload)
    requires ToNanos(dateTime) < ToNanos(now) + ThirtyMinutesBefore * NanosPerMinute + NanosPerMilli
    ensures PlanReminders(dateTime, now, now, payload) == [WorkRequest(0, payload)]
  {
  }
}
