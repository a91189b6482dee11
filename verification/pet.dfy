/**
 * The pet record of the `pets` table, and the two values the profile derives
 * from its stored birthday: the age in whole years and the `MM/dd/yy` label.
 */
module PetRecord {
  import opened Wrappers
  import opened Calendar
  import opened Text

  /**
   * A row of `pets`. `id` 0 means "not yet generated"; the birthday is kept as
   * its epoch day; `imageUri` is the path of the copied image file, if any.
   */
  datatype Pet = Pet(id: int, name: string, birthdayEpochDay: int, imageUri: Option<string>)

  function Birthday(p: Pet): LocalDate {
    OfEpochDay(p.birthdayEpochDay)
  }

  /** Months since year 0, January: `LocalDate.getProlepticMonth`. */
  function ProlepticMonth(d: LocalDate): int {
    d.year * 12 + d.month - 1
  }

  /**
   * `Period.between(start, end).years`: whole months between the two dates,
   * one fewer when the last month is not complete, counted in years towards zero.
   */
  function YearsBetween(start: LocalDate, end: LocalDate): int {
    var totalMonths := ProlepticMonth(end) - ProlepticMonth(start);
    var days := end.day - start.day;
    var months :=
      if totalMonths > 0 && days < 0 then totalMonths - 1
      else if totalMonths < 0 && days > 0 then totalMonths + 1
      else totalMonths;
    TruncDiv(months, 12)
  }

  /** `Pet.getAge`, with the clock's date `today` as a parameter. */
  function GetAge(p: Pet, today: LocalDate): int {
    YearsBetween(Birthday(p), today)
  }

  /** Lexicographic order on (year, month, day), which is `LocalDate.compareTo` on real dates. */
  predicate NotAfter(a: Date, b: Date) {
    a.year < b.year || (a.year == b.year && (a.month < b.month || (a.month == b.month && a.day <= b.day)))
  }

  /** The same month and day `n` years after `d`, whether or not that day exists. */
  function Anniversary(d: Date, n: int): Date {
    Date(d.year + n, d.month, d.day)
  }

  /**
   * From the birthday on, the age is the number of anniversaries reached:
   * the n-th anniversary is not after today and the (n+1)-th is.
   */
  lemma AgeCountsAnniversaries(birth: LocalDate, today: LocalDate)
    requires NotAfter(birth, today)
    ensures var age := YearsBetween(birth, today);
      age >= 0 && NotAfter(Anniversary(birth, age), today) && !NotAfter(Anniversary(birth, age + 1), today)
  {
    var y := today.year - birth.year;
    if NotAfter(Date(today.year, birth.month, birth.day), today) {
      assert YearsBetween(birth, today) == y;
    } else {
      assert y >= 1;
      assert YearsBetween(birth, today) == y - 1;
    }
  }

  /** The age is 0 from the birthday until the day before the first anniversary. */
  lemma AgeZeroBeforeFirstAnniversary(birth: LocalDate, today: LocalDate)
    requires NotAfter(birth, today) && !NotAfter(Anniversary(birth, 1), today)
    ensures YearsBetween(birth, today) == 0
  {
    AgeCountsAnniversaries(birth, today);
  }

  /** On the n-th anniversary of the birthday the age is exactly n. */
  lemma AgeOnAnniversary(birth: LocalDate, n: nat, today: LocalDate)
    requires today == Anniversary(birth, n)
    ensures YearsBetween(birth, today) == n
  {
    AgeCountsAnniversaries(birth, today);
  }

  /** Swapping the two dates negates the years, so before the birthday the age is never positive. */
  lemma YearsBetweenSwapped(a: LocalDate, b: LocalDate)
    ensures YearsBetween(b, a) == -YearsBetween(a, b)
  {
  }

  /** The `MM/dd/yy` pattern: two-digit month, day, and the last two digits of the year of era. */
  function FormatShortDate(d: LocalDate): string {
    ZeroPadded(d.month, 2) + "/" + ZeroPadded(d.day, 2) + "/" + ZeroPadded(YearOfEraField(d.year) % 100, 2)
  }

  /** `Pet.getFormattedDate`. */
  function GetFormattedDate(p: Pet): string {
    FormatShortDate(Birthday(p))
  }

  /** The label is eight characters: digits with slashes at positions 2 and 5, reading back as month, day and year. */
  lemma FormattedDateFields(d: LocalDate)
    ensures var s := FormatShortDate(d);
      && |s| == 8 && s[2] == '/' && s[5] == '/'
      && (forall i :: 0 <= i < 8 && i != 2 && i != 5 ==> IsDigit(s[i]))
      && AllDigits(s[0..2]) && ValueOf(s[0..2]) == d.month
      && AllDigits(s[3..5]) && ValueOf(s[3..5]) == d.day
      && AllDigits(s[6..8]) && ValueOf(s[6..8]) == YearOfEraField(d.year) % 100
  {
    var mm, dd, yy := ZeroPadded(d.month, 2), ZeroPadded(d.day, 2), ZeroPadded(YearOfEraField(d.year) % 100, 2);
    assert Pow10(2) == 100;
    ZeroPaddedField(d.month, 2);
    ZeroPaddedField(d.day, 2);
    ZeroPaddedField(YearOfEraField(d.year) % 100, 2);
    ShortDatePieces(d, mm, dd, yy);
  }

  lemma ShortDatePieces(d: LocalDate, mm: string, dd: string, yy: string)
    requires mm == ZeroPadded(d.month, 2) && dd == ZeroPadded(d.day, 2)
    requires yy == ZeroPadded(YearOfEraField(d.year) % 100, 2)
    requires |mm| == 2 && |dd| == 2 && |yy| == 2
    ensures var s := FormatShortDate(d);
      |s| == 8 && s[2] == '/' && s[5] == '/' && s[0..2] == mm && s[3..5] == dd && s[6..8] == yy
  {
    var s := FormatShortDate(d);
    assert s == mm + "/" + dd + "/" + yy;
  }
}
