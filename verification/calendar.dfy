/** The proleptic Gregorian calendar that Python's `datetime` uses, reduced to
    what the date resolver needs: validity, leap years, day ordinals and
    weekdays, stepping one day forward or back, adding a small number of
    days, and `%d/%m/%Y` formatting. Years run from 1 to 9999 as in
    `datetime`; stepping past either end is the `OverflowError` the program
    catches, modelled as `None`. */
module Calendar {
  import opened Wrappers
  import opened Strings

  datatype Date = Date(year: int, month: int, day: int)

  const MinYear := 1
  const MaxYear := 9999

  predicate IsLeapYear(y: int) {
    y % 4 == 0 && (y % 100 != 0 || y % 400 == 0)
  }

  function DaysInMonth(y: int, m: int): (n: int)
    requires 1 <= m <= 12
    ensures 28 <= n <= 31
    ensures n == 29 <==> m == 2 && IsLeapYear(y)
    ensures n == 31 <==> m in {1, 3, 5, 7, 8, 10, 12}
  {
    if m == 2 then (if IsLeapYear(y) then 29 else 28)
    else if m in {4, 6, 9, 11} then 30
    else 31
  }

  predicate ValidDate(d: Date) {
    && MinYear <= d.year <= MaxYear
    && 1 <= d.month <= 12
    && 1 <= d.day <= DaysInMonth(d.year, d.month)
  }

  // ---------------------------------------------------------------------------
  // Ordinals and weekdays
  // ---------------------------------------------------------------------------

  /** Days in the years before `y`, counting from year 1. */
  function DaysBeforeYear(y: int): int
    requires y >= 1
  {
    var p := y - 1;
    365 * p + p / 4 - p / 100 + p / 400
  }

  /** Days in the months of year `y` before month `m`. */
  function DaysBeforeMonth(y: int, m: int): int
    requires 1 <= m <= 12
  {
    [0, 31, 59, 90, 120, 151, 181, 212, 243, 273, 304, 334][m - 1]
      + (if m > 2 && IsLeapYear(y) then 1 else 0)
  }

  /** `date.toordinal()`: 1 January of year 1 is day 1. */
  function Ordinal(d: Date): int
    requires ValidDate(d)
  {
    DaysBeforeYear(d.year) + DaysBeforeMonth(d.year, d.month) + d.day
  }

  /** `d` comes strictly before `e` in the calendar: an earlier year, or the
      same year and an earlier month, or the same month and an earlier day. */
  predicate Before(d: Date, e: Date) {
    || d.year < e.year
    || (d.year == e.year && d.month < e.month)
    || (d.year == e.year && d.month == e.month && d.day < e.day)
  }

  /** Ordinals number the days in calendar order: an earlier date has a
      smaller ordinal, so distinct dates never share one. */
  lemma OrdinalIncreasing(d: Date, e: Date)
    requires ValidDate(d) && ValidDate(e) && Before(d, e)
    ensures Ordinal(d) < Ordinal(e)
  {
    if d.year < e.year {
      DayOfYearBound(d);
      YearsAccumulate(d.year + 1, e.year);
    } else if d.month < e.month {
      MonthsAccumulate(d.year, d.month + 1, e.month);
      MonthLength(d.year, d.month);
    }
  }

  /** The ordinal within its year of a valid date is at most the length of
      that year. */
  lemma DayOfYearBound(d: Date)
    requires ValidDate(d)
    ensures DaysBeforeMonth(d.year, d.month) + d.day <= DaysBeforeYear(d.year + 1) - DaysBeforeYear(d.year)
  {
    YearLength(d.year);
    if d.month < 12 {
      MonthLength(d.year, d.month);
      MonthsAccumulate(d.year, d.month + 1, 12);
    }
  }

  /** Days before month `m` never exceed days before a later month `n`. */
  lemma {:induction false} MonthsAccumulate(y: int, m: int, n: int)
    requires 1 <= m <= n <= 12
    ensures DaysBeforeMonth(y, m) <= DaysBeforeMonth(y, n)
    decreases n - m
  {
    if m < n {
      MonthLength(y, m);
      MonthsAccumulate(y, m + 1, n);
    }
  }

  /** Days before year `y` never exceed days before a later year `z`. */
  lemma {:induction false} YearsAccumulate(y: int, z: int)
    requires 1 <= y <= z
    ensures DaysBeforeYear(y) <= DaysBeforeYear(z)
    decreases z - y
  {
    if y < z {
      YearLength(y);
      YearsAccumulate(y + 1, z);
    }
  }

  /** `date.weekday()`: Monday is 0 and Sunday is 6; 1 January of year 1 was
      a Monday. */
  function Weekday(d: Date): (w: int)
    requires ValidDate(d)
    ensures 0 <= w < 7
  {
    (Ordinal(d) + 6) % 7
  }

  lemma YearLength(y: int)
    requires y >= 1
    ensures DaysBeforeYear(y + 1) == DaysBeforeYear(y) + (if IsLeapYear(y) then 366 else 365)
  {
    var p := y - 1;
    assert (p + 1) / 4 - p / 4 == (if y % 4 == 0 then 1 else 0);
    assert (p + 1) / 100 - p / 100 == (if y % 100 == 0 then 1 else 0);
    assert (p + 1) / 400 - p / 400 == (if y % 400 == 0 then 1 else 0);
  }

  lemma MonthLength(y: int, m: int)
    requires 1 <= m < 12
    ensures DaysBeforeMonth(y, m + 1) == DaysBeforeMonth(y, m) + DaysInMonth(y, m)
  {
  }

  // ---------------------------------------------------------------------------
  // Stepping one day
  // ---------------------------------------------------------------------------

  /** The calendar day after `d`; `None` after 31 December 9999. */
  function NextDay(d: Date): (r: Option<Date>)
    requires ValidDate(d)
    ensures r.Some? ==> ValidDate(r.value)
    ensures r.None? <==> d == Date(MaxYear, 12, 31)
  {
    if d.day < DaysInMonth(d.year, d.month) then Some(Date(d.year, d.month, d.day + 1))
    else if d.month < 12 then Some(Date(d.year, d.month + 1, 1))
    else if d.year < MaxYear then Some(Date(d.year + 1, 1, 1))
    else None
  }

  /** The calendar day before `d`; `None` before 1 January of year 1. */
  function PrevDay(d: Date): (r: Option<Date>)
    requires ValidDate(d)
    ensures r.Some? ==> ValidDate(r.value)
    ensures r.None? <==> d == Date(MinYear, 1, 1)
  {
    if d.day > 1 then Some(Date(d.year, d.month, d.day - 1))
    else if d.month > 1 then Some(Date(d.year, d.month - 1, DaysInMonth(d.year, d.month - 1)))
    else if d.year > MinYear then Some(Date(d.year - 1, 12, 31))
    else None
  }

  /** The next day is exactly one ordinal later, across month and year ends. */
  lemma NextDayOrdinal(d: Date)
    requires ValidDate(d) && NextDay(d).Some?
    ensures Ordinal(NextDay(d).value) == Ordinal(d) + 1
  {
    if d.day < DaysInMonth(d.year, d.month) {
    } else if d.month < 12 {
      MonthLength(d.year, d.month);
    } else {
      YearLength(d.year);
    }
  }

  /** Stepping forward and then back returns to the same day. */
  lemma PrevOfNext(d: Date)
    requires ValidDate(d) && NextDay(d).Some?
    ensures PrevDay(NextDay(d).value) == Some(d)
  {
  }

  /** Stepping back and then forward returns to the same day. */
  lemma NextOfPrev(d: Date)
    requires ValidDate(d) && PrevDay(d).Some?
    ensures NextDay(PrevDay(d).value) == Some(d)
  {
    var e := PrevDay(d).value;
    if d.day > 1 {
      assert e.day < DaysInMonth(e.year, e.month);
    } else if d.month > 1 {
      assert e.day == DaysInMonth(e.year, e.month) && e.month < 12;
    } else {
      assert e == Date(d.year - 1, 12, 31);
    }
  }

  /** The previous day is exactly one ordinal earlier: `dt - timedelta(days=1)`. */
  lemma PrevDayOrdinal(d: Date)
    requires ValidDate(d) && PrevDay(d).Some?
    ensures Ordinal(PrevDay(d).value) == Ordinal(d) - 1
  {
    NextOfPrev(d);
    NextDayOrdinal(PrevDay(d).value);
  }

  // ---------------------------------------------------------------------------
  // Adding days
  // ---------------------------------------------------------------------------

  /** `d + timedelta(days=n)`, `None` when the result would pass 9999. */
  function AddDays(d: Date, n: nat): (r: Option<Date>)
    requires ValidDate(d)
    ensures r.Some? ==> ValidDate(r.value)
    ensures n == 0 ==> r == Some(d)
    ensures r.Some? <==> Ordinal(d) + n <= Ordinal(Date(MaxYear, 12, 31))
    decreases n
  {
    if n == 0 then
      OrdinalAtMostLast(d);
      Some(d)
    else match NextDay(d)
      case None => None
      case Some(e) =>
        NextDayOrdinal(d);
        AddDays(e, n - 1)
  }

  /** No valid date lies after 31 December 9999. */
  lemma OrdinalAtMostLast(d: Date)
    requires ValidDate(d)
    ensures Ordinal(d) <= Ordinal(Date(MaxYear, 12, 31))
  {
    if d != Date(MaxYear, 12, 31) {
      OrdinalIncreasing(d, Date(MaxYear, 12, 31));
    }
  }

  /** A date less than a week before the end of the calendar (by the count
      `n` of at most six days that pass it) is one of the last six days of
      year 9999. */
  lemma InLastWeek(d: Date, n: nat)
    requires ValidDate(d) && n <= 6 && Ordinal(d) + n > Ordinal(Date(MaxYear, 12, 31))
    ensures d.year == MaxYear && d.month == 12 && d.day >= 26
  {
    assert Ordinal(Date(MaxYear, 12, 26)) + 5 == Ordinal(Date(MaxYear, 12, 31));
    if Before(d, Date(MaxYear, 12, 26)) {
      OrdinalIncreasing(d, Date(MaxYear, 12, 26));
      assert false;
    }
  }

  /** Adding `n` days moves the ordinal by exactly `n`. */
  lemma {:induction false} AddDaysOrdinal(d: Date, n: nat)
    requires ValidDate(d) && AddDays(d, n).Some?
    ensures Ordinal(AddDays(d, n).value) == Ordinal(d) + n
    decreases n
  {
    if n > 0 {
      var e := NextDay(d).value;
      NextDayOrdinal(d);
      AddDaysOrdinal(e, n - 1);
    }
  }

  /** Adding `n` days advances the weekday by `n` modulo 7. */
  lemma AddDaysWeekday(d: Date, n: nat)
    requires ValidDate(d) && AddDays(d, n).Some?
    ensures Weekday(AddDays(d, n).value) == (Weekday(d) + n) % 7
  {
    AddDaysOrdinal(d, n);
    ShiftMod7(Ordinal(d) + 6, n);
  }

  /** Adding `n` days lands on weekday `target` when `n` is the distance
      from the weekday of `d` to `target`, wrapping at most once. */
  lemma AddDaysLandsOn(d: Date, n: nat, e: Date, target: int)
    requires ValidDate(d) && AddDays(d, n) == Some(e) && 0 <= target < 7
    requires Weekday(d) + n == target || Weekday(d) + n == target + 7
    ensures Weekday(e) == target
  {
    AddDaysWeekday(d, n);
    WrapsOnce(Weekday(e), Weekday(d) + n, target);
  }

  /** A weekday `w` reached by a count `k` that is `target` or `target + 7`
      is `target`. */
  lemma WrapsOnce(w: int, k: int, target: int)
    requires w == k % 7 && 0 <= target < 7 && (k == target || k == target + 7)
    ensures w == target
  {
  }

  lemma ShiftMod7(a: int, n: int)
    ensures (a + n) % 7 == (a % 7 + n) % 7
  {
    var q := a / 7;
    assert a == 7 * q + a % 7;
    assert a + n == 7 * q + (a % 7 + n);
  }

  // ---------------------------------------------------------------------------
  // "%d/%m/%Y"
  // ---------------------------------------------------------------------------

  /** Reads back a `dd/mm/yyyy` string: two digits, a slash, two digits, a
      slash, four digits, and nothing else. */
  function ParseDayMonthYear(s: string): (r: Option<Date>)
    ensures r.Some? ==> |s| == 10 && s[2] == '/' && s[5] == '/'
  {
    if |s| == 10 && s[2] == '/' && s[5] == '/'
       && AllDigits(s[..2]) && AllDigits(s[3..5]) && AllDigits(s[6..])
    then Some(Date(NumberValue(s[6..]), NumberValue(s[3..5]), NumberValue(s[..2])))
    else None
  }

  /** `dt.strftime("%d/%m/%Y")`: zero-padded day and month, four-digit year;
      reading the text back gives the same date. */
  function FormatDate(d: Date): (r: string)
    requires ValidDate(d)
    ensures |r| == 10
    ensures ParseDayMonthYear(r) == Some(d)
  {
    var dd := PadNumber(d.day, 2);
    var mm := PadNumber(d.month, 2);
    var yyyy := PadNumber(d.year, 4);
    var r := dd + "/" + mm + "/" + yyyy;
    assert r[..2] == dd && r[3..5] == mm && r[6..] == yyyy;
    r
  }

  /** The other direction of the round trip: a `dd/mm/yyyy` string of a
      real day is exactly how that day prints. */
  lemma FormatAfterParse(s: string)
    requires ParseDayMonthYear(s).Some? && ValidDate(ParseDayMonthYear(s).value)
    ensures FormatDate(ParseDayMonthYear(s).value) == s
  {
    PadNumberValue(s[..2]);
    PadNumberValue(s[3..5]);
    PadNumberValue(s[6..]);
    assert s == s[..2] + "/" + s[3..5] + "/" + s[6..];
  }

  /** Distinct dates never print the same. */
  lemma FormatDateInjective(d: Date, e: Date)
    requires ValidDate(d) && ValidDate(e)
    requires FormatDate(d) == FormatDate(e)
    ensures d == e
  {
    assert ParseDayMonthYear(FormatDate(d)) == Some(d);
  }
}
