/** The date resolver (`parse_date_from_line`). A log line carries either a
    full date (`Jun 5, 3:45 PM`) or a weekday (`Tue 3:45 PM`); the full-date
    form is looked for first, and once it is found the weekday form is not
    consulted even when the full date turns out to be invalid. A weekday is
    resolved to the first day on or after the reference date with that
    weekday. The resulting moment then passes the 16:00 cutoff: anything
    strictly before 16:00 belongs to the previous calendar day. Every
    failure yields "" instead of an exception.

    The reference date stands for `datetime.now()`; `strptime` is replaced
    by the checks its C-locale patterns perform (`%b`, `%d`, `%I`, `%M`,
    `%p`). */
module DateResolver {
  import opened Wrappers
  import opened Strings
  import opened Calendar
  import opened Matchers

  /** The default of `current_year`, the year a full date is read in. */
  const CurrentYear := 2025
  const CutoffHour := 16

  /** `weekday_map`, indexed as `date.weekday()` counts. */
  const WeekdayNames: seq<string> := ["Mon", "Tue", "Wed", "Thu", "Fri", "Sat", "Sun"]

  /** The C-locale month abbreviations `%b` accepts, compared lower-cased. */
  const MonthNames: seq<string> := ["jan", "feb", "mar", "apr", "may", "jun", "jul", "aug", "sep", "oct", "nov", "dec"]

  /** What `strptime` yields: a calendar day and a 24-hour clock time. */
  datatype Timestamp = Timestamp(date: Date, hour: int, minute: int)

  predicate ValidTimestamp(t: Timestamp) {
    ValidDate(t.date) && 0 <= t.hour < 24 && 0 <= t.minute < 60
  }

  /** `names.index(s)`: the first position holding `s`. */
  function IndexIn(names: seq<string>, s: string): (r: Option<nat>)
    ensures r.Some? ==> r.value < |names| && names[r.value] == s
    ensures r.Some? ==> forall j :: 0 <= j < r.value ==> names[j] != s
    ensures r.None? <==> s !in names
  {
    if |names| == 0 then None
    else if names[0] == s then Some(0)
    else match IndexIn(names[1..], s)
      case None => None
      case Some(k) => Some(k + 1)
  }

  /** `s[:3]`. */
  function Take3(s: string): string {
    if |s| <= 3 then s else s[..3]
  }

  /** `weekday_map.index(day_abbr[:3])`: exact, case-sensitive. */
  function WeekdayIndex(abbr: string): (r: Option<nat>)
    ensures r.Some? ==> r.value < 7 && WeekdayNames[r.value] == Take3(abbr)
    ensures r.None? <==> Take3(abbr) !in WeekdayNames
  {
    IndexIn(WeekdayNames, Take3(abbr))
  }

  /** `%b`: a three-letter month abbreviation in any letter case. */
  function MonthNumber(m: string): (r: Option<int>)
    ensures r.Some? ==> 1 <= r.value <= 12 && MonthNames[r.value - 1] == Lower(m)
    ensures r.None? <==> Lower(m) !in MonthNames
  {
    match IndexIn(MonthNames, Lower(m))
    case None => None
    case Some(k) => Some(k + 1)
  }

  /** `%I:%M %p` applied to the captured clock groups: an hour from 1 to 12,
      two minute digits up to 59, and exactly `am` or `pm` in any case,
      converted to a 24-hour time. */
  function ParseClock(c: ClockText): (r: Option<(int, int)>)
    ensures r.Some? <==>
      && AllDigits(c.hour) && AllDigits(c.minute)
      && 1 <= NumberValue(c.hour) <= 12 && NumberValue(c.minute) <= 59
      && Lower(c.meridiem) in {"am", "pm"}
    ensures r.Some? ==> 0 <= r.value.0 < 24 && r.value.1 == NumberValue(c.minute)
    ensures r.Some? ==> (r.value.0 >= 12 <==> Lower(c.meridiem) == "pm")
    ensures r.Some? ==> r.value.0 % 12 == NumberValue(c.hour) % 12
  {
    if !(AllDigits(c.hour) && AllDigits(c.minute)) then None
    else
      var h := NumberValue(c.hour);
      var m := NumberValue(c.minute);
      var mer := Lower(c.meridiem);
      if !(1 <= h <= 12 && m <= 59 && mer in {"am", "pm"}) then None
      else Some((h % 12 + (if mer == "pm" then 12 else 0), m))
  }

  /** The full-date branch: `strptime(f"{month} {day} {current_year} {time_str} {am_pm}",
      "%b %d %Y %I:%M %p")`, including the check that the day exists in
      that month of `CurrentYear`. */
  function ResolveFullDate(fd: FullDate): (r: Option<Timestamp>)
    ensures r.Some? ==> ValidTimestamp(r.value) && r.value.date.year == CurrentYear
    ensures r.Some? <==>
      && MonthNumber(fd.month).Some? && ParseClock(fd.clock).Some? && AllDigits(fd.day)
      && 1 <= NumberValue(fd.day) <= DaysInMonth(CurrentYear, MonthNumber(fd.month).value)
    ensures r.Some? ==>
      r.value == Timestamp(Date(CurrentYear, MonthNumber(fd.month).value, NumberValue(fd.day)),
                           ParseClock(fd.clock).value.0, ParseClock(fd.clock).value.1)
  {
    match (MonthNumber(fd.month), ParseClock(fd.clock))
    case (Some(m), Some(hm)) =>
      if AllDigits(fd.day) && 1 <= NumberValue(fd.day) <= DaysInMonth(CurrentYear, m)
      then Some(Timestamp(Date(CurrentYear, m, NumberValue(fd.day)), hm.0, hm.1))
      else None
    case _ => None
  }

  /** The weekday branch: the offset `(target - today) mod 7` from the
      reference date, then the clock time read as in the full-date branch. */
  function ResolveWeekday(dt: DayTime, today: Date): (r: Option<Timestamp>)
    requires ValidDate(today)
    ensures r.Some? ==> ValidTimestamp(r.value)
    ensures r.Some? <==>
      && WeekdayIndex(dt.day).Some? && ParseClock(dt.clock).Some?
      && NextOnOrAfter(today, WeekdayIndex(dt.day).value).Some?
    ensures r.Some? ==>
      r.value == Timestamp(NextOnOrAfter(today, WeekdayIndex(dt.day).value).value,
                           ParseClock(dt.clock).value.0, ParseClock(dt.clock).value.1)
    ensures (&& WeekdayIndex(dt.day).Some? && ParseClock(dt.clock).Some?
             && Ordinal(today) + 6 <= Ordinal(Date(MaxYear, 12, 31))) ==> r.Some?
    ensures WeekdayIndex(dt.day).Some? && ParseClock(dt.clock).Some? && r.None? ==>
              today.year == MaxYear && today.month == 12 && today.day >= 26
  {
    match WeekdayIndex(dt.day)
    case None => None
    case Some(target) =>
      match NextOnOrAfter(today, target)
      case None => None
      case Some(base) =>
        match ParseClock(dt.clock)
        case None => None
        case Some(hm) => Some(Timestamp(base, hm.0, hm.1))
  }

  /** `now + timedelta(days=delta)` for the offset below: the first day on or
      after `today` that falls on weekday `target`, unless that passes the
      end of year 9999. */
  function NextOnOrAfter(today: Date, target: int): (r: Option<Date>)
    requires ValidDate(today) && 0 <= target < 7
    ensures r.Some? ==> ValidDate(r.value) && Weekday(r.value) == target
    ensures r.Some? ==> 0 <= Ordinal(r.value) - Ordinal(today) <= 6
    ensures Ordinal(today) + 6 <= Ordinal(Date(MaxYear, 12, 31)) ==> r.Some?
    ensures r.None? ==> today.year == MaxYear && today.month == 12 && today.day >= 26
  {
    var delta := WeekdayOffset(target, Weekday(today));
    var r := AddDays(today, delta);
    if r.None? then
      InLastWeek(today, delta);
      r
    else
      ForwardWeekday(today, target, delta, r.value);
      ForwardDistance(today, target, delta, r.value);
      r
  }

  /** `(target_index - current_index) % 7`: the days from the current weekday
      forward to the target one, wrapping within the week. Python's `%` takes
      the sign of the divisor, so a negative difference wraps to the days
      left in the week (see `OffsetIsPythonModulo`). */
  function WeekdayOffset(target: int, current: int): (delta: nat)
    requires 0 <= target < 7 && 0 <= current < 7
    ensures delta < 7
    ensures current + delta == target || current + delta == target + 7
    ensures (current + delta) % 7 == target
  {
    if target >= current then target - current else target - current + 7
  }

  /** Both branches before the cutoff: the moment the line denotes, or
      `None` when parsing fails. */
  function ParseTimestamp(line: string, today: Date): (r: Option<Timestamp>)
    requires ValidDate(today)
    ensures r.Some? ==> ValidTimestamp(r.value)
    ensures SearchFullDate(line).Some? ==> r == ResolveFullDate(SearchFullDate(line).value)
    ensures SearchFullDate(line).None? && SearchDayTime(line).Some? ==>
              r == ResolveWeekday(SearchDayTime(line).value, today)
    ensures (forall p :: 0 <= p <= |line| ==> FullDateAt(line, p).None? && DayTimeAt(line, p).None?) ==> r.None?
  {
    match SearchFullDate(line)
    case Some(fd) => ResolveFullDate(fd)
    case None =>
      match SearchDayTime(line)
      case Some(dt) => ResolveWeekday(dt, today)
      case None => None
  }

  /** `adjust_by_4pm_rule`: strictly before 16:00 the day moves back by one;
      from 16:00 on it stays. The only failure is stepping back from the
      first representable day. */
  function AdjustByCutoff(t: Timestamp): (r: string)
    requires ValidTimestamp(t)
    ensures r == "" <==> t.hour < CutoffHour && t.date == Date(MinYear, 1, 1)
    ensures r != "" ==>
      && ParseDayMonthYear(r).Some?
      && ValidDate(ParseDayMonthYear(r).value)
      && FormatDate(ParseDayMonthYear(r).value) == r
      && Ordinal(ParseDayMonthYear(r).value) == Ordinal(t.date) - (if t.hour < CutoffHour then 1 else 0)
  {
    if t.hour < CutoffHour then
      match PrevDay(t.date)
      case None => ""
      case Some(d) =>
        PrevDayOrdinal(t.date);
        FormatDate(d)
    else FormatDate(t.date)
  }

  /** `parse_date_from_line(line)` with `datetime.now()` replaced by
      `today`: either "" or a well-formed `dd/mm/yyyy` date. */
  function ParseDateFromLine(line: string, today: Date): (r: string)
    requires ValidDate(today)
    ensures r != "" ==>
      && ParseDayMonthYear(r).Some?
      && ValidDate(ParseDayMonthYear(r).value)
      && FormatDate(ParseDayMonthYear(r).value) == r
    ensures ParseTimestamp(line, today).None? ==> r == ""
    ensures ParseTimestamp(line, today).Some? ==>
              (r == "" <==> && ParseTimestamp(line, today).value.hour < CutoffHour
                            && ParseTimestamp(line, today).value.date == Date(MinYear, 1, 1))
    ensures r != "" ==>
      && ParseTimestamp(line, today).Some?
      && var t := ParseTimestamp(line, today).value;
         Ordinal(ParseDayMonthYear(r).value) == Ordinal(t.date) - (if t.hour < CutoffHour then 1 else 0)
  {
    match ParseTimestamp(line, today)
    case None => ""
    case Some(t) => AdjustByCutoff(t)
  }

  // ---------------------------------------------------------------------------
  // Properties
  // ---------------------------------------------------------------------------

  /** The offset is the program's `(target_index - current_index) % 7`
      under Python's floored modulo, which Dafny's Euclidean `%` agrees with
      for a positive divisor. */
  lemma OffsetIsPythonModulo(target: int, current: int)
    requires 0 <= target < 7 && 0 <= current < 7
    ensures WeekdayOffset(target, current) == (target - current) % 7
  {
    if target < current {
      assert target - current == -1 * 7 + (target - current + 7);
    }
  }

  /** The weekday form resolves forward: the resolved day has the named
      weekday and lies 0 to 6 days after the reference date, never before. */
  lemma WeekdayResolvesForward(dt: DayTime, today: Date)
    requires ValidDate(today) && ResolveWeekday(dt, today).Some?
    ensures var d := ResolveWeekday(dt, today).value.date;
            && Weekday(d) == WeekdayIndex(dt.day).value
            && WeekdayNames[Weekday(d)] == Take3(dt.day)
            && 0 <= Ordinal(d) - Ordinal(today) <= 6
  {
    var target := WeekdayIndex(dt.day).value;
    assert ResolveWeekday(dt, today).value.date == NextOnOrAfter(today, target).value;
  }

  /** Moving forward by the weekday offset lands on the target weekday... */
  lemma ForwardWeekday(today: Date, target: int, delta: nat, d: Date)
    requires ValidDate(today) && 0 <= target < 7
    requires delta == WeekdayOffset(target, Weekday(today))
    requires AddDays(today, delta) == Some(d)
    ensures ValidDate(d) && Weekday(d) == target
  {
    AddDaysLandsOn(today, delta, d, target);
  }

  /** ... at most six days on. */
  lemma ForwardDistance(today: Date, target: int, delta: nat, d: Date)
    requires ValidDate(today) && 0 <= target < 7
    requires delta == WeekdayOffset(target, Weekday(today))
    requires AddDays(today, delta) == Some(d)
    ensures ValidDate(d) && 0 <= Ordinal(d) - Ordinal(today) <= 6
  {
    AddDaysOrdinal(today, delta);
  }

  /** The full-date form is tried first: once it is present, the weekday
      form and the reference date play no part, success or failure. */
  lemma FullDateTakesPrecedence(line: string, today: Date, other: Date)
    requires ValidDate(today) && ValidDate(other)
    requires SearchFullDate(line).Some?
    ensures ParseTimestamp(line, today) == ResolveFullDate(SearchFullDate(line).value)
    ensures ParseDateFromLine(line, today) == ParseDateFromLine(line, other)
  {
  }

  /** The cutoff rule on a whole line: before 16:00 the printed date is the
      day before the parsed one, from 16:00 on it is the parsed day. */
  lemma CutoffRule(line: string, today: Date)
    requires ValidDate(today) && ParseTimestamp(line, today).Some?
    ensures var t := ParseTimestamp(line, today).value;
            && (t.hour >= CutoffHour ==> ParseDateFromLine(line, today) == FormatDate(t.date))
            && (t.hour < CutoffHour && t.date != Date(MinYear, 1, 1) ==>
                  ParseDateFromLine(line, today) == FormatDate(PrevDay(t.date).value))
  {
    var t := ParseTimestamp(line, today).value;
    assert ParseDateFromLine(line, today) == AdjustByCutoff(t);
    if t.hour < CutoffHour && t.date != Date(MinYear, 1, 1) {
      assert AdjustByCutoff(t) == FormatDate(PrevDay(t.date).value);
    }
  }

  /** An abbreviation outside `Mon`..`Sun` (wrong case included) in the
      weekday form yields "" rather than an exception. */
  lemma UnknownWeekdayFails(line: string, today: Date)
    requires ValidDate(today)
    requires SearchFullDate(line).None? && SearchDayTime(line).Some?
    requires Take3(SearchDayTime(line).value.day) !in WeekdayNames
    ensures ParseDateFromLine(line, today) == ""
  {
  }

  /** An hour outside 1..12, minutes above 59 or a meridiem other than
      am/pm yields "" in either form. */
  lemma MalformedClockFails(line: string, today: Date)
    requires ValidDate(today)
    requires || (SearchFullDate(line).Some? && ParseClock(SearchFullDate(line).value.clock).None?)
             || (SearchFullDate(line).None? && SearchDayTime(line).Some?
                 && ParseClock(SearchDayTime(line).value.clock).None?)
    ensures ParseDateFromLine(line, today) == ""
  {
  }

  /** A worked case of the forward rule: "Tue 09:30 AM" read on Wednesday
      25 June 2025 is Tuesday 1 July 2025, six days later, not the Tuesday
      before. */
  lemma WeekdayExample()
    ensures ResolveWeekday(DayTime("Tue", ClockText("09", "30", "AM")), Date(2025, 6, 25))
         == Some(Timestamp(Date(2025, 7, 1), 9, 30))
  {
    var today := Date(2025, 6, 25);
    assert Ordinal(today) == 739427;
    assert Weekday(today) == 2;
    assert WeekdayIndex("Tue") == Some(1) by { assert Take3("Tue") == "Tue"; }
    assert WeekdayOffset(1, 2) == 6;
    SixDaysOn();
    NineThirty();
  }

  /** Six days on from 25 June 2025 is 1 July 2025, across the month end. */
  lemma SixDaysOn()
    ensures AddDays(Date(2025, 6, 25), 6) == Some(Date(2025, 7, 1))
  {
    assert AddDays(Date(2025, 7, 1), 0) == Some(Date(2025, 7, 1));
    assert AddDays(Date(2025, 6, 30), 1) == Some(Date(2025, 7, 1));
    assert AddDays(Date(2025, 6, 29), 2) == Some(Date(2025, 7, 1));
    assert AddDays(Date(2025, 6, 28), 3) == Some(Date(2025, 7, 1));
    assert AddDays(Date(2025, 6, 27), 4) == Some(Date(2025, 7, 1));
    assert AddDays(Date(2025, 6, 26), 5) == Some(Date(2025, 7, 1));
  }

  /** "09:30 AM" is 9 hours 30 minutes. */
  lemma NineThirty()
    ensures ParseClock(ClockText("09", "30", "AM")) == Some((9, 30))
  {
    assert Lower("AM") == "am";
    assert NumberValue("09") == 9 by { assert "09"[..1] == "0"; }
    assert NumberValue("30") == 30 by { assert "30"[..1] == "3"; }
  }

  /** The same moment after the cutoff rule: 09:30 is before 16:00, so the
      date printed is Monday 30 June 2025. */
  lemma CutoffExample()
    ensures AdjustByCutoff(Timestamp(Date(2025, 7, 1), 9, 30)) == "30/06/2025"
  {
    var s := "30/06/2025";
    assert s[..2] == "30" by { assert s[0] == '3' && s[1] == '0'; }
    assert s[3..5] == "06" by { assert s[3] == '0' && s[4] == '6'; }
    assert s[6..] == "2025";
    assert NumberValue("30") == 30 by { assert "30"[..1] == "3"; }
    assert NumberValue("06") == 6 by { assert "06"[..1] == "0"; }
    assert NumberValue("2025") == 2025 by {
      assert "2025"[..3] == "202" && "202"[..2] == "20" && "20"[..1] == "2";
    }
    assert ParseDayMonthYear(s) == Some(Date(2025, 6, 30));
    FormatAfterParse(s);
    assert PrevDay(Date(2025, 7, 1)) == Some(Date(2025, 6, 30));
  }

  /** A worked case of the full-date form, end to end: "Jun 5, 3:45 PM" is
      5 June 2025 at 15:45, before the cutoff, so it prints as the day
      before, whatever the reference date. */
  lemma FullDateLineExample(today: Date)
    requires ValidDate(today)
    ensures ParseDateFromLine("Jun 5, 3:45 PM", today) == "04/06/2025"
  {
    var fd := FullDate("Jun", "5", ClockText("3", "45", "PM"));
    JunFiveFound();
    JunFiveResolves();
    JunFourPrints();
    assert ParseTimestamp("Jun 5, 3:45 PM", today) == Some(Timestamp(Date(2025, 6, 5), 15, 45));
  }

  /** "Jun", "5" and "3:45 PM" read as 5 June 2025 at 15:45. */
  lemma JunFiveResolves()
    ensures ResolveFullDate(FullDate("Jun", "5", ClockText("3", "45", "PM")))
         == Some(Timestamp(Date(2025, 6, 5), 15, 45))
  {
    JuneIsSix();
    QuarterToFour();
    DayFive();
    ResolvesTo(FullDate("Jun", "5", ClockText("3", "45", "PM")), 6, (15, 45));
  }

  /** `%d` reads "5" as day 5, which June has. */
  lemma DayFive()
    ensures AllDigits("5") && NumberValue("5") == 5 && 5 <= DaysInMonth(CurrentYear, 6)
  {
  }

  /** A full date whose month, clock and day all read resolves to them. */
  lemma ResolvesTo(fd: FullDate, m: int, hm: (int, int))
    requires MonthNumber(fd.month) == Some(m) && ParseClock(fd.clock) == Some(hm)
    requires AllDigits(fd.day) && 1 <= NumberValue(fd.day) <= DaysInMonth(CurrentYear, m)
    ensures ResolveFullDate(fd) == Some(Timestamp(Date(CurrentYear, m, NumberValue(fd.day)), hm.0, hm.1))
  {
  }

  /** `%b` reads "Jun" as month 6. */
  lemma JuneIsSix()
    ensures MonthNumber("Jun") == Some(6)
  {
    assert Lower("Jun") == "jun";
    assert MonthNames[5] == "jun";
    var k := IndexIn(MonthNames, "jun").value;
    OnlyJune(k);
  }

  /** "jun" sits only at index 5 of the month list. */
  lemma OnlyJune(k: int)
    requires 0 <= k < 12 && MonthNames[k] == "jun"
    ensures k == 5
  {
  }

  /** "3:45 PM" is 15 hours 45 minutes. */
  lemma QuarterToFour()
    ensures ParseClock(ClockText("3", "45", "PM")) == Some((15, 45))
  {
    assert Lower("PM") == "pm";
    assert NumberValue("3") == 3;
    assert NumberValue("45") == 45 by { assert "45"[..1] == "4"; }
  }

  /** 15:45 is before 16:00, so 5 June 2025 prints as "04/06/2025". */
  lemma JunFourPrints()
    ensures AdjustByCutoff(Timestamp(Date(2025, 6, 5), 15, 45)) == "04/06/2025"
  {
    var s := "04/06/2025";
    assert s[..2] == "04" by { assert s[0] == '0' && s[1] == '4'; }
    assert s[3..5] == "06" by { assert s[3] == '0' && s[4] == '6'; }
    assert s[6..] == "2025";
    assert NumberValue("04") == 4 by { assert "04"[..1] == "0"; }
    assert NumberValue("06") == 6 by { assert "06"[..1] == "0"; }
    assert NumberValue("2025") == 2025 by {
      assert "2025"[..3] == "202" && "202"[..2] == "20" && "20"[..1] == "2";
    }
    assert ParseDayMonthYear(s) == Some(Date(2025, 6, 4));
    FormatAfterParse(s);
    assert PrevDay(Date(2025, 6, 5)) == Some(Date(2025, 6, 4));
  }
}
