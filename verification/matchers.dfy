/** Hand-written matchers for the five regular expressions of the
    extraction pipeline. Each pattern is a sequence of greedy character runs
    where every run is followed by a token its class cannot match, so
    backtracking can never change the outcome at a given start position;
    `re.search` then reduces to "the first position where the anchored
    matcher succeeds", which is what `FirstMatch` computes. Character classes
    are the ASCII ones; case-insensitive patterns fold ASCII letters only. */
module Matchers {
  import opened Wrappers
  import opened Strings

  // ---------------------------------------------------------------------------
  // Runs and leftmost search
  // ---------------------------------------------------------------------------

  /** The length of the longest run of `cls` characters starting at `p`. */
  function Run(s: string, p: nat, cls: char -> bool): (n: nat)
    ensures n > 0 ==> p + n <= |s|
    ensures forall k :: p <= k < p + n ==> cls(s[k])
    ensures p + n < |s| ==> !cls(s[p + n])
    decreases |s| - p
  {
    if p < |s| && cls(s[p]) then 1 + Run(s, p + 1, cls) else 0
  }

  /** A run of `cls` characters from `a` that stops at `q`, where the text
      ends or a character outside `cls` stands, is the longest run: greedy
      matching finds exactly that end. */
  lemma {:induction false} RunEndsAt(s: string, a: nat, q: nat, cls: char -> bool)
    requires a <= q <= |s|
    requires forall k :: a <= k < q ==> cls(s[k])
    requires q == |s| || !cls(s[q])
    ensures a + Run(s, a, cls) == q
    decreases q - a
  {
    if a < q {
      RunEndsAt(s, a + 1, q, cls);
    }
  }

  /** `re.search`: the leftmost start position in `lo..hi` where `at`
      matches, together with what it matched. */
  function FirstMatch<T>(at: nat -> Option<T>, lo: nat, hi: nat): (r: Option<(nat, T)>)
    requires lo <= hi + 1
    ensures r.Some? ==> lo <= r.value.0 <= hi && at(r.value.0) == Some(r.value.1)
    ensures r.Some? ==> forall q :: lo <= q < r.value.0 ==> at(q).None?
    ensures r.None? ==> forall q :: lo <= q <= hi ==> at(q).None?
    decreases hi + 1 - lo
  {
    if lo == hi + 1 then None
    else match at(lo)
      case Some(v) => Some((lo, v))
      case None => FirstMatch(at, lo + 1, hi)
  }

  /** Everything from `p` up to `q` is whitespace. */
  predicate SpacesBetween(s: string, p: nat, q: nat) {
    p <= q <= |s| && forall k :: p <= k < q ==> IsSpace(s[k])
  }

  /** `t` is a non-empty run of `cls` characters at `q` in `s` that cannot
      be extended: the character after it, if any, is not in `cls`. */
  predicate MaximalRunAt(s: string, t: string, q: nat, cls: char -> bool) {
    && |t| >= 1
    && OccursAt(s, t, q)
    && (forall k :: 0 <= k < |t| ==> cls(t[k]))
    && (q + |t| < |s| ==> !cls(s[q + |t|]))
  }

  predicate IsMeridiemChar(c: char) {
    c in "APMapm"
  }

  /** The class `[KEEK\- ]` under `re.IGNORECASE`. */
  predicate IsWeekFiller(c: char) {
    c in "KkEe- "
  }

  // ---------------------------------------------------------------------------
  // (\d{1,2}:\d{2})\s*([APMapm]+)
  // ---------------------------------------------------------------------------

  /** The groups of a clock-time match: hour digits, minute digits, and the
      run of meridiem letters. */
  datatype ClockText = ClockText(hour: string, minute: string, meridiem: string)

  /** The width of `\d{1,2}` at `p` when the character after it is `sep`:
      two digits are tried before one, and 0 means no match. */
  function DigitsBefore(s: string, p: nat, sep: char): (w: nat)
    ensures w <= 2
    ensures w > 0 ==> p + w < |s| && s[p + w] == sep && AllDigits(s[p..p + w])
  {
    if p + 2 < |s| && IsDigit(s[p]) && IsDigit(s[p + 1]) && s[p + 2] == sep then 2
    else if p + 1 < |s| && IsDigit(s[p]) && s[p + 1] == sep then 1
    else 0
  }

  /** `\s*([APMapm]+)` anchored at `p`: the captured meridiem letters. */
  function MeridiemAt(s: string, p: nat): (r: Option<string>)
    ensures r.Some? ==> |r.value| >= 1
    ensures r.Some? ==> forall k :: 0 <= k < |r.value| ==> IsMeridiemChar(r.value[k])
    ensures r.Some? ==> exists q :: SpacesBetween(s, p, q) && MaximalRunAt(s, r.value, q, IsMeridiemChar)
  {
    var q := p + Run(s, p, IsSpace);
    var m := Run(s, q, IsMeridiemChar);
    if m == 0 then None
    else
      assert MaximalRunAt(s, s[q..q + m], q, IsMeridiemChar);
      Some(s[q..q + m])
  }

  /** `(\d{1,2}:\d{2})` anchored at `p`: hour digits, minute digits, and
      the position after them. */
  function HourMinuteAt(s: string, p: nat): (r: Option<(string, string, nat)>)
    ensures r.Some? ==> 1 <= |r.value.0| <= 2 && AllDigits(r.value.0)
    ensures r.Some? ==> |r.value.1| == 2 && AllDigits(r.value.1)
    ensures r.Some? ==> OccursAt(s, r.value.0 + ":" + r.value.1, p)
    ensures r.Some? ==> r.value.2 == p + |r.value.0| + 3
  {
    var h := DigitsBefore(s, p, ':');
    var c := p + h + 1;
    if h == 0 || !(c + 2 <= |s| && IsDigit(s[c]) && IsDigit(s[c + 1])) then None
    else
      var hour := s[p..p + h];
      var minute := s[c..c + 2];
      assert AllDigits(minute) by { assert minute[0] == s[c] && minute[1] == s[c + 1]; }
      assert s[p + h..c] == ":";
      assert s[p..c + 2] == hour + s[p + h..c] + minute;
      Some((hour, minute, c + 2))
  }

  /** The clock-time pattern anchored at `p`. */
  function ClockAt(s: string, p: nat): (r: Option<ClockText>)
    ensures r.Some? ==> 1 <= |r.value.hour| <= 2 && AllDigits(r.value.hour)
    ensures r.Some? ==> |r.value.minute| == 2 && AllDigits(r.value.minute)
    ensures r.Some? ==> |r.value.meridiem| >= 1
    ensures r.Some? ==> forall k :: 0 <= k < |r.value.meridiem| ==> IsMeridiemChar(r.value.meridiem[k])
    ensures r.Some? ==> OccursAt(s, r.value.hour + ":" + r.value.minute, p)
    ensures r.Some? ==> exists q ::
              && SpacesBetween(s, p + |r.value.hour| + 3, q)
              && MaximalRunAt(s, r.value.meridiem, q, IsMeridiemChar)
  {
    match HourMinuteAt(s, p)
    case None => None
    case Some(hm) =>
      match MeridiemAt(s, hm.2)
      case None => None
      case Some(m) => Some(ClockText(hm.0, hm.1, m))
  }

  /** `re.search(r'\d{1,2}:\d{2}\s*[APMapm]+', line)` is truthy. */
  predicate HasClockTime(s: string) {
    exists p :: 0 <= p <= |s| && ClockAt(s, p).Some?
  }

  /** Where the groups of a clock-time match at `p` sit: one or two hour
      digits, a colon and two minute digits at `p`, then, after optional
      whitespace, a run of meridiem letters that cannot be extended. */
  ghost predicate ClockLocated(s: string, p: nat, ct: ClockText) {
    && 1 <= |ct.hour| <= 2 && AllDigits(ct.hour)
    && |ct.minute| == 2 && AllDigits(ct.minute)
    && OccursAt(s, ct.hour + ":" + ct.minute, p)
    && exists q :: SpacesBetween(s, p + |ct.hour| + 3, q) && MaximalRunAt(s, ct.meridiem, q, IsMeridiemChar)
  }

  /** The clock matcher at `p` returns exactly the groups of a clock-time
      match there: it misses none and invents none. */
  lemma ClockAtIsPattern(s: string, p: nat, ct: ClockText)
    ensures ClockAt(s, p) == Some(ct) <==> ClockLocated(s, p, ct)
  {
    if ClockLocated(s, p, ct) {
      ClockAtComplete(s, p, ct);
    }
  }

  /** A clock-time match at `p` is found, with the groups it has. */
  lemma ClockAtComplete(s: string, p: nat, ct: ClockText)
    requires ClockLocated(s, p, ct)
    ensures ClockAt(s, p) == Some(ct)
  {
    var q :| SpacesBetween(s, p + |ct.hour| + 3, q) && MaximalRunAt(s, ct.meridiem, q, IsMeridiemChar);
    ClockAtVia(s, p, ct, q);
  }

  /** The clock-time match at `p` whose meridiem stands at `q` is found. */
  lemma ClockAtVia(s: string, p: nat, ct: ClockText, q: nat)
    requires 1 <= |ct.hour| <= 2 && AllDigits(ct.hour)
    requires |ct.minute| == 2 && AllDigits(ct.minute)
    requires OccursAt(s, ct.hour + ":" + ct.minute, p)
    requires SpacesBetween(s, p + |ct.hour| + 3, q) && MaximalRunAt(s, ct.meridiem, q, IsMeridiemChar)
    ensures ClockAt(s, p) == Some(ct)
  {
    HourMinuteComplete(s, p, ct.hour, ct.minute);
    MeridiemComplete(s, p + |ct.hour| + 3, q, ct.meridiem);
    ClockFrom(s, p, ct, p + |ct.hour| + 3);
  }

  /** The clock pattern is the hour and minute, then the meridiem. */
  lemma ClockFrom(s: string, p: nat, ct: ClockText, e: nat)
    requires HourMinuteAt(s, p) == Some((ct.hour, ct.minute, e))
    requires MeridiemAt(s, e) == Some(ct.meridiem)
    ensures ClockAt(s, p) == Some(ct)
  {
  }

  /** A maximal run `t` of `cls` at `q` is the run greedy matching takes
      there. */
  lemma MaximalRunFound(s: string, t: string, q: nat, cls: char -> bool)
    requires MaximalRunAt(s, t, q, cls)
    ensures Run(s, q, cls) == |t| && s[q..q + |t|] == t
    ensures q < |s| && s[q] == t[0] && cls(s[q])
  {
    assert s[q..q + |t|] == t;
    assert forall k :: q <= k < q + |t| ==> s[k] == t[k - q];
    RunEndsAt(s, q, q + |t|, cls);
  }

  /** One or two digits `d` followed by `sep` at `p` are the width
      `DigitsBefore` takes. */
  lemma DigitsBeforeComplete(s: string, p: nat, d: string, sep: char)
    requires 1 <= |d| <= 2 && AllDigits(d) && !IsDigit(sep)
    requires OccursAt(s, d + [sep], p)
    ensures DigitsBefore(s, p, sep) == |d|
  {
    assert s[p..p + |d| + 1] == d + [sep];
    assert s[p] == d[0] && s[p + |d|] == sep;
    if |d| == 2 {
      assert s[p + 1] == d[1];
    }
  }

  /** `H:MM` or `HH:MM` at `p` is what `HourMinuteAt` takes. */
  lemma HourMinuteComplete(s: string, p: nat, h: string, m: string)
    requires 1 <= |h| <= 2 && AllDigits(h) && |m| == 2 && AllDigits(m)
    requires OccursAt(s, h + ":" + m, p)
    ensures HourMinuteAt(s, p) == Some((h, m, p + |h| + 3))
  {
    var t := h + ":" + m;
    var c := p + |h| + 1;
    assert s[p..p + |t|] == t;
    assert s[p..c] == h + ":" by {
      assert s[p..c] == t[..|h| + 1];
    }
    DigitsBeforeComplete(s, p, h, ':');
    assert s[c..c + 2] == m by {
      assert s[c..c + 2] == t[|h| + 1..];
    }
    assert s[p..p + |h|] == h;
    assert s[c] == m[0] && s[c + 1] == m[1];
  }

  /** Whitespace from `p` to `q` and a maximal meridiem run at `q` are what
      `MeridiemAt` takes. */
  lemma MeridiemComplete(s: string, p: nat, q: nat, mer: string)
    requires SpacesBetween(s, p, q) && MaximalRunAt(s, mer, q, IsMeridiemChar)
    ensures MeridiemAt(s, p) == Some(mer)
  {
    MaximalRunFound(s, mer, q, IsMeridiemChar);
    assert !IsSpace(s[q]);
    RunEndsAt(s, p, q, IsSpace);
  }

  /** A clock-time match starts with a digit, so no whitespace run reaches
      into it. */
  lemma ClockStartsWithDigit(s: string, q: nat, ct: ClockText)
    requires ClockAt(s, q) == Some(ct)
    ensures q < |s| && IsDigit(s[q])
  {
    assert s[q..q + |ct.hour| + 3] == ct.hour + ":" + ct.minute;
    assert s[q] == ct.hour[0];
  }

  /** The clock-time test of a line holds exactly when a clock-time match
      sits somewhere in it. */
  lemma HasClockTimeIsSearch(s: string)
    ensures HasClockTime(s) <==> exists p: nat, ct :: p <= |s| && ClockLocated(s, p, ct)
  {
    if HasClockTime(s) {
      var p :| 0 <= p <= |s| && ClockAt(s, p).Some?;
      ClockAtIsPattern(s, p, ClockAt(s, p).value);
    }
    if exists p: nat, ct :: p <= |s| && ClockLocated(s, p, ct) {
      var p: nat, ct :| p <= |s| && ClockLocated(s, p, ct);
      ClockAtComplete(s, p, ct);
    }
  }

  // ---------------------------------------------------------------------------
  // (\w{3})\s+(\d{1,2}:\d{2})\s*([APMapm]+)
  // ---------------------------------------------------------------------------

  datatype DayTime = DayTime(day: string, clock: ClockText)

  /** `(\w{3})\s+` anchored at `p`: the three word characters and the
      position just after the spaces that follow them. */
  function DayWordAt(s: string, p: nat): (r: Option<(string, nat)>)
    ensures r.Some? ==> |r.value.0| == 3 && OccursAt(s, r.value.0, p)
    ensures r.Some? ==> forall k :: 0 <= k < 3 ==> IsWordChar(r.value.0[k])
  {
    if p + 3 <= |s| && IsWordChar(s[p]) && IsWordChar(s[p + 1]) && IsWordChar(s[p + 2]) then
      var day := s[p..p + 3];
      assert day[0] == s[p] && day[1] == s[p + 1] && day[2] == s[p + 2];
      var w := Run(s, p + 3, IsSpace);
      if w == 0 then None else Some((day, p + 3 + w))
    else None
  }

  /** The weekday-and-time pattern anchored at `p`. */
  function DayTimeAt(s: string, p: nat): (r: Option<DayTime>)
    ensures r.Some? ==> |r.value.day| == 3 && OccursAt(s, r.value.day, p)
    ensures r.Some? ==> forall k :: 0 <= k < 3 ==> IsWordChar(r.value.day[k])
    ensures r.Some? ==> exists q :: p + 3 < q && SpacesBetween(s, p + 3, q) && ClockAt(s, q) == Some(r.value.clock)
  {
    match DayWordAt(s, p)
    case None => None
    case Some(dw) =>
      match ClockAt(s, dw.1)
      case None => None
      case Some(c) => Some(DayTime(dw.0, c))
  }

  /** Where the groups of a weekday-and-time match at `p` sit: three word
      characters at `p`, at least one space, then a clock-time match. */
  ghost predicate DayTimeLocated(s: string, p: nat, dt: DayTime) {
    && |dt.day| == 3 && OccursAt(s, dt.day, p)
    && (forall k :: 0 <= k < 3 ==> IsWordChar(dt.day[k]))
    && exists q :: p + 3 < q && SpacesBetween(s, p + 3, q) && ClockLocated(s, q, dt.clock)
  }

  /** The weekday-and-time matcher at `p` returns exactly the groups of a
      match there. */
  lemma DayTimeAtIsPattern(s: string, p: nat, dt: DayTime)
    ensures DayTimeAt(s, p) == Some(dt) <==> DayTimeLocated(s, p, dt)
  {
    if DayTimeAt(s, p) == Some(dt) {
      DayTimeAtSound(s, p, dt);
    }
    if DayTimeLocated(s, p, dt) {
      DayTimeAtComplete(s, p, dt);
    }
  }

  /** What the weekday-and-time matcher returns is a match there. */
  lemma DayTimeAtSound(s: string, p: nat, dt: DayTime)
    requires DayTimeAt(s, p) == Some(dt)
    ensures DayTimeLocated(s, p, dt)
  {
    var q :| p + 3 < q && SpacesBetween(s, p + 3, q) && ClockAt(s, q) == Some(dt.clock);
    ClockAtIsPattern(s, q, dt.clock);
  }

  /** A weekday-and-time match at `p` is found, with the groups it has. */
  lemma DayTimeAtComplete(s: string, p: nat, dt: DayTime)
    requires DayTimeLocated(s, p, dt)
    ensures DayTimeAt(s, p) == Some(dt)
  {
    var q :| p + 3 < q && SpacesBetween(s, p + 3, q) && ClockLocated(s, q, dt.clock);
    DayTimeAtVia(s, p, dt, q);
  }

  /** The weekday-and-time match at `p` whose clock stands at `q` is
      found. */
  lemma DayTimeAtVia(s: string, p: nat, dt: DayTime, q: nat)
    requires |dt.day| == 3 && OccursAt(s, dt.day, p)
    requires forall k :: 0 <= k < 3 ==> IsWordChar(dt.day[k])
    requires p + 3 < q && SpacesBetween(s, p + 3, q) && ClockLocated(s, q, dt.clock)
    ensures DayTimeAt(s, p) == Some(dt)
  {
    ClockAtComplete(s, q, dt.clock);
    ClockStartsWithDigit(s, q, dt.clock);
    DayWordComplete(s, p, dt.day, q);
    DayTimeFrom(s, p, dt, q);
  }

  /** The weekday-and-time pattern is the day word, then the clock. */
  lemma DayTimeFrom(s: string, p: nat, dt: DayTime, q: nat)
    requires DayWordAt(s, p) == Some((dt.day, q)) && ClockAt(s, q) == Some(dt.clock)
    ensures DayTimeAt(s, p) == Some(dt)
  {
  }

  /** Three word characters at `p` and whitespace up to a non-space at `q`
      are what `DayWordAt` takes. */
  lemma DayWordComplete(s: string, p: nat, day: string, q: nat)
    requires |day| == 3 && OccursAt(s, day, p) && (forall k :: 0 <= k < 3 ==> IsWordChar(day[k]))
    requires p + 3 < q && SpacesBetween(s, p + 3, q) && q < |s| && !IsSpace(s[q])
    ensures DayWordAt(s, p) == Some((day, q))
  {
    assert s[p..p + 3] == day;
    assert s[p] == day[0] && s[p + 1] == day[1] && s[p + 2] == day[2];
    RunEndsAt(s, p + 3, q, IsSpace);
  }

  /** The groups of the leftmost weekday-and-time match in `s`. */
  function SearchDayTime(s: string): (r: Option<DayTime>)
    ensures r.Some? <==> exists p :: 0 <= p <= |s| && DayTimeAt(s, p).Some?
    ensures r.Some? ==> exists p ::
              && 0 <= p <= |s| && DayTimeAt(s, p) == r
              && forall q :: 0 <= q < p ==> DayTimeAt(s, q).None?
  {
    var at := q => DayTimeAt(s, q);
    var m := FirstMatch(at, 0, |s|);
    assert forall p :: at(p) == DayTimeAt(s, p);
    if m.None? then None
    else
      assert DayTimeAt(s, m.value.0).Some?;
      Some(m.value.1)
  }

  /** The weekday-and-time search reads a line exactly when the pattern
      matches somewhere in it. */
  lemma SearchDayTimeIsSearch(s: string)
    ensures SearchDayTime(s).Some? <==> exists p: nat, dt :: p <= |s| && DayTimeLocated(s, p, dt)
  {
    if SearchDayTime(s).Some? {
      var p :| 0 <= p <= |s| && DayTimeAt(s, p).Some?;
      DayTimeAtIsPattern(s, p, DayTimeAt(s, p).value);
    }
    if exists p: nat, dt :: p <= |s| && DayTimeLocated(s, p, dt) {
      var p: nat, dt :| p <= |s| && DayTimeLocated(s, p, dt);
      DayTimeAtComplete(s, p, dt);
    }
  }

  // ---------------------------------------------------------------------------
  // ([A-Za-z]{3,})\s+(\d{1,2}),\s+(\d{1,2}:\d{2})\s*([APMapm]+)
  // ---------------------------------------------------------------------------

  datatype FullDate = FullDate(month: string, day: string, clock: ClockText)

  /** `([A-Za-z]{3,})\s+` anchored at `p`: the month letters and the
      position just after the spaces that follow them. */
  function MonthWordAt(s: string, p: nat): (r: Option<(string, nat)>)
    ensures r.Some? ==> |r.value.0| >= 3 && MaximalRunAt(s, r.value.0, p, IsAsciiLetter)
    ensures r.Some? ==> p + |r.value.0| < r.value.1 && SpacesBetween(s, p + |r.value.0|, r.value.1)
    ensures r.Some? ==> r.value.1 < |s| ==> !IsSpace(s[r.value.1])
  {
    var l := Run(s, p, IsAsciiLetter);
    var w := Run(s, p + l, IsSpace);
    if l < 3 || w == 0 then None
    else
      var month := s[p..p + l];
      assert forall k :: 0 <= k < l ==> month[k] == s[p + k];
      assert MaximalRunAt(s, month, p, IsAsciiLetter);
      Some((month, p + l + w))
  }

  /** `(\d{1,2}),\s+` anchored at `q`: the day digits and the position just
      after the spaces that follow the comma. */
  function DayCommaAt(s: string, q: nat): (r: Option<(string, nat)>)
    ensures r.Some? ==> 1 <= |r.value.0| <= 2 && AllDigits(r.value.0)
    ensures r.Some? ==> OccursAt(s, r.value.0 + ",", q)
    ensures r.Some? ==> q + |r.value.0| + 1 < r.value.1 && SpacesBetween(s, q + |r.value.0| + 1, r.value.1)
    ensures r.Some? ==> r.value.1 < |s| ==> !IsSpace(s[r.value.1])
  {
    var d := DigitsBefore(s, q, ',');
    var c := q + d + 1;
    var w := Run(s, c, IsSpace);
    if d == 0 || w == 0 then None
    else
      var day := s[q..q + d];
      assert s[q..q + d + 1] == day + ",";
      Some((day, c + w))
  }

  /** Where the groups of a full-date match at `p` sit: the month is a
      maximal run of letters at `p`; after at least one space come the day
      digits and a comma; after at least one more space comes the clock. */
  ghost predicate FullDateLocated(s: string, p: nat, fd: FullDate) {
    && |fd.month| >= 3 && MaximalRunAt(s, fd.month, p, IsAsciiLetter)
    && 1 <= |fd.day| <= 2 && AllDigits(fd.day)
    && exists q ::
         && p + |fd.month| < q && SpacesBetween(s, p + |fd.month|, q)
         && OccursAt(s, fd.day + ",", q)
         && ClockAfterDay(s, q, fd)
  }

  /** After the day and comma at `q`: whitespace, then the clock of `fd`. */
  ghost predicate ClockAfterDay(s: string, q: nat, fd: FullDate) {
    exists c ::
      && q + |fd.day| + 1 < c && SpacesBetween(s, q + |fd.day| + 1, c)
      && ClockAt(s, c) == Some(fd.clock)
  }

  /** The month-day-and-time pattern anchored at `p`. */
  function FullDateAt(s: string, p: nat): (r: Option<FullDate>)
    ensures r.Some? ==> FullDateLocated(s, p, r.value)
  {
    match MonthWordAt(s, p)
    case None => None
    case Some(mw) =>
      match DayCommaAt(s, mw.1)
      case None => None
      case Some(dc) =>
        match ClockAt(s, dc.1)
        case None => None
        case Some(t) =>
          FullDateParts(s, p, mw, dc, t);
          Some(FullDate(mw.0, dc.0, t))
  }

  /** A month word, a day and comma, and a clock, one after the other, sit
      where `FullDateLocated` says. */
  lemma FullDateParts(s: string, p: nat, mw: (string, nat), dc: (string, nat), t: ClockText)
    requires MonthWordAt(s, p) == Some(mw) && DayCommaAt(s, mw.1) == Some(dc) && ClockAt(s, dc.1) == Some(t)
    ensures FullDateLocated(s, p, FullDate(mw.0, dc.0, t))
  {
    var fd := FullDate(mw.0, dc.0, t);
    assert ClockAfterDay(s, mw.1, fd) by {
      assert mw.1 + |dc.0| + 1 < dc.1 && SpacesBetween(s, mw.1 + |dc.0| + 1, dc.1);
    }
    assert && p + |mw.0| < mw.1 && SpacesBetween(s, p + |mw.0|, mw.1)
           && OccursAt(s, dc.0 + ",", mw.1);
  }

  /** The full-date matcher at `p` returns exactly the groups of a match
      there. */
  lemma FullDateAtIsPattern(s: string, p: nat, fd: FullDate)
    ensures FullDateAt(s, p) == Some(fd) <==> FullDateLocated(s, p, fd)
  {
    if FullDateLocated(s, p, fd) {
      FullDateAtComplete(s, p, fd);
    }
  }

  /** A month-day-and-time match at `p` is found, with the groups it has. */
  lemma FullDateAtComplete(s: string, p: nat, fd: FullDate)
    requires FullDateLocated(s, p, fd)
    ensures FullDateAt(s, p) == Some(fd)
  {
    var q :| && p + |fd.month| < q && SpacesBetween(s, p + |fd.month|, q)
             && OccursAt(s, fd.day + ",", q)
             && ClockAfterDay(s, q, fd);
    FullDateAtVia(s, p, fd, q);
  }

  /** The match of `fd` at `p` whose day stands at `q` is found. */
  lemma FullDateAtVia(s: string, p: nat, fd: FullDate, q: nat)
    requires |fd.month| >= 3 && MaximalRunAt(s, fd.month, p, IsAsciiLetter)
    requires 1 <= |fd.day| <= 2 && AllDigits(fd.day)
    requires p + |fd.month| < q && SpacesBetween(s, p + |fd.month|, q)
    requires OccursAt(s, fd.day + ",", q)
    requires ClockAfterDay(s, q, fd)
    ensures FullDateAt(s, p) == Some(fd)
  {
    var c :| && q + |fd.day| + 1 < c && SpacesBetween(s, q + |fd.day| + 1, c)
             && ClockAt(s, c) == Some(fd.clock);
    FullDateAtParts(s, p, fd, q, c);
  }

  /** The match of `fd` at `p` whose day stands at `q` and whose clock
      stands at `c` is found. */
  lemma FullDateAtParts(s: string, p: nat, fd: FullDate, q: nat, c: nat)
    requires |fd.month| >= 3 && MaximalRunAt(s, fd.month, p, IsAsciiLetter)
    requires 1 <= |fd.day| <= 2 && AllDigits(fd.day)
    requires p + |fd.month| < q && SpacesBetween(s, p + |fd.month|, q)
    requires OccursAt(s, fd.day + ",", q)
    requires q + |fd.day| + 1 < c && SpacesBetween(s, q + |fd.day| + 1, c)
    requires ClockAt(s, c) == Some(fd.clock)
    ensures FullDateAt(s, p) == Some(fd)
  {
    DayClockComplete(s, q, fd.day, c, fd.clock);
    DayStartsWithDigit(s, q, fd.day);
    MonthWordComplete(s, p, fd.month, q);
    FullDateFrom(s, p, (fd.month, q), (fd.day, c), fd.clock);
  }

  /** Digits and a comma at `q` start with a digit. */
  lemma DayStartsWithDigit(s: string, q: nat, day: string)
    requires 1 <= |day| && AllDigits(day) && OccursAt(s, day + ",", q)
    ensures q < |s| && IsDigit(s[q])
  {
    assert s[q..q + |day| + 1] == day + ",";
    assert s[q] == day[0];
  }

  /** The day and comma at `q`, then whitespace up to a clock-time match at
      `c`, are what `DayCommaAt` takes. */
  lemma DayClockComplete(s: string, q: nat, day: string, c: nat, ct: ClockText)
    requires 1 <= |day| <= 2 && AllDigits(day) && OccursAt(s, day + ",", q)
    requires q + |day| + 1 < c && SpacesBetween(s, q + |day| + 1, c) && ClockAt(s, c) == Some(ct)
    ensures DayCommaAt(s, q) == Some((day, c))
  {
    ClockStartsWithDigit(s, c, ct);
    DayCommaComplete(s, q, day, c);
  }

  /** A maximal letter run of three or more at `p` and whitespace up to a
      non-space at `q` are what `MonthWordAt` takes. */
  lemma MonthWordComplete(s: string, p: nat, month: string, q: nat)
    requires |month| >= 3 && MaximalRunAt(s, month, p, IsAsciiLetter)
    requires p + |month| < q && SpacesBetween(s, p + |month|, q) && q < |s| && !IsSpace(s[q])
    ensures MonthWordAt(s, p) == Some((month, q))
  {
    MaximalRunFound(s, month, p, IsAsciiLetter);
    RunEndsAt(s, p + |month|, q, IsSpace);
  }

  /** One or two digits and a comma at `q`, then whitespace up to a
      non-space at `c`, are what `DayCommaAt` takes. */
  lemma DayCommaComplete(s: string, q: nat, day: string, c: nat)
    requires 1 <= |day| <= 2 && AllDigits(day) && OccursAt(s, day + ",", q)
    requires q + |day| + 1 < c && SpacesBetween(s, q + |day| + 1, c) && c < |s| && !IsSpace(s[c])
    ensures DayCommaAt(s, q) == Some((day, c))
  {
    DigitsBeforeComplete(s, q, day, ',');
    RunEndsAt(s, q + |day| + 1, c, IsSpace);
    assert s[q..q + |day|] == day by {
      assert s[q..q + |day| + 1] == day + ",";
      assert s[q..q + |day|] == s[q..q + |day| + 1][..|day|];
      assert (day + ",")[..|day|] == day;
    }
  }

  /** The groups of the leftmost month-day-and-time match in `s`. */
  function SearchFullDate(s: string): (r: Option<FullDate>)
    ensures r.Some? <==> exists p :: 0 <= p <= |s| && FullDateAt(s, p).Some?
    ensures r.Some? ==> exists p ::
              && 0 <= p <= |s| && FullDateAt(s, p) == r
              && forall q :: 0 <= q < p ==> FullDateAt(s, q).None?
  {
    var at := q => FullDateAt(s, q);
    var m := FirstMatch(at, 0, |s|);
    assert forall p :: at(p) == FullDateAt(s, p);
    if m.None? then None
    else
      assert FullDateAt(s, m.value.0).Some?;
      Some(m.value.1)
  }

  /** The full-date search reads a line exactly when the pattern matches
      somewhere in it. */
  lemma SearchFullDateIsSearch(s: string)
    ensures SearchFullDate(s).Some? <==> exists p: nat, fd :: p <= |s| && FullDateLocated(s, p, fd)
  {
    if SearchFullDate(s).Some? {
      var p :| 0 <= p <= |s| && FullDateAt(s, p).Some?;
      FullDateAtIsPattern(s, p, FullDateAt(s, p).value);
    }
    if exists p: nat, fd :: p <= |s| && FullDateLocated(s, p, fd) {
      var p: nat, fd :| p <= |s| && FullDateLocated(s, p, fd);
      FullDateAtComplete(s, p, fd);
    }
  }

  // ---------------------------------------------------------------------------
  // \bW[KEEK\- ]*(\d+)   (re.IGNORECASE)
  // ---------------------------------------------------------------------------

  /** `(\d+)` at `q`: the maximal run of digits there, if there is one. */
  function DigitsAt(s: string, q: nat): (r: Option<string>)
    ensures r.Some? ==> AllDigits(r.value) && MaximalRunAt(s, r.value, q, IsDigit)
    ensures r.None? <==> q >= |s| || !IsDigit(s[q])
  {
    var n := Run(s, q, IsDigit);
    if n == 0 then None
    else
      assert MaximalRunAt(s, s[q..q + n], q, IsDigit);
      Some(s[q..q + n])
  }

  /** The week-token pattern anchored at `p`: a `W` that starts a word, any
      run of `K`, `E`, `-` and spaces, then the digits it captures. */
  function WeekAt(s: string, p: nat): (r: Option<string>)
    ensures r.Some? ==> |r.value| >= 1 && AllDigits(r.value)
    ensures r.Some? ==> p < |s| && s[p] in "Ww" && (p == 0 || !IsWordChar(s[p - 1]))
    ensures r.Some? ==> exists q ::
              && p < q <= |s| && (forall k :: p < k < q ==> IsWeekFiller(s[k]))
              && MaximalRunAt(s, r.value, q, IsDigit)
  {
    if p < |s| && s[p] in "Ww" && (p == 0 || !IsWordChar(s[p - 1])) then
      var q := p + 1 + Run(s, p + 1, IsWeekFiller);
      assert forall k :: p < k < q ==> IsWeekFiller(s[k]);
      DigitsAt(s, q)
    else None
  }

  /** Where a week-token match at `p` sits: a `W` that starts a word, a
      filler run, and a digit run that cannot be extended. */
  ghost predicate WeekLocated(s: string, p: nat, w: string) {
    && p < |s| && s[p] in "Ww" && (p == 0 || !IsWordChar(s[p - 1]))
    && exists q ::
         && p < q <= |s| && (forall k :: p < k < q ==> IsWeekFiller(s[k]))
         && MaximalRunAt(s, w, q, IsDigit)
  }

  /** The week matcher at `p` returns exactly the digits of a match there. */
  lemma WeekAtIsPattern(s: string, p: nat, w: string)
    ensures WeekAt(s, p) == Some(w) <==> WeekLocated(s, p, w)
  {
    if WeekLocated(s, p, w) {
      WeekAtComplete(s, p, w);
    }
  }

  /** A week-token match at `p` is found, with the digits it has. */
  lemma WeekAtComplete(s: string, p: nat, w: string)
    requires WeekLocated(s, p, w)
    ensures WeekAt(s, p) == Some(w)
  {
    var q :| && p < q <= |s| && (forall k :: p < k < q ==> IsWeekFiller(s[k]))
             && MaximalRunAt(s, w, q, IsDigit);
    WeekAtVia(s, p, w, q);
  }

  /** The week-token match at `p` whose digits stand at `q` is found. */
  lemma WeekAtVia(s: string, p: nat, w: string, q: nat)
    requires p < |s| && s[p] in "Ww" && (p == 0 || !IsWordChar(s[p - 1]))
    requires p < q <= |s| && (forall k :: p < k < q ==> IsWeekFiller(s[k]))
    requires MaximalRunAt(s, w, q, IsDigit)
    ensures WeekAt(s, p) == Some(w)
  {
    DigitsAtComplete(s, q, w);
    RunEndsAt(s, p + 1, q, IsWeekFiller);
    WeekFrom(s, p, w, q);
  }

  /** The week pattern is the `W`, the filler run, then the digits. */
  lemma WeekFrom(s: string, p: nat, w: string, q: nat)
    requires p < |s| && s[p] in "Ww" && (p == 0 || !IsWordChar(s[p - 1]))
    requires q == p + 1 + Run(s, p + 1, IsWeekFiller) && DigitsAt(s, q) == Some(w)
    ensures WeekAt(s, p) == Some(w)
  {
  }

  /** A maximal digit run at `q` is what `DigitsAt` takes; it starts with
      a digit, so no filler run reaches into it. */
  lemma DigitsAtComplete(s: string, q: nat, w: string)
    requires MaximalRunAt(s, w, q, IsDigit)
    ensures DigitsAt(s, q) == Some(w)
    ensures !IsWeekFiller(s[q])
  {
    MaximalRunFound(s, w, q, IsDigit);
  }

  /** The digits captured by the leftmost week-token match in `s`. */
  function SearchWeek(s: string): (r: Option<string>)
    ensures r.Some? ==> |r.value| >= 1 && AllDigits(r.value)
    ensures r.None? <==> forall p :: 0 <= p <= |s| ==> WeekAt(s, p).None?
    ensures r.Some? ==> exists p ::
              && 0 <= p <= |s| && WeekAt(s, p) == r
              && forall q :: 0 <= q < p ==> WeekAt(s, q).None?
  {
    var at := q => WeekAt(s, q);
    var m := FirstMatch(at, 0, |s|);
    assert forall p :: at(p) == WeekAt(s, p);
    if m.None? then None
    else
      assert WeekAt(s, m.value.0).Some?;
      Some(m.value.1)
  }

  /** The week search finds digits exactly when the pattern matches
      somewhere in the text. */
  lemma SearchWeekIsSearch(s: string)
    ensures SearchWeek(s).Some? <==> exists p: nat, w :: p <= |s| && WeekLocated(s, p, w)
  {
    if SearchWeek(s).Some? {
      var p :| 0 <= p <= |s| && WeekAt(s, p) == SearchWeek(s);
      WeekAtIsPattern(s, p, SearchWeek(s).value);
    }
    if exists p: nat, w :: p <= |s| && WeekLocated(s, p, w) {
      var p: nat, w :| p <= |s| && WeekLocated(s, p, w);
      WeekAtComplete(s, p, w);
    }
  }

  // ---------------------------------------------------------------------------
  // CORP\s*\[?WK\s*\d+   (re.IGNORECASE)
  // ---------------------------------------------------------------------------

  /** The department-tag pattern anchored at `p`: "corp", greedy
      whitespace, an optional `[`, then the rest at `WkDigitAt`. */
  predicate CorpAt(s: string, p: nat) {
    && p + 4 <= |s|
    && Lower(s[p..p + 4]) == "corp"
    && WkDigitAt(s, SkipBracket(s, p + 4 + Run(s, p + 4, IsSpace)))
  }

  /** `\[?`: one `[` is taken when it stands at `q`. */
  function SkipBracket(s: string, q: nat): (b: nat)
    ensures b == q || (b == q + 1 && q < |s| && s[q] == '[')
    ensures q < |s| && s[q] == '[' ==> b == q + 1
  {
    if q < |s| && s[q] == '[' then q + 1 else q
  }

  /** `WK\s*\d` at `b`, in any case, with greedy whitespace. */
  predicate WkDigitAt(s: string, b: nat) {
    && b + 2 <= |s|
    && Lower(s[b..b + 2]) == "wk"
    && DigitAfterSpaces(s, b + 2)
  }

  /** `\s*\d` at `a`: a digit after the longest whitespace run. */
  predicate DigitAfterSpaces(s: string, a: nat) {
    var e := a + Run(s, a, IsSpace);
    e < |s| && IsDigit(s[e])
  }

  /** `re.search(r'CORP\s*\[?WK\s*\d+', line, re.IGNORECASE)` is truthy. */
  predicate HasCorpTag(s: string) {
    exists p :: 0 <= p <= |s| && CorpAt(s, p)
  }

  /** The department-tag pattern read as a regular expression, with no
      particular way of matching it: "corp" in any case, whitespace, an
      optional `[`, "wk" in any case, whitespace, and a digit. */
  ghost predicate CorpPatternAt(s: string, p: nat) {
    && p + 4 <= |s| && Lower(s[p..p + 4]) == "corp"
    && exists q: nat, b: nat, e: nat :: CorpPatternVia(s, p, q, b, e)
  }

  /** The department-tag pattern matched at `p` through the whitespace run
      ending at `q`, the `wk` at `b` and the digit at `e`. */
  predicate CorpPatternVia(s: string, p: nat, q: nat, b: nat, e: nat) {
    && p + 4 <= |s| && Lower(s[p..p + 4]) == "corp"
    && SpacesBetween(s, p + 4, q)
    && (b == q || (b == q + 1 && q < |s| && s[q] == '['))
    && SpacesBetween(s, b + 2, e)
    && Lower(s[b..b + 2]) == "wk"
    && e < |s| && IsDigit(s[e])
  }

  /** The greedy matcher at `p` succeeds exactly when the pattern matches
      there in some way: no backtracking could find a match it misses. */
  lemma CorpAtIsPattern(s: string, p: nat)
    ensures CorpAt(s, p) <==> CorpPatternAt(s, p)
  {
    if CorpAt(s, p) {
      CorpAtMatches(s, p);
    }
    if CorpPatternAt(s, p) {
      var q: nat, b: nat, e: nat :| CorpPatternVia(s, p, q, b, e);
      CorpMatchFound(s, p, q, b, e);
    }
  }

  /** What the greedy matcher accepts is a match of the pattern. */
  lemma CorpAtMatches(s: string, p: nat)
    requires CorpAt(s, p)
    ensures CorpPatternAt(s, p)
  {
    var q := p + 4 + Run(s, p + 4, IsSpace);
    var b := SkipBracket(s, q);
    var e := b + 2 + Run(s, b + 2, IsSpace);
    assert CorpPatternVia(s, p, q, b, e);
  }

  /** Any match of the pattern at `p` is found by the greedy matcher: the
      runs it takes end where the match's runs end. */
  lemma CorpMatchFound(s: string, p: nat, q: nat, b: nat, e: nat)
    requires CorpPatternVia(s, p, q, b, e)
    ensures CorpAt(s, p)
  {
    WkFound(s, b, e);
    BracketFound(s, p + 4, q, b);
  }

  /** Whitespace from `a` to `q`, an optional `[` there, and a `w` at `b`:
      the greedy run and the bracket test end at `b`. */
  lemma BracketFound(s: string, a: nat, q: nat, b: nat)
    requires SpacesBetween(s, a, q)
    requires b == q || (b == q + 1 && q < |s| && s[q] == '[')
    requires b < |s| && (s[b] == 'w' || s[b] == 'W')
    ensures SkipBracket(s, a + Run(s, a, IsSpace)) == b
  {
    RunEndsAt(s, a, q, IsSpace);
  }

  /** `WK`, whitespace up to `e` and a digit there is what `WkDigitAt`
      accepts; its first letter is a `w` in either case. */
  lemma WkFound(s: string, b: nat, e: nat)
    requires SpacesBetween(s, b + 2, e) && Lower(s[b..b + 2]) == "wk"
    requires e < |s| && IsDigit(s[e])
    ensures WkDigitAt(s, b)
    ensures s[b] == 'w' || s[b] == 'W'
  {
    assert LowerChar(s[b]) == 'w' by { assert Lower(s[b..b + 2])[0] == 'w'; }
    RunEndsAt(s, b + 2, e, IsSpace);
  }

  /** The tag test of a line holds exactly when the pattern matches at some
      position of it. */
  lemma HasCorpTagIsSearch(s: string)
    ensures HasCorpTag(s) <==> exists p :: 0 <= p <= |s| && CorpPatternAt(s, p)
  {
    forall p | 0 <= p <= |s| {
      CorpAtIsPattern(s, p);
    }
  }

  /** The clock-time test that opens a triplet admits every line whose date
      either pattern of `parse_date_from_line` can read: each of them
      contains a clock time. */
  lemma DatedLinesHaveClock(s: string)
    ensures SearchFullDate(s).Some? || SearchDayTime(s).Some? ==> HasClockTime(s)
  {
    if SearchFullDate(s).Some? {
      var p :| 0 <= p <= |s| && FullDateAt(s, p) == SearchFullDate(s);
      FullDateHasClock(s, p, FullDateAt(s, p).value);
    } else if SearchDayTime(s).Some? {
      var p :| 0 <= p <= |s| && DayTimeAt(s, p) == SearchDayTime(s);
      DayTimeHasClock(s, p);
    }
  }

  lemma FullDateHasClock(s: string, p: nat, fd: FullDate)
    requires FullDateLocated(s, p, fd)
    ensures HasClockTime(s)
  {
    var q :| && p + |fd.month| < q && SpacesBetween(s, p + |fd.month|, q)
             && OccursAt(s, fd.day + ",", q)
             && ClockAfterDay(s, q, fd);
    ClockAfterDayFound(s, q, fd);
  }

  lemma ClockAfterDayFound(s: string, q: nat, fd: FullDate)
    requires ClockAfterDay(s, q, fd)
    ensures HasClockTime(s)
  {
    var c :| && q + |fd.day| + 1 < c && SpacesBetween(s, q + |fd.day| + 1, c)
             && ClockAt(s, c) == Some(fd.clock);
    ClockFoundAs(s, c, fd.clock);
  }

  lemma ClockFound(s: string, c: nat)
    requires c <= |s| && ClockAt(s, c).Some?
    ensures HasClockTime(s)
  {
  }

  lemma ClockFoundAs(s: string, c: nat, ct: ClockText)
    requires c <= |s| && ClockAt(s, c) == Some(ct)
    ensures HasClockTime(s)
  {
    ClockFound(s, c);
  }

  lemma DayTimeHasClock(s: string, p: nat)
    requires DayTimeAt(s, p).Some?
    ensures HasClockTime(s)
  {
    var q :| p + 3 < q && SpacesBetween(s, p + 3, q) && ClockAt(s, q) == Some(DayTimeAt(s, p).value.clock);
    ClockFound(s, q);
  }

  // ---------------------------------------------------------------------------
  // A worked match
  // ---------------------------------------------------------------------------

  /** The leftmost full-date match in "Jun 5, 3:45 PM" starts at its first
      character and captures every group. */
  lemma JunFiveFound()
    ensures SearchFullDate("Jun 5, 3:45 PM") == Some(FullDate("Jun", "5", ClockText("3", "45", "PM")))
  {
    var s := "Jun 5, 3:45 PM";
    JunFiveMonth();
    JunFiveDay();
    JunFiveClock();
    FullDateFrom(s, 0, ("Jun", 4), ("5", 7), ClockText("3", "45", "PM"));
    FullDateAtStart(s, FullDate("Jun", "5", ClockText("3", "45", "PM")));
  }

  /** The full-date pattern is a month word, a day and comma, and a clock,
      one after the other. */
  lemma FullDateFrom(s: string, p: nat, mw: (string, nat), dc: (string, nat), c: ClockText)
    requires MonthWordAt(s, p) == Some(mw) && DayCommaAt(s, mw.1) == Some(dc) && ClockAt(s, dc.1) == Some(c)
    ensures FullDateAt(s, p) == Some(FullDate(mw.0, dc.0, c))
  {
  }

  /** A full date that matches at the first character is what the search
      returns: no position lies before it. */
  lemma FullDateAtStart(s: string, fd: FullDate)
    requires FullDateAt(s, 0) == Some(fd)
    ensures SearchFullDate(s) == Some(fd)
  {
    var r := SearchFullDate(s);
    assert r.Some?;
    var p :| 0 <= p <= |s| && FullDateAt(s, p) == r && forall q :: 0 <= q < p ==> FullDateAt(s, q).None?;
    assert p == 0;
  }

  /** `([A-Za-z]{3,})\s+` on "Jun 5, 3:45 PM" takes "Jun" and stops at the "5". */
  lemma JunFiveMonth()
    ensures MonthWordAt("Jun 5, 3:45 PM", 0) == Some(("Jun", 4))
  {
    var s := "Jun 5, 3:45 PM";
    assert Run(s, 3, IsAsciiLetter) == 0;
    assert Run(s, 0, IsAsciiLetter) == 3;
    assert Run(s, 4, IsSpace) == 0;
    assert Run(s, 3, IsSpace) == 1;
    assert s[0..3] == "Jun";
  }

  /** `(\d{1,2}),\s+` at the "5" takes "5" and stops at the "3". */
  lemma JunFiveDay()
    ensures DayCommaAt("Jun 5, 3:45 PM", 4) == Some(("5", 7))
  {
    var s := "Jun 5, 3:45 PM";
    assert DigitsBefore(s, 4, ',') == 1;
    assert Run(s, 7, IsSpace) == 0;
    assert Run(s, 6, IsSpace) == 1;
    assert s[4..5] == "5";
  }

  /** The clock pattern at the "3" of "Jun 5, 3:45 PM" takes "3", "45"
      and "PM". */
  lemma JunFiveClock()
    ensures ClockAt("Jun 5, 3:45 PM", 7) == Some(ClockText("3", "45", "PM"))
  {
    JunFiveHourMinute();
    JunFiveMeridiem();
  }

  lemma JunFiveHourMinute()
    ensures HourMinuteAt("Jun 5, 3:45 PM", 7) == Some(("3", "45", 11))
  {
    var s := "Jun 5, 3:45 PM";
    assert DigitsBefore(s, 7, ':') == 1;
    assert s[7..8] == "3" && s[9..11] == "45";
  }

  lemma JunFiveMeridiem()
    ensures MeridiemAt("Jun 5, 3:45 PM", 11) == Some("PM")
  {
    var s := "Jun 5, 3:45 PM";
    assert Run(s, 12, IsSpace) == 0;
    assert Run(s, 11, IsSpace) == 1;
    assert Run(s, 14, IsMeridiemChar) == 0;
    assert Run(s, 12, IsMeridiemChar) == 2;
    assert s[12..14] == "PM";
  }
  /** The week token of "WK25_Digital" is "25": the `W` starts the text, the
      filler run is the `K`, and the digits stop at the underscore. */
  lemma WeekExample()
    ensures SearchWeek("WK25_Digital") == Some("25")
  {
    var s := "WK25_Digital";
    RunEndsAt(s, 1, 2, IsWeekFiller);
    RunEndsAt(s, 2, 4, IsDigit);
    assert s[2..4] == "25";
    WeekAtStart(s, "25");
  }

  /** A week token that matches at the first character is what the search
      returns. */
  lemma WeekAtStart(s: string, w: string)
    requires WeekAt(s, 0) == Some(w)
    ensures SearchWeek(s) == Some(w)
  {
    var r := SearchWeek(s);
    assert r.Some?;
    var p :| 0 <= p <= |s| && WeekAt(s, p) == r && forall q :: 0 <= q < p ==> WeekAt(s, q).None?;
    assert p == 0;
  }
}
