/** The segmenter (`extract_data`). The pasted text is split into lines,
    trimmed, emptied lines and noise lines are dropped, and a cursor walks
    the survivors. At each position one of five shapes is recognised, and
    the shape alone decides how far the cursor moves:

      - a dated triplet (timestamp line, page line, `/Volumes` path line)
        emits a record and moves 3;
      - an undated triplet (the same three lines, but the date does not
        resolve) emits nothing and still moves 3;
      - a broken triplet (a timestamp line without the page and path after
        it) emits nothing and moves 1;
      - a CORP pair (a `CORP [WK n` line, then a `/Volumes` line, with at
        least one more line after them) emits a record and moves 2;
      - anything else moves 1.

    `StepAt` is the decision at one position, `Segment` the whole walk as a
    recursive definition, and `ExtractData` the loop as the program runs it;
    the loop is proved to produce exactly the records of the walk. */
module Extraction {
  import opened Wrappers
  import opened Strings
  import opened Calendar
  import opened Matchers
  import opened ProofStage
  import opened PageName
  import opened DateResolver
  import opened Cursor

  const Banner := "walmart"
  const Language := "All zones"
  const DirectUpload := "Direct Upload"
  const DefaultQc := "Hariharan"
  const VolumesPrefix := "/Volumes"
  const SiddikName := "Mohammed Siddik"
  const PrasanthName := "Prasanth As"

  /** The fixed date every CORP record carries. */
  const CorpDate := "25/06/2025"

  /** `unwanted_keywords`, matched against the lower-cased line. */
  const NoiseKeywords: seq<string> := ["unread", "confirm", "reduce"]

  /** One row of the result table. */
  datatype ProofRecord = ProofRecord(
    date: string,
    bannerName: string,
    week: string,
    pageName: string,
    proof: string,
    language: string,
    pageAssembler: string,
    qc: string)

  // ---------------------------------------------------------------------------
  // Line normalisation
  // ---------------------------------------------------------------------------

  /** Some line of `lines` trims to `x`. */
  predicate StripsTo(lines: seq<string>, x: string) {
    exists k :: 0 <= k < |lines| && Strip(lines[k]) == x
  }

  /** A line trims to `x` when the first one does or one of the others. */
  lemma StripsToStep(lines: seq<string>)
    requires |lines| > 0
    ensures forall x :: StripsTo(lines, x) <==> Strip(lines[0]) == x || StripsTo(lines[1..], x)
  {
    assert forall k :: 1 <= k < |lines| ==> lines[k] == lines[1..][k - 1];
    assert forall k :: 0 <= k < |lines[1..]| ==> lines[1..][k] == lines[k + 1];
  }

  /** `[line.strip() for line in lines if line.strip()]`. */
  function KeepStripped(lines: seq<string>): (r: seq<string>)
    ensures |r| <= |lines|
    ensures forall k :: 0 <= k < |r| ==> r[k] != "" && Strip(r[k]) == r[k]
    ensures forall x :: x in r <==> x != "" && StripsTo(lines, x)
  {
    if |lines| == 0 then []
    else
      var rest := KeepStripped(lines[1..]);
      var head := Strip(lines[0]);
      StripIdempotent(lines[0]);
      StripsToStep(lines);
      if head == "" then rest else [head] + rest
  }

  predicate IsNoise(line: string) {
    exists k :: 0 <= k < |NoiseKeywords| && Contains(Lower(line), NoiseKeywords[k])
  }

  /** `[line for line in lines if not any(k in line.lower() for k in unwanted_keywords)]`. */
  function DropNoise(lines: seq<string>): (r: seq<string>)
    ensures |r| <= |lines|
    ensures forall k :: 0 <= k < |r| ==> !IsNoise(r[k])
    ensures forall x :: x in r <==> x in lines && !IsNoise(x)
  {
    if |lines| == 0 then []
    else
      var rest := DropNoise(lines[1..]);
      assert forall x :: x in lines <==> x == lines[0] || x in lines[1..];
      if IsNoise(lines[0]) then rest else [lines[0]] + rest
  }

  /** The lines the cursor walks: non-empty, trimmed, noise-free. */
  function CleanLines(rawText: string): (r: seq<string>)
    ensures forall k :: 0 <= k < |r| ==> r[k] != "" && Strip(r[k]) == r[k] && !IsNoise(r[k])
  {
    var lines := KeepStripped(Split(rawText, '\n'));
    var r := DropNoise(lines);
    forall k | 0 <= k < |r|
      ensures r[k] != "" && Strip(r[k]) == r[k]
    {
      assert r[k] in lines;
      var j :| 0 <= j < |lines| && lines[j] == r[k];
    }
    r
  }

  /** Dropping noise works line by line, so it keeps the relative order of
      the surviving lines: filtering a concatenation is concatenating the
      filtered parts. */
  lemma {:induction false} DropNoiseAppend(a: seq<string>, b: seq<string>)
    ensures DropNoise(a + b) == DropNoise(a) + DropNoise(b)
  {
    if |a| > 0 {
      assert (a + b)[1..] == a[1..] + b;
      DropNoiseAppend(a[1..], b);
    } else {
      assert a + b == b;
    }
  }

  /** Trimming and dropping blank lines keeps the order in the same way. */
  lemma {:induction false} KeepStrippedAppend(a: seq<string>, b: seq<string>)
    ensures KeepStripped(a + b) == KeepStripped(a) + KeepStripped(b)
  {
    if |a| > 0 {
      assert (a + b)[1..] == a[1..] + b;
      KeepStrippedAppend(a[1..], b);
    } else {
      assert a + b == b;
    }
  }

  /** Filtering twice removes nothing more. */
  lemma {:induction false} DropNoiseIdempotent(lines: seq<string>)
    ensures DropNoise(DropNoise(lines)) == DropNoise(lines)
  {
    if |lines| > 0 {
      DropNoiseIdempotent(lines[1..]);
    }
  }

  /** Lines that are already clean pass through both filters unchanged. */
  lemma {:induction false} CleanLinesFixedPoint(lines: seq<string>)
    requires forall k :: 0 <= k < |lines| ==> lines[k] != "" && Strip(lines[k]) == lines[k] && !IsNoise(lines[k])
    ensures DropNoise(KeepStripped(lines)) == lines
  {
    if |lines| > 0 {
      CleanLinesFixedPoint(lines[1..]);
      assert KeepStripped(lines) == [lines[0]] + KeepStripped(lines[1..]);
    }
  }

  // ---------------------------------------------------------------------------
  // Record fields
  // ---------------------------------------------------------------------------

  /** The week column: "week-" and the digits of the first week token, or "". */
  function WeekField(pageName: string): (r: string)
    ensures r == "" <==> SearchWeek(pageName).None?
    ensures r != "" ==> |r| > 5 && r[..5] == "week-" && AllDigits(r[5..])
    ensures r != "" ==> r[5..] == SearchWeek(pageName).value
  {
    match SearchWeek(pageName)
    case None => ""
    case Some(digits) =>
      var r := "week-" + digits;
      assert r[5..] == digits;
      r
  }

  /** The QC column of a triplet: "Direct Upload" for pages whose trimmed,
      upper-cased line starts with `D-`. */
  function QcFor(pageLine: string): (r: string)
    ensures r in {DirectUpload, DefaultQc}
    ensures r == DirectUpload <==> StartsWith(Upper(Strip(pageLine)), "D-")
  {
    if StartsWith(Upper(Strip(pageLine)), "D-") then DirectUpload else DefaultQc
  }

  /** The page line's first non-space character, at `a`, is a `D` in
      either case and a `-` follows it. */
  predicate DashLeadAt(line: string, a: nat) {
    && a + 1 < |line|
    && (forall k :: 0 <= k < a ==> IsSpace(line[k]))
    && (line[a] == 'D' || line[a] == 'd')
    && line[a + 1] == '-'
  }

  /** The QC column read off the characters of the page line: a direct
      upload exactly when, past any leading whitespace, it opens with `D-`
      or `d-`. */
  lemma QcReadsLeadingDash(line: string)
    ensures QcFor(line) == DirectUpload <==> exists a: nat :: DashLeadAt(line, a)
  {
    if QcFor(line) == DirectUpload {
      DirectUploadHasDashLead(line);
    }
    if exists a: nat :: DashLeadAt(line, a) {
      var a: nat :| DashLeadAt(line, a);
      DashLeadIsDirectUpload(line, a);
    }
  }

  lemma DirectUploadHasDashLead(line: string)
    requires StartsWith(Upper(Strip(line)), "D-")
    ensures exists a: nat :: DashLeadAt(line, a)
  {
    var r := Strip(line);
    var a :| && 0 <= a <= |line| - |r| && OccursAt(line, r, a)
             && (forall k :: 0 <= k < a ==> IsSpace(line[k]))
             && (forall k :: a + |r| <= k < |line| ==> IsSpace(line[k]));
    assert UpperChar(r[0]) == 'D' && UpperChar(r[1]) == '-' by {
      assert Upper(r)[0] == 'D' && Upper(r)[1] == '-';
    }
    assert line[a] == r[0] && line[a + 1] == r[1] by {
      assert line[a..a + |r|] == r;
    }
    assert DashLeadAt(line, a);
  }

  lemma DashLeadIsDirectUpload(line: string, a: nat)
    requires DashLeadAt(line, a)
    ensures StartsWith(Upper(Strip(line)), "D-")
  {
    StripFrom(line, a, a);
    StripFrom(line, a, a + 1);
    var u := Upper(Strip(line));
    assert u[0] == 'D' && u[1] == '-';
    assert u[..2] == "D-";
  }

  /** The assembler column of a triplet: `line.split(',')[0].strip()`, the
      trimmed text before the first comma. */
  function AssemblerOf(line: string): (r: string)
    ensures r == Strip(line[..IndexOf(line, ',')])
    ensures ',' !in r
  {
    SplitHead(line, ',');
    var head := Split(line, ',')[0];
    var r := Strip(head);
    assert forall c :: c in r ==> c in head;
    r
  }

  /** The CORP line's assembler, read from the line before it; at the first
      position that is the last line, as Python's `lines[-1]` reads. */
  function PrevLine(lines: seq<string>, i: nat): (r: string)
    requires i < |lines|
    ensures r == lines[(i - 1) % |lines|]
    ensures r in lines
  {
    if i == 0 then lines[|lines| - 1] else lines[i - 1]
  }

  /** A `dd/mm/yyyy` string of a real calendar day, printed as `FormatDate`
      prints it. */
  predicate WellFormedDate(s: string) {
    && ParseDayMonthYear(s).Some?
    && ValidDate(ParseDayMonthYear(s).value)
    && FormatDate(ParseDayMonthYear(s).value) == s
  }

  /** What every emitted record satisfies, whichever shape produced it. */
  predicate WellFormedRecord(r: ProofRecord) {
    && r.bannerName == Banner
    && r.language == Language
    && (r.week == "" || (|r.week| > 5 && r.week[..5] == "week-" && AllDigits(r.week[5..])))
    && r.proof in StageResults
    && r.qc in {DirectUpload, DefaultQc}
    && ',' !in r.pageAssembler
    && WellFormedDate(r.date)
  }

  /** The row a dated triplet produces. */
  function TripletRecord(timestampLine: string, pageLine: string, pathLine: string, date: string): (r: ProofRecord)
    ensures r.date == date
    ensures r.pageName == CleanPageName(pageLine)
    ensures r.proof == DetectProof(r.pageName, pathLine)
    ensures r.pageAssembler == Strip(timestampLine[..IndexOf(timestampLine, ',')])
    ensures r.qc == DirectUpload <==> StartsWith(Upper(Strip(pageLine)), "D-")
    ensures r.week == WeekField(r.pageName)
    ensures r.bannerName == Banner && r.language == Language
    ensures WellFormedDate(date) ==> WellFormedRecord(r)
  {
    var name := CleanPageName(pageLine);
    ProofRecord(date, Banner, WeekField(name), name, DetectProof(name, pathLine),
                Language, AssemblerOf(timestampLine), QcFor(pageLine))
  }

  /** The row a CORP pair produces: fixed date and QC, the line itself as
      the page name, and one of two assemblers chosen by the line before. */
  function CorpRecord(prevLine: string, line: string, pathLine: string): (r: ProofRecord)
    ensures r.date == CorpDate && r.qc == DefaultQc && r.pageName == line
    ensures r.proof == DetectProof(line, pathLine)
    ensures r.pageAssembler in {SiddikName, PrasanthName}
    ensures r.pageAssembler == SiddikName <==> Contains(prevLine, SiddikName)
    ensures r.week == WeekField(line)
    ensures r.bannerName == Banner && r.language == Language
    ensures WellFormedRecord(r)
  {
    CorpDateIsDate();
    var assembler := if Contains(prevLine, SiddikName) then SiddikName else PrasanthName;
    KnownNamesHaveNoComma();
    var r := ProofRecord(CorpDate, Banner, WeekField(line), line, DetectProof(line, pathLine), Language,
                assembler, DefaultQc);
    assert r.proof in StageResults;
    assert r.week == "" || (|r.week| > 5 && r.week[..5] == "week-" && AllDigits(r.week[5..]));
    assert WellFormedDate(r.date);
    r
  }

  lemma KnownNamesHaveNoComma()
    ensures ',' !in SiddikName && ',' !in PrasanthName
  {
    var a := "Mohammed Siddik";
    var b := "Prasanth As";
    assert a == SiddikName && b == PrasanthName;
    assert forall k :: 0 <= k < |a| ==> a[k] != ',';
    assert forall k :: 0 <= k < |b| ==> b[k] != ',';
  }

  /** The fixed CORP date is itself a well-formed date: 25 June 2025. */
  lemma CorpDateIsDate()
    ensures ParseDayMonthYear(CorpDate) == Some(Date(2025, 6, 25))
    ensures WellFormedDate(CorpDate)
  {
    var s := "25/06/2025";
    assert s == CorpDate;
    assert s[..2] == "25" && s[3..5] == "06" && s[6..] == "2025";
    assert NumberValue("25") == 25 by { assert "25"[..1] == "2"; }
    assert NumberValue("06") == 6 by { assert "06"[..1] == "0"; }
    assert NumberValue("2025") == 2025 by {
      assert "2025"[..3] == "202" && "202"[..2] == "20" && "20"[..1] == "2";
    }
    FormatAfterParse(s);
  }

  /** A log line that begins with a trimmed, comma-free name and a comma
      names that assembler, whatever follows: "John Doe, Tue 3:45 PM" gives
      "John Doe". */
  lemma AssemblerIsLeadingName(name: string, rest: string)
    requires ',' !in name && Strip(name) == name
    requires |rest| > 0 && rest[0] == ','
    ensures AssemblerOf(name + rest) == name
  {
    IndexOfAfter(name, rest, ',');
    assert (name + rest)[..|name|] == name;
  }

  /** A page line that begins with `D-` or `d-` is a direct upload, whatever
      follows. */
  lemma DirectUploadPrefix(c: char, rest: string)
    requires c == 'D' || c == 'd'
    ensures QcFor([c, '-'] + rest) == DirectUpload
  {
    var line := [c, '-'] + rest;
    StripKeepsHead(line, 2);
    var u := Upper(Strip(line));
    assert u[0] == 'D' && u[1] == '-';
  }

  // ---------------------------------------------------------------------------
  // One step of the cursor
  // ---------------------------------------------------------------------------

  /** A line that opens a triplet: it has a comma and an `H:MM AM` time. */
  predicate IsTimestampLine(line: string) {
    ',' in line && HasClockTime(line)
  }

  /** A line opens a triplet exactly when it has a comma and, somewhere, one
      or two digits, a colon, two digits, optional whitespace and meridiem
      letters. */
  lemma TimestampLineIsPattern(line: string)
    ensures IsTimestampLine(line) <==> ',' in line && exists p: nat, ct :: p <= |line| && ClockLocated(line, p, ct)
  {
    HasClockTimeIsSearch(line);
  }

  /** The page/path check of a timestamp line: a non-empty next line and a
      `/Volumes` path after it. */
  predicate TripletFollows(lines: seq<string>, i: nat) {
    i + 2 < |lines| && lines[i + 1] != "" && StartsWith(lines[i + 2], VolumesPrefix)
  }

  /** The CORP condition: the tag on the line, a `/Volumes` line after it,
      and at least one more line after that. */
  predicate CorpFollows(lines: seq<string>, i: nat)
    requires i < |lines|
  {
    HasCorpTag(lines[i]) && i + 2 < |lines| && StartsWith(lines[i + 1], VolumesPrefix)
  }

  /** The triplet branch, taken at a timestamp line. */
  function TripletStep(lines: seq<string>, i: nat, today: Date): (r: Step<ProofRecord>)
    requires i < |lines| && ValidDate(today)
    ensures r.shape in {DatedTriplet, UndatedTriplet, BrokenTriplet}
    ensures r.shape in {DatedTriplet, UndatedTriplet} <==> TripletFollows(lines, i)
    ensures r.shape == DatedTriplet <==> TripletFollows(lines, i) && ParseDateFromLine(lines[i], today) != ""
    ensures r.record.Some? <==> r.shape == DatedTriplet
    ensures r.shape == DatedTriplet ==>
      r.record == Some(TripletRecord(lines[i], lines[i + 1], lines[i + 2], ParseDateFromLine(lines[i], today)))
    ensures r.record.Some? ==> WellFormedRecord(r.record.value)
  {
    var line := lines[i];
    var pageLine := if i + 1 < |lines| then lines[i + 1] else "";
    var pathLine := if i + 2 < |lines| then lines[i + 2] else "";
    if pageLine != "" && StartsWith(pathLine, VolumesPrefix) then
      assert |pathLine| > 0;
      var date := ParseDateFromLine(line, today);
      if date == "" then Step(UndatedTriplet, None)
      else Step(DatedTriplet, Some(TripletRecord(line, pageLine, pathLine, date)))
    else Step(BrokenTriplet, None)
  }

  /** The shape at position `i` and the record it emits, if any. */
  function StepAt(lines: seq<string>, i: nat, today: Date): (r: Step<ProofRecord>)
    requires i < |lines| && ValidDate(today)
    ensures i + Stride(r.shape) <= |lines|
    ensures r.shape in {DatedTriplet, UndatedTriplet, BrokenTriplet} <==> IsTimestampLine(lines[i])
    ensures r.shape in {DatedTriplet, UndatedTriplet} <==> IsTimestampLine(lines[i]) && TripletFollows(lines, i)
    ensures r.shape == CorpPair <==> !IsTimestampLine(lines[i]) && CorpFollows(lines, i)
    ensures r.record.Some? <==> r.shape in {DatedTriplet, CorpPair}
    ensures r.record.Some? ==> WellFormedRecord(r.record.value)
    ensures IsTimestampLine(lines[i]) ==> r == TripletStep(lines, i, today)
    ensures r.shape == CorpPair ==> r.record == Some(CorpRecord(PrevLine(lines, i), lines[i], lines[i + 1]))
  {
    var line := lines[i];
    if IsTimestampLine(line) then TripletStep(lines, i, today)
    else if CorpFollows(lines, i) then
      Step(CorpPair, Some(CorpRecord(PrevLine(lines, i), line, lines[i + 1])))
    else Step(Unrecognised, None)
  }

  // ---------------------------------------------------------------------------
  // The whole walk
  // ---------------------------------------------------------------------------

  /** The decision at every position of the cleaned lines. */
  function Steps(lines: seq<string>, today: Date): (r: seq<Step<ProofRecord>>)
    requires ValidDate(today)
    ensures |r| == |lines|
    ensures forall j :: 0 <= j < |lines| ==> r[j] == StepAt(lines, j, today)
    ensures ValidSteps(r)
  {
    seq(|lines|, j requires 0 <= j < |lines| => StepAt(lines, j, today))
  }

  /** The records the segmenter emits for `lines`, each with the position
      of the line that produced it. */
  function Segment(lines: seq<string>, today: Date): (r: seq<Emitted<ProofRecord>>)
    requires ValidDate(today)
    ensures forall k :: 0 <= k < |r| ==>
      && r[k].at < |lines|
      && StepAt(lines, r[k].at, today).shape in {DatedTriplet, CorpPair}
      && StepAt(lines, r[k].at, today).record == Some(r[k].record)
      && WellFormedRecord(r[k].record)
    ensures forall k, l :: 0 <= k < l < |r| ==> r[k].at + 2 <= r[l].at
    ensures 2 * |r| <= |lines|
  {
    Walk(Steps(lines, today), 0)
  }

  /** The segmenter emits a record at position `j` exactly when its cursor,
      started at the first line, stops at `j` and the decision there is a
      dated triplet or a CORP pair producing that record. */
  lemma SegmentEmitsExactly(lines: seq<string>, today: Date, j: nat, x: ProofRecord)
    requires ValidDate(today)
    ensures Emitted(j, x) in Segment(lines, today) <==>
            && Lands(Steps(lines, today), 0, j) && j < |lines|
            && StepAt(lines, j, today).shape in {DatedTriplet, CorpPair}
            && StepAt(lines, j, today).record == Some(x)
  {
    WalkEmitsExactly(Steps(lines, today), 0, j, x);
  }

  /** `extract_data(raw_text)` up to the list of rows, with `datetime.now()`
      replaced by `today`. */
  method ExtractData(rawText: string, today: Date) returns (records: seq<ProofRecord>)
    requires ValidDate(today)
    ensures records == Records(Segment(CleanLines(rawText), today))
    ensures 2 * |records| <= |CleanLines(rawText)|
    ensures forall k :: 0 <= k < |records| ==> WellFormedRecord(records[k])
  {
    var lines := CleanLines(rawText);
    records := CollectWalk(Steps(lines, today));
    RecordsAt(Segment(lines, today));
  }
}
