# Walmart proof-log extraction, modelled in Dafny

The uploader takes an activity log that was copied and pasted from a file-review tool. It turns that log into rows for a spreadsheet. Each row is a "proof record" with these fields:

- date;
- banner;
- week;
- page name;
- proof stage;
- language;
- page assembler;
- QC.

This project models the extraction core of `walmart_uploader_app.py` and proves properties of it. The core has four parts.

- **Proof-stage classifier** (`detect_proof`, module `ProofStage`). An ordered keyword cascade runs over the upper-cased page name and the normalised path, and the first rule that fires decides the stage. The cascade is also written down as a table of rules, and a lemma proves that the two agree.
- **Page-name normaliser** (`clean_page_name`, module `PageName`). A leading `AP-` or `PR-` stage prefix is moved to the end as ` -AP` or ` -PR`.
- **Date resolver** (`parse_date_from_line` with `adjust_by_4pm_rule`, module `DateResolver`). It first looks for a full date such as `Jun 5, 3:45 PM`, and only then for a weekday such as `Tue 3:45 PM`.
  - A weekday resolves to the first day on or after the reference date that has that weekday.
  - A time strictly before 16:00 moves the date back one calendar day.
  - Every failure yields "".
  - The calendar arithmetic is in module `Calendar`, and the regular-expression searches are in module `Matchers`.
- **Segmenter** (`extract_data`, modules `Extraction` and `Cursor`).
  - Line cleaning: split the text, trim each line, drop empty lines, and drop lines that contain a noise keyword.
  - A cursor then walks the cleaned lines and recognises two shapes:
    - a timestamp/page/path triplet;
    - a CORP-tag/path pair.
  - Each recognised shape emits a record.
  - `Cursor` defines that walk over a table of per-position decisions and proves the ordering and counting facts once. `Extraction` builds the table from the lines.

Module `Strings` models the Python string operations that the core uses. Module `Dropdowns` relates the emitted records to the option lists that the exported workbook offers as drop-downs.

Behaviour worth knowing, modelled as the code has it:

- **"PR-" name marker.** It yields "PRINT READY", and the classifier never returns "PRE PRESS". The "PRESS" rule is never refined by a name token.
- **Noise keywords.** The list is exactly "unread", "confirm" and "reduce".
- **Weekday direction.** A weekday resolves forward. "Tue 09:30 AM" read on Wednesday 25 June 2025 is Tuesday 1 July 2025, and after the cutoff rule it becomes 30 June 2025 (`WeekdayExample`, `CutoffExample`). It does not resolve to the Tuesday before.
- **CORP pair.** The pair needs a third line to exist after the tag line (`i + 2 < len`), even though it only reads two lines. When the tag is on the first line, "the line before" is the last line, as Python's `lines[-1]` is.
- **Triplet that fails the page/path check.** A line with a comma and a time advances the cursor by one. It is never tried as a CORP line.
- **Invalid full date.** When a full date is found but is not a valid date, the result is "". The weekday form is not tried.

## Model

| member | source | states |
|---|---|---|
| ProofStage.NormalizePath | walmart_uploader_app.py:18 | the normalised path has the same length as the input and contains no `_`, `-` or `.`; each position holds the upper-cased character, or a space where a separator was |
| ProofStage.DetectProof | walmart_uploader_app.py:16-32 | the result is always one of PROOF1, PRINT READY, AFTER PRESS, CPR, PRESS or "", and never PRE PRESS |
| ProofStage.DetectProofDecisionTable | walmart_uploader_app.py:20-32 | for each stage: the result is that stage exactly when its rule fires and no earlier rule fires; the fifth rule reduces to "PRINT READY in the path", because its other markers are subsumed or were already consumed by rule two |
| ProofStage.ChangesMarkerIsPrintReady | walmart_uploader_app.py:28 | a path that contains "PRESS PRINT READY CHANGES" also contains "PRINT READY" |
| ProofStage.ProofOnePrecedence | walmart_uploader_app.py:20-21 | a PROOF1 marker in the path wins over every other marker and over any page name |
| ProofStage.Classify | walmart_uploader_app.py:16-32 | first-match classification over an ordered rule list: "" when no rule fires, and otherwise the stage of a rule that fires |
| ProofStage.ClassifyFirstFiring | walmart_uploader_app.py:20-32 | the first rule that fires decides the result, whatever the later rules say |
| ProofStage.StageRulesFire | walmart_uploader_app.py:20-31 | each rule in the table fires exactly when the condition of the matching `if` holds |
| ProofStage.DetectProofIsTableDriven | walmart_uploader_app.py:16-32 | `detect_proof` equals first-match classification over the rule table |
| PageName.PrefixRest | walmart_uploader_app.py:35 | the `(.+)` group is non-empty, has no line break, sits right after the prefix, and stops at the first line break |
| PageName.CleanPageName | walmart_uploader_app.py:34-40 | a name without a stage prefix is just trimmed; a prefixed name ends in ` -AP` or ` -PR`, taken from its prefix |
| PageName.CleanMovesPrefix | walmart_uploader_app.py:35-39 | `AP-x` or `PR-x`, where x is a single line, becomes `strip(x) -AP` or `strip(x) -PR` |
| PageName.CleanFixedPoint | walmart_uploader_app.py:40 | a trimmed name without a stage prefix comes back unchanged |
| PageName.CleanIdempotent | walmart_uploader_app.py:34-40 | normalising twice is the same as normalising once, unless the first result starts with whitespace or with a stage token |
| PageName.RestoreAfterClean | walmart_uploader_app.py:35-39 | moving the prefix loses nothing: the original prefixed name is rebuilt from the normalised one |
| Strings.Strip | walmart_uploader_app.py:79 | `strip()` returns a run of the input that neither starts nor ends with whitespace, and everything cut away before and after it is whitespace; it is empty exactly when the input is all whitespace |
| Strings.StripIdempotent | walmart_uploader_app.py:79 | trimming twice is the same as trimming once |
| Strings.StripKeepsHead | walmart_uploader_app.py:105 | trimming keeps a head that starts and ends with non-whitespace |
| Strings.StripFrom | walmart_uploader_app.py:105 | past the leading whitespace, every non-space character survives the trim, shifted left by the length of that whitespace |
| Strings.JoinSplit | walmart_uploader_app.py:79 | `split('\n')` loses nothing: joining the parts with the separator gives back the text |
| Strings.Split | walmart_uploader_app.py:79 | `split(sep)` yields at least one part, and no part contains the separator |
| Strings.SplitHead | walmart_uploader_app.py:90 | the first part of a split is the text before the first separator |
| Strings.Upper | walmart_uploader_app.py:17 | `upper()` keeps the length and maps each character on its own |
| Strings.Lower | walmart_uploader_app.py:81 | `lower()` keeps the length and maps each character on its own |
| Strings.PadNumberValue | walmart_uploader_app.py:50 | zero-padding a digit string's value to the string's own width gives the string back |
| Calendar.DaysInMonth | walmart_uploader_app.py:55 | month lengths run from 28 to 31; a month has 29 days exactly for February of a leap year, and 31 days exactly for the seven long months |
| Calendar.NextDay | walmart_uploader_app.py:69 | the next day is a valid date; stepping fails only from 9999-12-31 |
| Calendar.PrevDay | walmart_uploader_app.py:49 | the previous day is a valid date; stepping fails only from 0001-01-01 |
| Calendar.NextDayOrdinal | walmart_uploader_app.py:69 | one day forward adds one to the day ordinal |
| Calendar.PrevDayOrdinal | walmart_uploader_app.py:49 | one day back subtracts one from the day ordinal |
| Calendar.PrevOfNext | walmart_uploader_app.py:49 | stepping back undoes stepping forward |
| Calendar.NextOfPrev | walmart_uploader_app.py:49 | stepping forward undoes stepping back |
| Calendar.AddDaysOrdinal | walmart_uploader_app.py:69 | adding n days adds n to the ordinal |
| Calendar.AddDays | walmart_uploader_app.py:69 | adding n days succeeds exactly when the result would not pass 31 December 9999, i.e. when the ordinal plus n stays within the last ordinal; adding nothing gives the same date |
| Calendar.OrdinalAtMostLast | walmart_uploader_app.py:69 | no valid date has an ordinal beyond that of 31 December 9999 |
| Calendar.InLastWeek | walmart_uploader_app.py:66-69 | a date from which at most six days overflow the calendar is one of 26-31 December 9999 |
| Calendar.AddDaysWeekday | walmart_uploader_app.py:67-69 | adding n days advances the weekday by n modulo 7 |
| Calendar.Weekday | walmart_uploader_app.py:67 | `weekday()` lies between 0 (Monday) and 6 (Sunday) |
| Calendar.AddDaysLandsOn | walmart_uploader_app.py:67-69 | moving forward by the distance from the current weekday to a target, wrapping at most once past Sunday, lands on the target weekday |
| Calendar.OrdinalIncreasing | walmart_uploader_app.py:67-69 | day ordinals follow calendar order: an earlier date always has a smaller ordinal, so two dates never share one |
| Calendar.FormatDate | walmart_uploader_app.py:50 | `%d/%m/%Y` has ten characters and reads back to the same date |
| Calendar.FormatAfterParse | walmart_uploader_app.py:50 | a well-formed `dd/mm/yyyy` string for a valid date is exactly how that date prints |
| Calendar.FormatDateInjective | walmart_uploader_app.py:50 | two dates that print the same are the same date |
| Matchers.FirstMatch | walmart_uploader_app.py:43-44 | `re.search` takes the leftmost position that matches; none before it matches; and no result means that no position matches |
| Matchers.HourMinuteAt | walmart_uploader_app.py:43 | `\d{1,2}:\d{2}` matches one or two hour digits and two minute digits, occurring at the position |
| Matchers.MeridiemAt | walmart_uploader_app.py:43 | `\s*([APMapm]+)`: the captured letters are the longest run of A/P/M letters after the whitespace |
| Matchers.HourMinuteComplete | walmart_uploader_app.py:43 | one or two digits, a colon and two digits at the position are matched, with exactly those hour and minute digits |
| Matchers.MeridiemComplete | walmart_uploader_app.py:43 | whitespace followed by an A/P/M run that cannot be extended is matched, and that run is the captured meridiem |
| Matchers.RunEndsAt | walmart_uploader_app.py:43-44 | a greedy run ends exactly where the class first fails, so any match that stops there is the one greedy matching finds |
| Matchers.ClockAt | walmart_uploader_app.py:88 | a clock match is one or two hour digits, a colon and two minute digits at the position, then optional whitespace and a run of A/P/M letters that cannot be extended |
| Matchers.ClockAtIsPattern | walmart_uploader_app.py:88 | the clock matcher returns a clock at a position exactly when the clock pattern matches there with those groups: it misses no match and invents none |
| Matchers.ClockAtComplete | walmart_uploader_app.py:88 | every clock-time match at a position is found, with its hour, minute and meridiem |
| Matchers.HasClockTimeIsSearch | walmart_uploader_app.py:88 | the clock-time test of a line holds exactly when a clock-time match sits somewhere in it |
| Matchers.SearchDayTime | walmart_uploader_app.py:43 | the weekday pattern is found exactly when it matches at some position, and the result is the match at the leftmost matching position |
| Matchers.SearchDayTimeIsSearch | walmart_uploader_app.py:43 | a line is read by the weekday pattern exactly when three word characters, whitespace and a clock-time match stand somewhere in it |
| Matchers.DayTimeAt | walmart_uploader_app.py:43 | the day group is the three word characters at the match position; the clock follows after at least one whitespace character |
| Matchers.DayWordAt | walmart_uploader_app.py:43 | `(\w{3})\s+`: the day group is the three word characters at the position |
| Matchers.DayWordComplete | walmart_uploader_app.py:43 | three word characters and whitespace up to a non-space are matched, ending at that non-space |
| Matchers.DayTimeAtIsPattern | walmart_uploader_app.py:43 | the weekday-and-time matcher returns a result at a position exactly when the pattern matches there with those groups |
| Matchers.DayTimeAtComplete | walmart_uploader_app.py:43 | every weekday-and-time match at a position is found, with its groups |
| Matchers.MonthWordAt | walmart_uploader_app.py:44 | `([A-Za-z]{3,})\s+`: the month group is the longest run of letters at the position, at least three long, followed by at least one whitespace character; the match ends at the first non-space |
| Matchers.MonthWordComplete | walmart_uploader_app.py:44 | a letter run of three or more that cannot be extended, then whitespace up to a non-space, is matched and ends at that non-space |
| Matchers.DayCommaAt | walmart_uploader_app.py:44 | `(\d{1,2}),\s+`: the day group is one or two digits, followed by a comma and at least one whitespace character; the match ends at the first non-space |
| Matchers.DayCommaComplete | walmart_uploader_app.py:44 | one or two digits, a comma and whitespace up to a non-space are matched, with those digits as the day |
| Matchers.FullDateAt | walmart_uploader_app.py:44 | a full-date match is the month word at the position, then the day and comma, then the clock, each after the whitespace that ends the previous group |
| Matchers.FullDateAtIsPattern | walmart_uploader_app.py:44 | the full-date matcher returns a result at a position exactly when the pattern matches there with those groups |
| Matchers.FullDateAtComplete | walmart_uploader_app.py:44 | every month-day-and-time match at a position is found, with its groups |
| Matchers.SearchFullDate | walmart_uploader_app.py:44 | the full-date pattern is found exactly when it matches at some position, and the result is the match at the leftmost matching position |
| Matchers.SearchFullDateIsSearch | walmart_uploader_app.py:44 | a line is read by the full-date pattern exactly when a month word, a day and comma, and a clock-time match stand somewhere in it |
| Matchers.FullDateAtStart | walmart_uploader_app.py:44 | a full date that matches at the first character is what the search returns |
| Matchers.JunFiveFound | walmart_uploader_app.py:44 | the search in "Jun 5, 3:45 PM" captures "Jun", "5", "3", "45" and "PM" |
| Matchers.WeekAt | walmart_uploader_app.py:102 | a week match starts with `W` or `w` at a word boundary, and captures the longest run of digits after a run of `K`, `E`, `-` and spaces |
| Matchers.WeekAtIsPattern | walmart_uploader_app.py:102 | the week matcher returns digits at a position exactly when the week pattern matches there with those digits |
| Matchers.WeekAtComplete | walmart_uploader_app.py:102 | every week-token match at a position is found, with its digits |
| Matchers.DigitsAt | walmart_uploader_app.py:102 | `(\d+)` captures the longest run of digits at the position, and fails exactly when no digit stands there |
| Matchers.DigitsAtComplete | walmart_uploader_app.py:102 | a digit run that cannot be extended is what `(\d+)` captures |
| Matchers.SearchWeek | walmart_uploader_app.py:102 | no week is found exactly when no position matches; a found week is all digits and is the capture at the leftmost matching position |
| Matchers.SearchWeekIsSearch | walmart_uploader_app.py:102 | a week is found exactly when the week pattern matches somewhere in the text |
| Matchers.WeekExample | walmart_uploader_app.py:102 | the week token of "WK25_Digital" is "25" |
| Matchers.SkipBracket | walmart_uploader_app.py:124 | `\[?` takes one `[` exactly when one stands at the position |
| Matchers.CorpAtIsPattern | walmart_uploader_app.py:124 | the greedy CORP-tag matcher succeeds at a position exactly when `CORP\s*\[?WK\s*\d+`, read as a regular expression in any case, matches there in some way |
| Matchers.CorpMatchFound | walmart_uploader_app.py:124 | any way of matching the CORP-tag pattern is found by the greedy matcher |
| Matchers.HasCorpTagIsSearch | walmart_uploader_app.py:124 | the tag test of a line holds exactly when the pattern matches at some position of it |
| Matchers.DatedLinesHaveClock | walmart_uploader_app.py:88 | every line with a full date or a weekday and time also passes the clock-time test that opens a triplet |
| DateResolver.IndexIn | walmart_uploader_app.py:64 | `list.index` gives the first position holding the value, and fails exactly when the value is absent |
| DateResolver.WeekdayIndex | walmart_uploader_app.py:63-64 | the weekday index names the first three characters of the abbreviation, and fails exactly when they are not `Mon`..`Sun` |
| DateResolver.MonthNumber | walmart_uploader_app.py:55 | `%b` gives months 1 to 12 by the lower-cased name, and fails exactly when the name is not a month abbreviation |
| DateResolver.ParseClock | walmart_uploader_app.py:55 | `%I:%M %p` succeeds exactly for hours 1 to 12, minutes up to 59 and am/pm in any case; the 24-hour result agrees with the hour modulo 12 and is afternoon exactly for pm |
| DateResolver.NineThirty | walmart_uploader_app.py:71 | "09:30 AM" reads as 9:30 |
| DateResolver.ResolveFullDate | walmart_uploader_app.py:53-56 | a full date resolves exactly when its month, clock and day are valid for that month of 2025; the result is then that month and day of 2025 at the clock's 24-hour time |
| DateResolver.ResolvesTo | walmart_uploader_app.py:53-55 | a full date with a known month number, a known clock and a day that exists in that month resolves to exactly that day and time |
| DateResolver.ResolveWeekday | walmart_uploader_app.py:60-72 | a weekday resolves exactly when its abbreviation is known, its clock parses and the base date exists; it is then the first day with that weekday on or after the reference date, at the clock's 24-hour time; with a known weekday and a valid clock it always resolves when a week remains before 31 December 9999, and fails only from 26-31 December 9999 |
| DateResolver.NextOnOrAfter | walmart_uploader_app.py:66-69 | the base date has the target weekday and lies 0 to 6 days after the reference date; it exists whenever a week remains before 31 December 9999, and is missing only when the reference date is one of 26-31 December 9999 |
| DateResolver.WeekdayOffset | walmart_uploader_app.py:68 | the offset is below 7, and moving the current weekday by it lands on the target |
| DateResolver.OffsetIsPythonModulo | walmart_uploader_app.py:68 | the offset equals Python's `(target - current) % 7` |
| DateResolver.ForwardWeekday | walmart_uploader_app.py:67-69 | the day reached by the offset has the target weekday |
| DateResolver.ForwardDistance | walmart_uploader_app.py:68-69 | the day reached by the offset lies 0 to 6 days on |
| DateResolver.AdjustByCutoff | walmart_uploader_app.py:46-50 | the result is "" exactly when stepping back from 0001-01-01; otherwise it is a well-formed date whose ordinal is one less before 16:00 and unchanged from 16:00 on |
| DateResolver.ParseTimestamp | walmart_uploader_app.py:52-75 | a found full date alone decides; without one, a found weekday and time decides; with neither pattern anywhere in the line there is no timestamp |
| DateResolver.ParseDateFromLine | walmart_uploader_app.py:42-76 | the result is "" when no timestamp parses; when one parses the result is "" exactly for a time before 16:00 on 1 January of year 1, and otherwise a well-formed `dd/mm/yyyy` date whose ordinal is the parsed day's, minus one before 16:00 |
| DateResolver.WeekdayResolvesForward | walmart_uploader_app.py:63-69 | a resolved weekday names the day it lands on, and that day lies 0 to 6 days after the reference date, never before |
| DateResolver.FullDateTakesPrecedence | walmart_uploader_app.py:52-60 | once a full date is present, it alone decides, and the reference date plays no part |
| DateResolver.CutoffRule | walmart_uploader_app.py:46-50 | from 16:00 on the printed date is the parsed day; before 16:00 it is the day before |
| DateResolver.UnknownWeekdayFails | walmart_uploader_app.py:60-74 | an abbreviation outside `Mon`..`Sun` yields "" |
| DateResolver.MalformedClockFails | walmart_uploader_app.py:52-74 | a clock that `strptime` rejects yields "" in either branch |
| DateResolver.WeekdayExample | walmart_uploader_app.py:60-72 | "Tue 09:30 AM" read on Wednesday 2025-06-25 is Tuesday 2025-07-01 at 9:30 |
| DateResolver.CutoffExample | walmart_uploader_app.py:46-50 | 2025-07-01 at 9:30 prints as "30/06/2025" |
| DateResolver.FullDateLineExample | walmart_uploader_app.py:42-56 | "Jun 5, 3:45 PM" reads as 5 June 2025 at 15:45 and prints as "04/06/2025", whatever the reference date |
| DateResolver.JuneIsSix | walmart_uploader_app.py:55 | `%b` reads "Jun" as month 6 |
| DateResolver.QuarterToFour | walmart_uploader_app.py:55 | "3:45 PM" reads as 15:45 |
| DateResolver.JunFourPrints | walmart_uploader_app.py:46-50 | 2025-06-05 at 15:45 prints as "04/06/2025" |
| Extraction.KeepStripped | walmart_uploader_app.py:79 | the kept lines are non-empty and trimmed; a line is kept exactly when it is the non-empty trim of some input line |
| Extraction.DropNoise | walmart_uploader_app.py:80-81 | no kept line contains a noise keyword, in any case; a line is kept exactly when it is an input line without one |
| Extraction.CleanLines | walmart_uploader_app.py:79-81 | every cleaned line is non-empty, trimmed and free of noise keywords |
| Extraction.DropNoiseAppend | walmart_uploader_app.py:81 | the noise filter works line by line: filtering a concatenation is the same as concatenating the filtered parts |
| Extraction.KeepStrippedAppend | walmart_uploader_app.py:79 | trimming and dropping empties works line by line |
| Extraction.DropNoiseIdempotent | walmart_uploader_app.py:81 | filtering twice is the same as filtering once |
| Extraction.CleanLinesFixedPoint | walmart_uploader_app.py:79-81 | lines that are already clean pass through the cleaning unchanged |
| Extraction.WeekField | walmart_uploader_app.py:102-103 | the week is "" exactly when no week token is found; otherwise it is `week-` followed by the captured digits |
| Extraction.AssemblerOf | walmart_uploader_app.py:90 | the assembler is the trimmed text before the first comma, and has no comma |
| Extraction.AssemblerIsLeadingName | walmart_uploader_app.py:90 | for a trimmed name without a comma, followed by a comma, the assembler is that name |
| Extraction.DirectUploadPrefix | walmart_uploader_app.py:105 | a page line that begins `D-` or `d-` gets QC "Direct Upload", whatever follows |
| Extraction.QcFor | walmart_uploader_app.py:105 | the QC is one of the two fixed values, and is "Direct Upload" exactly when the trimmed, upper-cased page line starts with `D-` |
| Extraction.QcReadsLeadingDash | walmart_uploader_app.py:105 | the QC is "Direct Upload" exactly when the page line, after any leading whitespace, opens with `D-` or `d-` |
| Extraction.PrevLine | walmart_uploader_app.py:128 | the line before a position, under Python's wrap-around index: position 0 reads the last line |
| Extraction.TripletRecord | walmart_uploader_app.py:101-116 | a triplet row holds: the resolved date; banner "walmart"; the week of the normalised page name; that name; the stage of that name and the path; language "All zones"; the assembler; and the QC of the page line. It is well formed when its date is |
| Extraction.CorpRecord | walmart_uploader_app.py:128-146 | a CORP row has date 25/06/2025, banner "walmart", language "All zones", QC Hariharan, the line as page name and the week of that line; its assembler is Mohammed Siddik exactly when the line before mentions him, and Prasanth As otherwise |
| Extraction.KnownNamesHaveNoComma | walmart_uploader_app.py:128 | neither fallback assembler contains a comma |
| Extraction.CorpDateIsDate | walmart_uploader_app.py:129 | the fixed CORP date is 25 June 2025 and is well formed |
| Extraction.TimestampLineIsPattern | walmart_uploader_app.py:88 | a line opens a triplet exactly when it has a comma and, somewhere, one or two digits, a colon, two digits, optional whitespace and A/P/M letters |
| Extraction.TripletStep | walmart_uploader_app.py:88-120 | on a timestamp line: a full triplet emits exactly when its date resolves; one with an unresolved date is skipped whole; a broken one moves on by one line |
| Extraction.StepAt | walmart_uploader_app.py:85-150 | the shape at a position: a triplet exactly on timestamp lines; a CORP pair exactly on other lines with a tag and a `/Volumes` path; every stride stays inside the lines; every emitted record is well formed |
| Extraction.Steps | walmart_uploader_app.py:85-150 | the decision table holds the decision at every position, and every stride fits |
| Extraction.Segment | walmart_uploader_app.py:83-150 | each record comes from a dated triplet or a CORP pair at its position and is well formed; positions increase by at least two; at most half as many records as lines |
| Extraction.SegmentEmitsExactly | walmart_uploader_app.py:83-150 | a record is emitted at a position exactly when the cursor, started at the first line, stops there and the decision there is a dated triplet or a CORP pair producing that record |
| Extraction.ExtractData | walmart_uploader_app.py:78-152 | the rows are the segmenter's records in order; there are at most half as many rows as cleaned lines; every row is well formed |
| Cursor.Stride | walmart_uploader_app.py:98-150 | the cursor moves 3 after a full triplet (dated or not), 2 after a CORP pair, and 1 otherwise |
| Cursor.Walk | walmart_uploader_app.py:84-150 | the walk emits only at positions whose decision holds a record, in increasing order, at least two apart |
| Cursor.LandsAhead | walmart_uploader_app.py:84-150 | the cursor never stops behind where it started |
| Cursor.WalkEmitsExactly | walmart_uploader_app.py:84-150 | the walk emits a record at a position exactly when the cursor stops there and the decision there has that record |
| Cursor.RecordsAt | walmart_uploader_app.py:107 | dropping positions keeps each record in its place |
| Cursor.CollectWalk | walmart_uploader_app.py:83-150 | the cursor loop collects exactly the records of the walk from position 0 |
| Dropdowns.StageResultsAgainstOptions | walmart_uploader_app.py:156 | the classifier's results are exactly the Proof options minus PRE PRESS, plus the blank |
| Dropdowns.WellFormedWithinDropdowns | walmart_uploader_app.py:155-164 | a well-formed record passes the Proof, Language and QC validations |
| Dropdowns.CorpAssemblersListed | walmart_uploader_app.py:158 | both CORP fallback assemblers are in the assembler list |
| Dropdowns.StepWithinDropdowns | walmart_uploader_app.py:155-164 | the record decided at any position passes the validations; a CORP assembler is listed |
| Dropdowns.SegmentWithinDropdowns | walmart_uploader_app.py:155-164 | every emitted record passes the validations, and every CORP assembler is listed |

## Left out

- The Streamlit page is not modelled: the title, the text box, the generate button and the download button.
- The workbook export is not modelled: openpyxl, `dataframe_to_rows` and the writing of `apply_dropdowns`. Only the option lists are modelled, as constants, and so is the check that records fall within them.
- The pandas DataFrame is not modelled. `ExtractData` returns the rows as a sequence of records in the same order.
- `datetime.now()` is replaced by a reference-date parameter. Its time of day plays no part, because the weekday branch keeps only the date.
- The `current_year` argument is fixed at its default, 2025, because the only call passes no year.
- Unicode behaviour is not modelled. Case mapping, `\w`, `\d` and `\b` are treated as ASCII, as are `re.IGNORECASE` folds such as the Kelvin sign matching `k`. Non-ASCII letters and digits are treated as non-word characters.
- Locale is not modelled. `strptime` is modelled with C-locale month abbreviations and AM/PM.
- The bare `except:` clauses are modelled only for the failures that can occur in them: strptime rejections, an unknown weekday, and date overflow. Each yields "".
- The segmenter's decision at every position is computed up front as a table, and the cursor walks that table. This is equivalent, because each decision is a pure function of the lines and the position.
- Dropdowns.SegmentWithinDropdowns: only CORP assemblers are proved to be on the assembler list. A triplet's assembler is free text from the log line, and the source does not ensure that it is on the list.
