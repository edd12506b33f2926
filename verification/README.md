# wpi-sched in Dafny

wpi-sched turns the "View My Courses" spreadsheet that Workday exports into
an iCalendar (`.ics`) file. The model covers the Go package `cmd`
(`cmd/root.go`). It reads the rows of the sheet, finds the header columns
and builds one `Course` per data row. Each course's "Meeting Patterns" cell
(`M-W-F | 10:00 AM - 10:50 AM | Fuller Labs 320`) becomes a weekly
recurring VEVENT with a fifteen-minute VALARM, and the events are wrapped in
a VCALENDAR document.

The model has six modules, one per file:

- `Results` (`results.dfy`): the `Option` and `Result` wrappers.
- `GoStrings` (`gostrings.dfy`): the parts of Go's `strings` package the
  program calls, which are `Split`, `Join`, `TrimSpace` and `Trim`. The day
  loop iterates over `strings.SplitSeq(freq, "-")` (`cmd/root.go:225`). Go
  documents that iterator as yielding the pieces `Split` returns, so the
  model looks the days up in `Split(freq, '-')`.
- `GoTime` (`gotime.dfy`): the parts of Go's `time` package the program
  calls:
  - the proleptic Gregorian calendar, `Weekday` and `AddDate(0, 0, 1)`;
  - `time.Parse` with the layouts `"01-02-06"` and `"3:04 PM"`;
  - `Format` with `"20060102"` and `"150405"`.
- `Schedule` (`schedule.dfy`): `Course`, `getColumns` and the row loop of
  `GetCourses`, working on rows already read from the sheet.
- `Ical` (`ical.dfy`): `GetIcal`, `sanitizeUID`, `convertStartDate`,
  `convertDate` and `convertTime`.
- `Calendar` (`calendar.dfy`): `WriteIcalBuf`. The writer is modelled as the
  text written so far.

Loops in the Go code are methods with loops here, each proved equal to a
specification function:

- the two loops of `getColumns` are `ScanRow` and `GetColumns`;
- the row loop of `GetCourses` is `ReadRows`;
- the day loop of `GetIcal` is `LookUpDays`;
- the seven-step loop of `convertStartDate` is `ConvertStartDate`;
- the course loop of `WriteIcalBuf` is `WriteIcalBuf`.

The lemmas then state what those specification functions promise. Go's
run-time panic on a data row that is too short for a cell it reads is
modelled as the error `IndexOutOfRange(row)`.

`GoTime.LayoutDate` (`Format("01-02-06")`) and `GoTime.Kitchen`
(`Format("3:04 PM")`) are not called by the program. They are there only as
the formatting partners of the two parse layouts, so that the round trips
`ParseLayoutDate` and `ParseKitchen` can be stated.

In a few places the code does something other than its comments
(`cmd/root.go:293`, 308) or its evident purpose suggest. The model follows
the code:

- `convertStartDate` advances the date up to seven times. When no weekday
  matches, it returns the date seven days later, not the original date. Its
  comment also names the wrong input layout. `FirstClassDayNoneAllowed`
  states the seven-day case. `EventStartDay` shows that the case cannot
  happen inside `GetIcal`, because every day letter names a weekday.
- `getColumns` stops after the first row that holds any header name, not
  the first row that holds all of them. A header split over two rows is
  therefore rejected (`SplitHeaderRejected`).
- The row loop of `GetCourses` stops at the first row whose length is at
  most the End Date column index. It does not use the highest column index.
  A row that is long enough for End Date but too short for another column
  panics.
- A missing Instructor column makes the loop read column 0, the zero value
  of a missing map key (`MissingInstructorReadsColumnZero`).
- The year element of `"01-02-06"` is read by Go's `atoi`, which accepts a
  sign. So `"01-06-+5"` is 6 January 2005 and `"01-06--5"` is 6 January
  1995 (`ExampleSignedYears`).

## Model

| member | source | states |
|---|---|---|
| GoStrings.Trim | cmd/root.go:290 | The result is the infix of the input left once every leading and trailing cut character is removed. Everything before and after it is cut characters. A non-empty result neither starts nor ends with one. |
| GoStrings.TrimIdempotent | cmd/root.go:290 | Trimming an already trimmed string changes nothing. |
| GoStrings.TrimSpace | cmd/root.go:222 | A non-empty result of `strings.TrimSpace` neither starts nor ends with white space. |
| GoStrings.TrimSpaceInfix | cmd/root.go:244-257 | `strings.TrimSpace` keeps an infix of the input, and everything it cuts from either end is white space. |
| GoStrings.Split | cmd/root.go:217 | `strings.Split` on one character gives one piece more than there are separators, and no piece holds the separator. |
| GoStrings.Join | cmd/root.go:233 | `strings.Join` of one or more parts begins with the first part. |
| GoStrings.JoinLength | cmd/root.go:160 | A join of one or more parts is as long as the parts together plus one separator fewer than there are parts. |
| GoStrings.JoinSplit | cmd/root.go:217 | Joining the pieces of a split with the separator gives back the original string. |
| GoStrings.SplitNoSep | cmd/root.go:244 | A string without the separator splits into itself alone. |
| GoStrings.SplitAfterSep | cmd/root.go:244 | A separator-free head followed by the separator is split off as the first piece. |
| GoStrings.SplitJoin | cmd/root.go:233 | Splitting a join gives back the parts when no part holds the separator. |
| GoTime.Weekday | cmd/root.go:300 | `Weekday` is between Sunday (0) and Saturday (6). |
| GoTime.YearLength | cmd/root.go:303 | A Gregorian year has 366 days when it is a leap year and 365 otherwise. |
| GoTime.NextDay | cmd/root.go:303 | `AddDate(0, 0, 1)` on a valid date gives a valid date exactly one day later on the day line, across month and year ends. |
| GoTime.AddDays | cmd/root.go:299-304 | n steps of `AddDate(0, 0, 1)` give a valid date n days later. |
| GoTime.WeekdayAfter | cmd/root.go:299-304 | The weekday n days later is the weekday shifted by n, modulo 7. |
| GoTime.FixedValue | cmd/root.go:305 | A number that fits its width is read back from its zero-padded digits. |
| GoTime.ParseDate | cmd/root.go:295 | A date parsed with `"01-02-06"` exists in the calendar and has a year from 1969 to 2068, the window of the two-digit year. |
| GoTime.TwoDigits | cmd/root.go:305 | A two-digit field prints as its tens digit and its units digit. |
| GoTime.PrintedTwoDigits | cmd/root.go:310 | A two-digit field prints as exactly two characters that read back as the number. |
| GoTime.PivotWindow | cmd/root.go:310 | A year from 1969 to 2068 comes back from its last two digits by the 69 pivot. |
| GoTime.LayoutDateChars | cmd/root.go:310 | A date written with `"01-02-06"` is eight characters: the month digits, a dash, the day digits, a dash, and the digits of the year modulo 100. |
| GoTime.ParseDateShape | cmd/root.go:310 | Every text `"01-02-06"` accepts is two month digits, a dash, two day digits, a dash and two year characters `atoi` reads, and the date is read from those fields. Any other text is refused. |
| GoTime.ParseDateReads | cmd/root.go:310 | Eight characters of the right shape parse to the date they spell exactly when the month is 1 to 12 and the day exists in that month. |
| GoTime.ParseLayoutDate | cmd/root.go:310 | Parsing with `"01-02-06"` undoes formatting with it, for every date in the two-digit-year window. |
| GoTime.FormatDate | cmd/root.go:314 | `Format("20060102")` of a date with a year below 10000 is eight digits that read back as the year, month and day. |
| GoTime.PaddedDate | cmd/root.go:305 | A four-digit year and two-digit month and day print as eight digits that read back as them. |
| GoTime.ParseTime | cmd/root.go:319 | A time parsed with `"3:04 PM"` has an hour below 24 and a minute below 60. |
| GoTime.ParseTimeAt | cmd/root.go:319 | Once the hour is known to take one or two characters, parsing is refused for an hour above 12 or a minute of 60 or more, and otherwise depends only on what follows the minute. |
| GoTime.TimeTextAt | cmd/root.go:319 | One or two hour digits, a colon and two minute digits are read as the hour and minute before the marker is examined. |
| GoTime.CutBlanks | cmd/root.go:319 | Leading blanks are skipped before the marker, however many there are. |
| GoTime.MarkerReads | cmd/root.go:319 | After the minute, blanks and two characters are accepted exactly when there is at least one blank and the characters are `AM` or `PM` in capitals. |
| GoTime.ParseTimeReads | cmd/root.go:319 | Every text of one or two hour digits, a colon, two minute digits, blanks and a two-character marker parses to exactly the 12-hour time it spells. It is refused when the hour is above 12, the minute is 60 or more, no blank precedes the marker, or the marker is not `AM` or `PM`. |
| GoTime.MarkerShape | cmd/root.go:319 | An accepted marker part is one or more blanks followed by `AM` or `PM`, and nothing else. |
| GoTime.ParseTimeShape | cmd/root.go:319 | Every text `"3:04 PM"` accepts is one or two hour digits, a colon, two minute digits, at least one blank and `AM` or `PM`, with nothing before or after. |
| GoTime.PrintedTime | cmd/root.go:319 | The hour and minute as `"3:04"` prints them are read back before what follows. |
| GoTime.PrintedHour | cmd/root.go:319 | The 12-hour hour prints as one or two digits that read back as it. |
| GoTime.MarkerBack | cmd/root.go:319 | PM adds 12 to hours below 12 and 12 AM is hour 0, so the marker gives back the 24-hour hour. |
| GoTime.ParseKitchen | cmd/root.go:319 | Parsing with `"3:04 PM"` undoes formatting with it, for every time of day. |
| GoTime.FormatTime | cmd/root.go:323 | `Format("150405")` prints the 24-hour hour as two digits, the minute as two digits, then `00`. |
| GoTime.PaddedTime | cmd/root.go:323 | An hour and a minute below 100 print as their tens and units digits, followed by `00`. |
| Schedule.LastBefore | cmd/root.go:97-114 | The last position of a name among the first cells of a row, or none when no earlier cell holds the name. |
| Schedule.LastIndex | cmd/root.go:97-114 | A header's index is its last position in the row, because later cells overwrite earlier ones. It is none when the row lacks the name. |
| Schedule.FirstHeaderRow | cmd/root.go:96-119 | The scan stops at the first row that holds any header name. Every earlier row holds none. |
| Schedule.ResolveColumns | cmd/root.go:87-129 | The columns fail to resolve exactly when some required column is missing. On success the data starts inside the rows. |
| Schedule.TrackCell | cmd/root.go:98-114 | One more cell moves a required column's entry to that cell exactly when the cell holds the column's name. |
| Schedule.ScanCell | cmd/root.go:97-115 | After each cell, the map still holds each header's last position so far, or -1 for a required column not yet seen. |
| Schedule.UnscannedRow | cmd/root.go:88-93 | The initial map, with -1 for the four required columns, describes a scan of no cells. |
| Schedule.ScanMapTracks | cmd/root.go:97-115 | Scanning a whole row leaves in the map each header's last position, and -1 for a required column the row lacks. |
| Schedule.ScanRow | cmd/root.go:97-115 | The cell loop leaves the map of the scan specification. It reports a header row exactly when the row holds a header name, and leaves the map alone otherwise. |
| Schedule.NoHeaderScan | cmd/root.go:94-127 | With no header row, every required column is missing and the columns do not resolve. |
| Schedule.HeaderScan | cmd/root.go:116-128 | After the first header row, an entry of -1 marks a missing column. Otherwise the entries are the resolved columns and the data starts on the next row. Instructor is present exactly when it was found. |
| Schedule.TrackedColumn | cmd/root.go:122-127 | A required column's entry after the scan is -1 exactly when the column is missing. Otherwise it is the column's index. |
| Schedule.GetColumns | cmd/root.go:87-129 | `getColumns` succeeds exactly when every required column is in the first header row, with the indices and start row of `ResolveColumns`. On failure it names one missing required column. |
| Schedule.CourseOf | cmd/root.go:154-164 | A data row's course takes the meeting pattern, start date and end date from their cells. Its description begins with the listing, and is the listing alone exactly when the instructor cell is empty. |
| Schedule.DataEnd | cmd/root.go:150-153 | The data rows run from the start row up to the first row that is too short for the End Date cell. |
| Schedule.JoinDescription | cmd/root.go:154-160 | The joined description is the listing, followed by " - " and the instructor when there is one. |
| Schedule.DataEndAt | cmd/root.go:150-153 | The data ends at a row when every row before it is long enough and that row is short or past the end. |
| Schedule.DataEndPast | cmd/root.go:150-153 | A long enough row after long enough rows lies before the end of the data. |
| Schedule.ReadRows | cmd/root.go:150-166 | The row loop gives one course per data row, in row order. If one of those rows lacks a cell that is read, it fails at the first such row. |
| Schedule.GetCourses | cmd/root.go:140-166 | Extraction fails with a missing required column when the columns do not resolve. Otherwise it yields what the row loop extracts from the resolved columns. |
| Schedule.LeadingRowsShiftStart | cmd/root.go:96-120 | Rows without header names before the header row only move the start row. |
| Schedule.SplitHeaderRejected | cmd/root.go:96-127 | A header split over two rows is rejected, because the scan stops after the first row that holds any header name. |
| Schedule.MissingInstructorReadsColumnZero | cmd/root.go:144-164 | Without an Instructor column, column 0 is read as the instructor and joined to the listing. |
| Ical.ParseDays | cmd/root.go:225-232 | The day tokens succeed exactly when every token is a day letter, giving the day-map entry of each token in order, so every day is one a letter stands for. Otherwise the error names the first token that is not a day letter. |
| Ical.Codes | cmd/root.go:230-233 | The BYDAY codes of days that day letters stand for are two characters each and hold no comma, so the comma-joined BYDAY splits back into them. |
| Ical.Weekdays | cmd/root.go:231 | The weekdays of days that day letters stand for are Monday to Friday. |
| Ical.LookUpDays | cmd/root.go:222-232 | The day loop succeeds exactly when the tokens parse, and then yields their codes and weekdays. Otherwise it returns the error of the first bad token. |
| Ical.ConvertDate | cmd/root.go:309-315 | `convertDate` succeeds exactly when the text parses with `"01-02-06"`, and otherwise fails with that text. |
| Ical.ConvertDateDigits | cmd/root.go:309-315 | A converted date is eight digits naming the date that was parsed. |
| Ical.ConvertLayoutDate | cmd/root.go:309-315 | A date written as `"01-02-06"` converts to the same date as `"20060102"`. |
| Ical.ConvertTime | cmd/root.go:318-324 | `convertTime` succeeds exactly when the text parses with `"3:04 PM"`, and otherwise fails with that text. |
| Ical.ConvertTimeDigits | cmd/root.go:318-324 | A converted time is the two-digit 24-hour hour of the parsed time, its two-digit minute, then `00`. |
| Ical.ConvertKitchen | cmd/root.go:318-324 | Every time of day written on the 12-hour clock converts to its 24-hour form. |
| Ical.Advance | cmd/root.go:299-304 | The number of advances is the first count below 7 whose weekday is allowed, or 7 when none is. |
| Ical.FirstClassDay | cmd/root.go:294-306 | The settled date is valid and at most seven days after the parsed date. |
| Ical.ConvertStartDate | cmd/root.go:294-306 | The seven-step loop gives exactly the settled date, formatted, or the date error. |
| Ical.FirstClassWeekday | cmd/root.go:299-304 | The weekday of the settled date is the start weekday shifted by the number of advances. |
| Ical.DaysUntil | cmd/root.go:299-304 | Fewer than seven days separate a weekday from any weekday after it. |
| Ical.FirstClassDayFound | cmd/root.go:299-304 | When some allowed entry is a weekday, the settled date falls on an allowed weekday at most six days on. |
| Ical.FirstClassDayKeeps | cmd/root.go:300-301 | A date already on an allowed weekday is kept. |
| Ical.FirstClassDayIdempotent | cmd/root.go:294-306 | Settling a settled date changes nothing when some allowed weekday exists. |
| Ical.FirstClassDayNoneAllowed | cmd/root.go:299-304 | With no allowed weekday, the date is advanced all seven times. |
| Ical.CollapseRuns | cmd/root.go:288-289 | The replacement gives an empty string only for an empty input. Its first character is an underscore exactly when the input starts outside `[a-zA-Z0-9]`. It holds only letters, digits and single underscores, and it keeps every letter and digit in order. |
| Ical.CollapseAlnum | cmd/root.go:289 | A letter or digit is kept as it is. |
| Ical.CollapseRun | cmd/root.go:289 | A non-empty run of characters outside `[a-zA-Z0-9]`, however long, becomes one underscore. |
| Ical.CollapseConcat | cmd/root.go:289 | The replacement works piece by piece wherever the cut falls next to a letter or digit. With the two rules above this fixes the result for every input: `a, b` gives `a_b` (`ExampleCollapse`). |
| Ical.ExampleCollapse | cmd/root.go:289 | `a, b` becomes `a_b`: the two-character run becomes one underscore. |
| Ical.SanitizeUid | cmd/root.go:287-291 | The UID ends with `@wpi.edu`. |
| Ical.AlnumsAppend | cmd/root.go:289 | The letters and digits of a concatenation are those of each part, one after the other. |
| Ical.AlnumsOfUnderscores | cmd/root.go:290 | A run of underscores holds no letter or digit. |
| Ical.UidShape | cmd/root.go:287-291 | The UID before its domain holds only letters, digits and single underscores. It neither starts nor ends with an underscore, and it keeps every letter and digit of the description and BYDAY, in order. |
| Ical.TrimmedShape | cmd/root.go:290 | Trimming underscores off a collapsed string keeps its shape and its letters and digits, and leaves no underscore at either end. |
| Ical.InfixShape | cmd/root.go:290 | An infix of a string of letters, digits and single underscores is one too. |
| Ical.InfixAlnums | cmd/root.go:290 | Cutting underscores off both ends keeps every letter and digit. |
| Ical.EventLines | cmd/root.go:259-273 | The VEVENT template has fourteen lines. |
| Ical.SplitTerminated | cmd/root.go:259-273 | Splitting a text of line-feed-terminated lines at line feeds gives back the lines, then an empty rest. |
| Ical.EventText | cmd/root.go:259-283 | When no field holds a line break, the event text is exactly the fourteen template lines, each ended by a line feed. |
| Ical.EventOf | cmd/root.go:214-283 | The event is absent exactly when the meeting pattern is empty. |
| Ical.GetIcal | cmd/root.go:198-285 | `GetIcal` performs the checks in the source's order and returns the rendered event of `EventOf`, "" for an empty pattern, or the first error. |
| Ical.EventFailsIff | cmd/root.go:214-255 | A course fails exactly when its pattern is non-empty and one of these holds: fewer than three parts, a day token that is not a day letter, an end or start date that does not parse, fewer than two times, or a start or end time that does not parse. |
| Ical.EventStages | cmd/root.go:214-283 | A built event passed every stage, and its fields are the stage results in template order. |
| Ical.EventFields | cmd/root.go:233-283 | BYDAY splits back into the codes of the day letters, in pattern order. UNTIL is the end date formatted. The location is the trimmed third part. The summary is the description and the UID is made from it and BYDAY. |
| Ical.EventStartDay | cmd/root.go:239-242 | DTSTART's date is the start date moved forward by at most six days onto the weekday of one of the pattern's day letters. |
| Ical.StartOnClassDay | cmd/root.go:294-306 | For parsed day letters, the start date lands on one of their weekdays, at most six days on. |
| Ical.ExampleDays | cmd/root.go:225-233 | `M-W-F` gives BYDAY `MO,WE,FR`, and a token `S` is refused. |
| Ical.ExampleStartDate | cmd/root.go:295 | `01-06-25` is 6 January 2025, a Monday. |
| Ical.ExampleSignedYears | cmd/root.go:310 | A signed year is accepted: `01-06-+5` is 6 January 2005 and `01-06--5` is 6 January 1995. |
| Ical.ExampleRejectedDates | cmd/root.go:310 | `01/06/2025`, `1-6-25`, month 13 and 29 February 2025 are refused. |
| Ical.ExampleFirstClassDays | cmd/root.go:294-306 | A Monday class keeps 6 January 2025, and a Tuesday/Thursday class moves to 7 January. |
| Ical.KitchenExample | cmd/root.go:318-324 | A 12-hour time text and its 24-hour digits, spelled out, convert one into the other. |
| Ical.ExampleMorningTime | cmd/root.go:318-324 | `10:50 AM` converts to `105000`. |
| Ical.ExampleAfternoonTime | cmd/root.go:318-324 | `2:00 PM` converts to `140000`. |
| Ical.ExampleMidnight | cmd/root.go:318-324 | `12:00 AM` converts to `000000`. |
| Ical.ExampleNoon | cmd/root.go:318-324 | `12:30 PM` converts to `123000`. |
| Ical.ExampleHourZero | cmd/root.go:318-324 | Hour 0, which `Format` never prints, is accepted: `0:30 PM` converts to `123000`. |
| Ical.ExampleLeadingZero | cmd/root.go:318-324 | A leading zero and two blanks are accepted: `09:05  AM` converts to `090500`. |
| Ical.ExampleRejectedFields | cmd/root.go:318-324 | `13:00 PM` and `10:60 AM` are refused. |
| Ical.ExampleRejectedMarkers | cmd/root.go:318-324 | `10:50AM` and `10:50 am` are refused. |
| Ical.ExampleTrailingText | cmd/root.go:318-324 | `10:50 AM.` is refused. |
| Ical.ExampleEndDate | cmd/root.go:309-315 | `05-02-25` converts to `20250502`. |
| Calendar.Document | cmd/root.go:169-186 | The document succeeds exactly when every course yields its event text. It is then the VCALENDAR header, the events in course order and the footer. Otherwise it fails with the first course's error. |
| Calendar.EventsSingle | cmd/root.go:174-182 | The body for a single course is that course's `GetIcal` text, or its error. |
| Calendar.FailureSticks | cmd/root.go:174-178 | Once the courses so far have failed, every longer run of courses fails with the same error. |
| Calendar.CollectStep | cmd/root.go:174-182 | One more course either appends its event to the body or ends it with its error. |
| Calendar.TextsPrefix | cmd/root.go:174-175 | The results of a prefix of the courses are a prefix of the results. |
| Calendar.WriteIcalBuf | cmd/root.go:169-186 | The writer fails exactly when the document fails, with the same error. On success it writes the whole document. On failure the error is that of the first failing course, and the text written so far is the header and the events of the courses before it. |
| Calendar.CollectFailsIff | cmd/root.go:174-178 | The events fail together exactly when one of them fails. |
| Calendar.DocumentFailsIff | cmd/root.go:169-186 | The document fails exactly when some course fails. |
| Calendar.CollectConcat | cmd/root.go:174-183 | Collecting two runs of results gives the two bodies one after the other. |
| Calendar.EventsConcat | cmd/root.go:174-183 | The body for two runs of courses is the two bodies one after the other. |
| Calendar.EmptyPatternAddsNothing | cmd/root.go:214-216 | A course with an empty meeting pattern adds nothing to the document. |

## Left out

- Execute, init, Export and getWriter (command-line flags, opening the
  workbook and the output file) are I/O and are not modelled. The packages
  under `wasm/` and `cli/` are not part of this model.
- Reading the sheet with excelize (`GetSheetName`, `GetRows` and its error)
  is not modelled. `GetCourses` takes the rows as a sequence of cell
  sequences.
- `time.Now().UTC().Format("20060102T150405Z")` is a clock reading. It is a
  parameter: one DTSTAMP string per course.
- Calendar.WriteIcalBuf: errors of the `io.Writer` are not modelled. Every
  write succeeds and appends to the text written so far.
- Error values carry their data, such as the count of parts, the offending
  token or the offending text, but not Go's message wording. For too few
  times the count reported is the number of `|` parts, as in the source.
- Schedule.GetColumns: which missing column the error names depends on Go's
  map iteration order. It is an arbitrary choice among the missing required
  columns.
- Ical.CollapseRuns: the regular expression engine is not modelled. Its
  effect, one underscore per maximal run of characters outside
  `[a-zA-Z0-9]`, is written out directly.
- Strings are sequences of code points. On valid UTF-8, Go's rune-by-rune
  behaviour is the code-point behaviour modelled here. That includes
  `TrimSpace`'s Unicode white space (U+0085, U+00A0, U+2000 to U+200A and
  the rest of `unicode.IsSpace`) and `[^a-zA-Z0-9]+`, which matches every
  non-ASCII character. Go's handling of invalid UTF-8, where a bad byte
  reads as U+FFFD, is not modelled.
- Ical.EventText: the template is plain `\n`-terminated text as the source
  writes it. RFC 5545 CRLF line endings and line folding are not produced by
  the source and are not modelled.
- GoTime.ParseDate: only the two layouts the program uses are modelled, not
  `time.Parse` in general. Time zones, and the location of the parsed time,
  do not affect the date or time fields that are formatted.
