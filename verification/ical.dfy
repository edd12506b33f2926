/**
 * GetIcal and its helpers: the "Meeting Patterns" cell of a course, in the
 * form "M-W-F | 10:00 AM - 10:50 AM | Fuller Labs 320", becomes one weekly
 * recurring VEVENT of RFC 5545 with a VALARM fifteen minutes before.
 */
module Ical {
  import opened Results
  import opened GoStrings
  import opened GoTime
  import opened Schedule

  const TimeZone := "America/New_York"
  const UidDomain := "@wpi.edu"

  /** A weekday as the RRULE BYDAY code and as a time.Weekday. */
  datatype Day = Day(ical: string, weekday: int)

  /** The day letters of a meeting pattern. */
  const DayMap: map<string, Day> := map[
    "M" := Day("MO", Monday),
    "T" := Day("TU", Tuesday),
    "W" := Day("WE", Wednesday),
    "R" := Day("TH", Thursday),
    "F" := Day("FR", Friday)
  ]

  /** Why a course yields no event; each stands for one of GetIcal's error returns. */
  datatype IcalError =
    | TooFewParts(got: nat)
    | UnknownDay(token: string)
    | BadDate(text: string)
    | TooFewTimes(got: nat)
    | BadTime(text: string)

  // Day letters

  /** Looks every token up, stopping at the first one that is not a day letter. */
  function ParseDays(tokens: seq<string>): (r: Result<seq<Day>, IcalError>)
    ensures r.Ok? <==> forall k | 0 <= k < |tokens| :: tokens[k] in DayMap
    ensures r.Ok? ==> |r.value| == |tokens|
                      && forall k | 0 <= k < |tokens| :: r.value[k] == DayMap[tokens[k]]
    ensures r.Ok? ==> KnownDays(r.value)
    ensures r.Err? ==> exists k | 0 <= k < |tokens| ::
                         && tokens[k] !in DayMap && r.error == UnknownDay(tokens[k])
                         && forall j | 0 <= j < k :: tokens[j] in DayMap
  {
    if tokens == [] then Ok([])
    else if tokens[0] !in DayMap then Err(UnknownDay(tokens[0]))
    else match ParseDays(tokens[1..])
      case Err(e) =>
        var k :| 0 <= k < |tokens[1..]| && tokens[1..][k] !in DayMap && e == UnknownDay(tokens[1..][k])
                 && forall j | 0 <= j < k :: tokens[1..][j] in DayMap;
        assert tokens[k + 1] == tokens[1..][k];
        Err(e)
      case Ok(rest) => Ok([DayMap[tokens[0]]] + rest)
  }

  /** Days that some day letter stands for. */
  predicate KnownDays(days: seq<Day>) {
    forall k | 0 <= k < |days| :: days[k] in DayMap.Values
  }

  /** The BYDAY codes, in order; none of them holds the comma that separates them in the RRULE. */
  function Codes(days: seq<Day>): (r: seq<string>)
    ensures |r| == |days| && forall k | 0 <= k < |days| :: r[k] == days[k].ical
    ensures KnownDays(days) ==> forall k | 0 <= k < |r| :: |r[k]| == 2 && ',' !in r[k]
  {
    seq(|days|, k requires 0 <= k < |days| => days[k].ical)
  }

  /** The weekdays the start date may move to; each one is Monday to Friday. */
  function Weekdays(days: seq<Day>): (r: seq<int>)
    ensures |r| == |days| && forall k | 0 <= k < |days| :: r[k] == days[k].weekday
    ensures KnownDays(days) ==> forall k | 0 <= k < |r| :: Monday <= r[k] <= Friday
  {
    seq(|days|, k requires 0 <= k < |days| => days[k].weekday)
  }

  // Dates and times

  /** convertDate: "01-02-06" to "20060102", or the date it could not parse. */
  function ConvertDate(s: string): (r: Result<string, IcalError>)
    ensures r.Ok? <==> ParseDate(s).Some?
    ensures r.Err? ==> r.error == BadDate(s)
  {
    match ParseDate(s)
    case None => Err(BadDate(s))
    case Some(d) => Ok(FormatDate(d))
  }

  /** A converted date is eight digits naming the date that was parsed. */
  lemma ConvertDateDigits(s: string)
    requires ConvertDate(s).Ok?
    ensures var r := ConvertDate(s).value;
            |r| == 8 && AllDigits(r) && ReadCompactDate(r) == ParseDate(s).value
  {
    var d := ParseDate(s).value;
    assert 0 <= d.year < 10000 && 0 <= d.month < 100 && 0 <= d.day < 100;
  }

  /** A date written in the input layout converts to the same date in the output layout. */
  lemma ConvertLayoutDate(d: Date)
    requires ValidDate(d) && 1969 <= d.year <= 2068
    ensures ConvertDate(LayoutDate(d)) == Ok(FormatDate(d))
  {
    ParseLayoutDate(d);
  }

  /** convertTime: "3:04 PM" to "150405", or the time it could not parse. */
  function ConvertTime(s: string): (r: Result<string, IcalError>)
    ensures r.Ok? <==> ParseTime(s).Some?
    ensures r.Err? ==> r.error == BadTime(s)
  {
    match ParseTime(s)
    case None => Err(BadTime(s))
    case Some(c) => Ok(FormatTime(c))
  }

  /** A converted time is the hour and minute of the parsed time, two digits each, then "00". */
  lemma ConvertTimeDigits(s: string)
    requires ConvertTime(s).Ok?
    ensures var c := ParseTime(s).value;
            ConvertTime(s).value == [DigitChar(c.hour / 10), DigitChar(c.hour % 10),
                                     DigitChar(c.minute / 10), DigitChar(c.minute % 10), '0', '0']
  {
  }

  /** Every time of day written on the 12-hour clock converts to its 24-hour form. */
  lemma ConvertKitchen(c: Clock)
    requires 0 <= c.hour < 24 && 0 <= c.minute < 60
    ensures ConvertTime(Kitchen(c)) == Ok(FormatTime(c))
  {
    ParseKitchen(c);
  }

  // Start date

  /**
   * How many times a date on weekday `w` is advanced, from `i` on: the first
   * count below 7 that lands on a weekday of `valid`, or 7 when none does.
   */
  function Advance(w: int, valid: seq<int>, i: nat): (n: nat)
    requires i <= 7
    ensures i <= n <= 7
    ensures n < 7 ==> Shift(w, n) in valid
    ensures forall k | i <= k < n :: Shift(w, k) !in valid
    decreases 7 - i
  {
    if i == 7 || Shift(w, i) in valid then i else Advance(w, valid, i + 1)
  }

  /** The date convertStartDate settles on. */
  function FirstClassDay(d: Date, valid: seq<int>): (r: Date)
    requires ValidDate(d)
    ensures ValidDate(r) && DayNumber(d) <= DayNumber(r) <= DayNumber(d) + 7
  {
    AddDays(d, Advance(Weekday(d), valid, 0))
  }

  /** convertStartDate's result, as a function. */
  function StartDate(s: string, valid: seq<int>): Result<string, IcalError> {
    match ParseDate(s)
    case None => Err(BadDate(s))
    case Some(d) => Ok(FormatDate(FirstClassDay(d, valid)))
  }

  /**
   * convertStartDate: parses the date, then moves it on one day at a time,
   * at most seven times, until its weekday is one of `validDays`.
   */
  method ConvertStartDate(s: string, validDays: seq<int>) returns (r: Result<string, IcalError>)
    ensures r == StartDate(s, validDays)
  {
    var parsed := ParseDate(s);
    if parsed.None? {
      return Err(BadDate(s));
    }
    ghost var d := parsed.value;
    ghost var w := Weekday(d);
    var t := parsed.value;
    var i := 0;
    WeekdayAfter(d, 0);
    while i < 7
      invariant 0 <= i <= 7
      invariant t == AddDays(d, i) && Weekday(t) == Shift(w, i)
      invariant Advance(w, validDays, i) == Advance(w, validDays, 0)
    {
      if Weekday(t) in validDays {
        break;
      }
      WeekdayAfter(d, i + 1);
      t := NextDay(t);
      i := i + 1;
    }
    return Ok(FormatDate(t));
  }

  /** The weekday of the date settled on. */
  lemma FirstClassWeekday(d: Date, valid: seq<int>)
    requires ValidDate(d)
    ensures Weekday(FirstClassDay(d, valid)) == Shift(Weekday(d), Advance(Weekday(d), valid, 0))
  {
    WeekdayAfter(d, Advance(Weekday(d), valid, 0));
  }

  /**
   * When some entry of `valid` is a weekday, the date settled on is the first
   * day from `d` on, at most six days later, whose weekday is in `valid`.
   */
  lemma FirstClassDayFound(d: Date, valid: seq<int>)
    requires ValidDate(d)
    requires exists j | 0 <= j < |valid| :: 0 <= valid[j] < 7
    ensures Advance(Weekday(d), valid, 0) < 7
    ensures Weekday(FirstClassDay(d, valid)) in valid
    ensures DayNumber(FirstClassDay(d, valid)) <= DayNumber(d) + 6
  {
    var j :| 0 <= j < |valid| && 0 <= valid[j] < 7;
    var n := DaysUntil(Weekday(d), valid[j]);
    assert Shift(Weekday(d), n) in valid;
    FirstClassWeekday(d, valid);
  }

  /** Days from weekday `w` to the next weekday `v`, counting `w` itself. */
  function DaysUntil(w: int, v: int): (n: nat)
    requires 0 <= w < 7 && 0 <= v < 7
    ensures n < 7 && Shift(w, n) == v
  {
    if v >= w then v - w else v - w + 7
  }

  /** A date already on an allowed weekday is kept. */
  lemma FirstClassDayKeeps(d: Date, valid: seq<int>)
    requires ValidDate(d) && Weekday(d) in valid
    ensures FirstClassDay(d, valid) == d
  {
    assert Shift(Weekday(d), 0) == Weekday(d);
    assert AddDays(d, 0) == d;
  }

  /** Settling twice settles on the same date, whenever some allowed weekday exists. */
  lemma FirstClassDayIdempotent(d: Date, valid: seq<int>)
    requires ValidDate(d)
    requires exists j | 0 <= j < |valid| :: 0 <= valid[j] < 7
    ensures FirstClassDay(FirstClassDay(d, valid), valid) == FirstClassDay(d, valid)
  {
    FirstClassDayFound(d, valid);
    FirstClassDayKeeps(FirstClassDay(d, valid), valid);
  }

  /** With no allowed weekday the date is advanced all seven times. */
  lemma FirstClassDayNoneAllowed(d: Date, valid: seq<int>)
    requires ValidDate(d)
    requires forall j | 0 <= j < |valid| :: !(0 <= valid[j] < 7)
    ensures DayNumber(FirstClassDay(d, valid)) == DayNumber(d) + 7
  {
  }

  // UID

  predicate IsAlnum(c: char) {
    ('a' <= c <= 'z') || ('A' <= c <= 'Z') || ('0' <= c <= '9')
  }

  /** The characters of `s` that the pattern [^a-zA-Z0-9]+ never touches, in order. */
  function Alnums(s: string): string {
    if s == [] then [] else (if IsAlnum(s[0]) then [s[0]] else []) + Alnums(s[1..])
  }

  predicate UidChars(s: string) {
    forall i | 0 <= i < |s| :: IsAlnum(s[i]) || s[i] == '_'
  }

  predicate NoDoubleUnderscore(s: string) {
    forall i | 0 <= i < |s| - 1 :: !(s[i] == '_' && s[i + 1] == '_')
  }

  /**
   * ReplaceAllString with [^a-zA-Z0-9]+ and "_": each maximal run of other
   * characters becomes a single underscore, written where the run ends.
   */
  function CollapseRuns(s: string): (r: string)
    ensures |r| == 0 <==> |s| == 0
    ensures r != [] ==> (r[0] == '_' <==> !IsAlnum(s[0]))
    ensures UidChars(r) && NoDoubleUnderscore(r)
    ensures Alnums(r) == Alnums(s)
    decreases |s|
  {
    if s == [] then []
    else
      var rest := CollapseRuns(s[1..]);
      if IsAlnum(s[0]) then
        assert ([s[0]] + rest)[1..] == rest;
        [s[0]] + rest
      else if |s| > 1 && !IsAlnum(s[1]) then rest
      else
        assert ("_" + rest)[1..] == rest;
        "_" + rest
  }

  /** A letter or digit is kept as it is. */
  lemma CollapseAlnum(c: char)
    requires IsAlnum(c)
    ensures CollapseRuns([c]) == [c]
  {
    assert [c][1..] == [];
  }

  /** A whole run of other characters, however long, becomes one underscore. */
  lemma {:induction false} CollapseRun(run: string)
    requires |run| > 0 && forall k | 0 <= k < |run| :: !IsAlnum(run[k])
    ensures CollapseRuns(run) == "_"
    decreases |run|
  {
    if |run| > 1 {
      CollapseRun(run[1..]);
    }
  }

  /** One character in front of a non-empty text: kept, absorbed into the run that follows, or an underscore. */
  lemma CollapseCons(c: char, x: string)
    requires x != []
    ensures CollapseRuns([c] + x) ==
            if IsAlnum(c) then [c] + CollapseRuns(x)
            else if !IsAlnum(x[0]) then CollapseRuns(x)
            else "_" + CollapseRuns(x)
  {
    var s := [c] + x;
    assert s[0] == c && s[1..] == x && s[1] == x[0];
  }

  /**
   * Collapsing works piece by piece wherever the cut does not fall inside a
   * run: with the two rules above, this fixes the result for every input.
   */
  lemma {:induction false} CollapseConcat(a: string, b: string)
    requires a == [] || b == [] || IsAlnum(a[|a| - 1]) || IsAlnum(b[0])
    ensures CollapseRuns(a + b) == CollapseRuns(a) + CollapseRuns(b)
    decreases |a|
  {
    if a == [] {
      assert a + b == b;
    } else if b == [] {
      assert a + b == a;
    } else {
      var c, tail := a[0], a[1..];
      assert a == [c] + tail;
      var y := CollapseRuns(b);
      if tail == [] {
        CollapseCons(c, b);
        if IsAlnum(c) {
          assert CollapseRuns(a) == [c];
        } else {
          assert CollapseRuns(a) == "_";
        }
      } else {
        assert a + b == [c] + (tail + b);
        assert tail[|tail| - 1] == a[|a| - 1] && (tail + b)[0] == tail[0];
        CollapseConcat(tail, b);
        CollapseCons(c, tail);
        CollapseCons(c, tail + b);
        var x := CollapseRuns(tail);
        if IsAlnum(c) {
          AppendAssoc([c], x, y);
        } else if IsAlnum(tail[0]) {
          AppendAssoc("_", x, y);
        }
      }
    }
  }

  /** A run of two characters between two words becomes one underscore. */
  lemma ExampleCollapse()
    ensures CollapseRuns("a, b") == "a_b"
  {
    var head, run, word := "a", ", ", "b";
    CollapseAlnum('a');
    CollapseAlnum('b');
    CollapseRun(run);
    CollapseConcat(run, word);
    var rest := run + word;
    assert CollapseRuns(rest) == "_b";
    CollapseConcat(head, rest);
    assert "a, b" == head + rest;
    assert CollapseRuns(head) + "_b" == "a_b";
  }

  /** The part of the UID before the domain. */
  function UidCore(desc: string, days: string): string {
    Trim(CollapseRuns(desc + days), IsUnderscore)
  }

  /** sanitizeUID. */
  function SanitizeUid(desc: string, days: string): (r: string)
    ensures |r| >= |UidDomain| && r[|r| - |UidDomain|..] == UidDomain
  {
    UidCore(desc, days) + UidDomain
  }

  lemma {:induction false} AlnumsAppend(a: string, b: string)
    ensures Alnums(a + b) == Alnums(a) + Alnums(b)
    decreases |a|
  {
    if a != [] {
      assert (a + b)[1..] == a[1..] + b;
      AlnumsAppend(a[1..], b);
    } else {
      assert a + b == b;
    }
  }

  lemma {:induction false} AlnumsOfUnderscores(s: string)
    requires forall i | 0 <= i < |s| :: s[i] == '_'
    ensures Alnums(s) == []
    decreases |s|
  {
    if s != [] {
      AlnumsOfUnderscores(s[1..]);
    }
  }

  /**
   * The UID before its domain is made of ASCII letters, digits and single
   * underscores, neither starts nor ends with an underscore, and keeps every
   * letter and digit of the description and the BYDAY value, in order.
   */
  lemma UidShape(desc: string, days: string)
    ensures var core := UidCore(desc, days);
            && UidChars(core) && NoDoubleUnderscore(core)
            && (core == [] || (core[0] != '_' && core[|core| - 1] != '_'))
            && Alnums(core) == Alnums(desc + days)
  {
    TrimmedShape(CollapseRuns(desc + days));
  }

  /** Trimming the underscores of a collapsed string. */
  lemma TrimmedShape(s: string)
    requires UidChars(s) && NoDoubleUnderscore(s)
    ensures var core := Trim(s, IsUnderscore);
            && UidChars(core) && NoDoubleUnderscore(core)
            && (core == [] || (core[0] != '_' && core[|core| - 1] != '_'))
            && Alnums(core) == Alnums(s)
  {
    var core := Trim(s, IsUnderscore);
    var i := TrimStart(s, IsUnderscore);
    InfixShape(s, i, core);
    InfixAlnums(s, i, core);
  }

  /** An infix of a string of letters, digits and single underscores is one too. */
  lemma InfixShape(s: string, i: nat, core: string)
    requires i + |core| <= |s| && core == s[i..i + |core|]
    requires UidChars(s) && NoDoubleUnderscore(s)
    ensures UidChars(core) && NoDoubleUnderscore(core)
  {
    assert forall k | 0 <= k < |core| :: core[k] == s[i + k];
  }

  /** Cutting underscores off both ends keeps every letter and digit. */
  lemma InfixAlnums(s: string, i: nat, core: string)
    requires i + |core| <= |s| && core == s[i..i + |core|]
    requires forall k | 0 <= k < i :: s[k] == '_'
    requires forall k | i + |core| <= k < |s| :: s[k] == '_'
    ensures Alnums(core) == Alnums(s)
  {
    var head, tail := s[..i], s[i + |core|..];
    assert s == head + core + tail;
    AlnumsOfUnderscores(head);
    AlnumsOfUnderscores(tail);
    AlnumsAppend(head, core);
    assert Alnums(head + core) == Alnums(core);
    AlnumsAppend(head + core, tail);
    assert Alnums(s) == Alnums(head + core) + [];
  }

  // The event

  /** The values GetIcal fills into its VEVENT template. */
  datatype Event = Event(uid: string, stamp: string, startDate: string, startTime: string,
                         endTime: string, summary: string, location: string, byDay: string,
                         until: string)

  /** The lines of the VEVENT, each without its line break. */
  function EventLines(e: Event): (lines: seq<string>)
    ensures |lines| == 14
  {
    [ "BEGIN:VEVENT",
      "UID:" + e.uid,
      "DTSTAMP:" + e.stamp,
      "DTSTART;TZID=" + TimeZone + ":" + e.startDate + "T" + e.startTime,
      "DTEND;TZID=" + TimeZone + ":" + e.startDate + "T" + e.endTime,
      "SUMMARY:" + e.summary,
      "LOCATION:" + e.location,
      "RRULE:FREQ=WEEKLY;BYDAY=" + e.byDay + ";UNTIL=" + e.until + "T235959",
      "BEGIN:VALARM",
      "TRIGGER:-PT15M",
      "ACTION:DISPLAY",
      "DESCRIPTION:Reminder - " + e.summary + " starts soon",
      "END:VALARM",
      "END:VEVENT" ]
  }

  /** Each line followed by a line feed. */
  function Terminated(lines: seq<string>): string {
    if lines == [] then "" else lines[0] + "\n" + Terminated(lines[1..])
  }

  /** The text of the VEVENT template with its fields filled in. */
  function RenderEvent(e: Event): string {
    Terminated(EventLines(e))
  }

  /** Cutting a terminated text at its line feeds gives back the lines, then an empty rest. */
  lemma {:induction false} SplitTerminated(lines: seq<string>)
    requires forall k | 0 <= k < |lines| :: '\n' !in lines[k]
    ensures Split(Terminated(lines), '\n') == lines + [""]
    decreases |lines|
  {
    if lines != [] {
      SplitTerminated(lines[1..]);
      SplitAfterSep(lines[0], '\n', Terminated(lines[1..]));
      assert lines[0] + "\n" + Terminated(lines[1..]) == lines[0] + ['\n'] + Terminated(lines[1..]);
      assert [lines[0]] + lines[1..] == lines;
    }
  }

  /** A field that fits on one line. */
  predicate OneLine(s: string) {
    '\n' !in s
  }

  /** The fixed pieces of the first lines of the template hold no line break. */
  lemma HeadTemplateOneLine()
    ensures OneLine("BEGIN:VEVENT") && OneLine("UID:") && OneLine("DTSTAMP:")
    ensures OneLine("SUMMARY:") && OneLine("LOCATION:")
  {
  }

  /** The fixed pieces of the DTSTART and DTEND lines hold no line break. */
  lemma TimeTemplateOneLine()
    ensures OneLine("DTSTART;TZID=" + TimeZone + ":") && OneLine("DTEND;TZID=" + TimeZone + ":")
    ensures OneLine("T") && OneLine("")
  {
  }

  /** The fixed pieces of the RRULE line hold no line break. */
  lemma RuleTemplateOneLine()
    ensures OneLine("RRULE:FREQ=WEEKLY;BYDAY=") && OneLine(";UNTIL=") && OneLine("T235959")
  {
  }

  /** The fixed lines of the alarm hold no line break. */
  lemma AlarmTemplateOneLine()
    ensures OneLine("BEGIN:VALARM") && OneLine("TRIGGER:-PT15M") && OneLine("ACTION:DISPLAY")
  {
  }

  /** The fixed pieces of the last lines hold no line break. */
  lemma EndTemplateOneLine()
    ensures OneLine("DESCRIPTION:Reminder - ") && OneLine(" starts soon")
    ensures OneLine("END:VALARM") && OneLine("END:VEVENT")
  {
  }

  lemma OneLineJoin(a: string, b: string)
    requires OneLine(a) && OneLine(b)
    ensures OneLine(a + b)
  {
  }

  lemma OneLineJoin5(a: string, b: string, c: string, d: string, f: string)
    requires OneLine(a) && OneLine(b) && OneLine(c) && OneLine(d) && OneLine(f)
    ensures OneLine(a + b + c + d + f) && OneLine(a + b + c + d)
  {
  }

  /**
   * When no field holds a line break, the event text is exactly the
   * fourteen template lines, so each field can be read back from its line.
   */
  lemma EventText(e: Event)
    requires OneLine(e.uid) && OneLine(e.stamp) && OneLine(e.startDate) && OneLine(e.startTime)
    requires OneLine(e.endTime) && OneLine(e.summary) && OneLine(e.location)
    requires OneLine(e.byDay) && OneLine(e.until)
    ensures Split(RenderEvent(e), '\n') == EventLines(e) + [""]
  {
    var lines := EventLines(e);
    HeadTemplateOneLine();
    TimeTemplateOneLine();
    RuleTemplateOneLine();
    AlarmTemplateOneLine();
    EndTemplateOneLine();
    OneLineJoin("UID:", e.uid);
    OneLineJoin("DTSTAMP:", e.stamp);
    OneLineJoin("SUMMARY:", e.summary);
    OneLineJoin("LOCATION:", e.location);
    OneLineJoin5("DTSTART;TZID=" + TimeZone + ":", e.startDate, "T", e.startTime, "");
    OneLineJoin5("DTEND;TZID=" + TimeZone + ":", e.startDate, "T", e.endTime, "");
    OneLineJoin5("RRULE:FREQ=WEEKLY;BYDAY=", e.byDay, ";UNTIL=", e.until, "T235959");
    OneLineJoin5("DESCRIPTION:Reminder - ", e.summary, " starts soon", "", "");
    assert forall k | 0 <= k < |lines| :: OneLine(lines[k]);
    SplitTerminated(lines);
  }

  // GetIcal

  /**
   * The event GetIcal builds for a course, checked in the order the source
   * checks: the pattern's parts, the day letters, the end date, the start
   * date, the times. None stands for the empty text returned for an empty
   * pattern.
   */
  function EventOf(c: Course, stamp: string): (r: Result<Option<Event>, IcalError>)
    ensures r == Ok(None) <==> c.meeting == ""
  {
    if c.meeting == "" then Ok(None)
    else
      var parts := Split(c.meeting, '|');
      if |parts| < 3 then Err(TooFewParts(|parts|))
      else match ParseDays(Split(TrimSpace(parts[0]), '-'))
      case Err(e) => Err(e)
      case Ok(days) =>
        var byDay := Join(Codes(days), ",");
        match ConvertDate(c.endDate)
        case Err(e) => Err(e)
        case Ok(until) =>
          match StartDate(c.startDate, Weekdays(days))
          case Err(e) => Err(e)
          case Ok(start) =>
            var times := Split(TrimSpace(parts[1]), '-');
            if |times| < 2 then Err(TooFewTimes(|parts|))
            else match ConvertTime(TrimSpace(times[0]))
            case Err(e) => Err(e)
            case Ok(startTime) =>
              match ConvertTime(TrimSpace(times[1]))
              case Err(e) => Err(e)
              case Ok(endTime) =>
                Ok(Some(Event(SanitizeUid(c.description, byDay), stamp, start, startTime, endTime,
                              c.description, TrimSpace(parts[2]), byDay, until)))
  }

  /** GetIcal's text: the rendered event, or "" for an empty pattern. */
  function IcalText(c: Course, stamp: string): Result<string, IcalError> {
    match EventOf(c, stamp)
    case Err(e) => Err(e)
    case Ok(None) => Ok("")
    case Ok(Some(e)) => Ok(RenderEvent(e))
  }

  /**
   * The day loop of GetIcal: looks each token up in the day map, collecting
   * the BYDAY codes and the weekday numbers, and stops at the first token
   * that is not a day letter.
   */
  method LookUpDays(tokens: seq<string>) returns (parsedFreq: seq<string>, validWeekdays: seq<int>, err: Option<IcalError>)
    ensures err.None? <==> ParseDays(tokens).Ok?
    ensures err.None? ==> parsedFreq == Codes(ParseDays(tokens).value)
                          && validWeekdays == Weekdays(ParseDays(tokens).value)
    ensures err.Some? ==> err.value == ParseDays(tokens).error
  {
    parsedFreq, validWeekdays := [], [];
    var i := 0;
    while i < |tokens|
      invariant 0 <= i <= |tokens|
      invariant forall k | 0 <= k < i :: tokens[k] in DayMap
      invariant |parsedFreq| == i && forall k | 0 <= k < i :: parsedFreq[k] == DayMap[tokens[k]].ical
      invariant |validWeekdays| == i && forall k | 0 <= k < i :: validWeekdays[k] == DayMap[tokens[k]].weekday
    {
      var d := tokens[i];
      if d !in DayMap {
        ghost var k :| 0 <= k < |tokens| && tokens[k] !in DayMap && ParseDays(tokens).error == UnknownDay(tokens[k])
                       && forall j | 0 <= j < k :: tokens[j] in DayMap;
        assert k == i;
        return parsedFreq, validWeekdays, Some(UnknownDay(d));
      }
      parsedFreq := parsedFreq + [DayMap[d].ical];
      validWeekdays := validWeekdays + [DayMap[d].weekday];
      i := i + 1;
    }
    return parsedFreq, validWeekdays, None;
  }

  /**
   * GetIcal: `stamp` is the DTSTAMP value, the UTC clock reading formatted
   * as "20060102T150405Z".
   */
  method GetIcal(c: Course, stamp: string) returns (r: Result<string, IcalError>)
    ensures r == IcalText(c, stamp)
  {
    if c.meeting == "" {
      return Ok("");
    }
    var parsedMeet := Split(c.meeting, '|');
    if |parsedMeet| < 3 {
      assert EventOf(c, stamp) == Err(TooFewParts(|parsedMeet|));
      return Err(TooFewParts(|parsedMeet|));
    }
    var freq := TrimSpace(parsedMeet[0]);
    var parsedFreq, validWeekdays, dayErr := LookUpDays(Split(freq, '-'));
    if dayErr.Some? {
      assert EventOf(c, stamp) == Err(dayErr.value);
      return Err(dayErr.value);
    }
    var byDay := Join(parsedFreq, ",");

    var endDate := ConvertDate(c.endDate);
    if endDate.Err? {
      assert EventOf(c, stamp) == Err(endDate.error);
      return Err(endDate.error);
    }
    var startDate := ConvertStartDate(c.startDate, validWeekdays);
    if startDate.Err? {
      assert EventOf(c, stamp) == Err(startDate.error);
      return Err(startDate.error);
    }
    var times := Split(TrimSpace(parsedMeet[1]), '-');
    if |times| < 2 {
      assert EventOf(c, stamp) == Err(TooFewTimes(|parsedMeet|));
      return Err(TooFewTimes(|parsedMeet|));
    }
    var startTime := ConvertTime(TrimSpace(times[0]));
    if startTime.Err? {
      assert EventOf(c, stamp) == Err(startTime.error);
      return Err(startTime.error);
    }
    var endTime := ConvertTime(TrimSpace(times[1]));
    if endTime.Err? {
      assert EventOf(c, stamp) == Err(endTime.error);
      return Err(endTime.error);
    }
    var location := TrimSpace(parsedMeet[2]);
    var event := Event(SanitizeUid(c.description, byDay), stamp, startDate.value, startTime.value,
                       endTime.value, c.description, location, byDay, endDate.value);
    assert EventOf(c, stamp) == Ok(Some(event));
    return Ok(RenderEvent(event));
  }

  /** The day tokens of a meeting pattern that has at least one part. */
  function DayTokens(parts: seq<string>): seq<string>
    requires |parts| >= 1
  {
    Split(TrimSpace(parts[0]), '-')
  }

  /**
   * Which courses yield an error, stated without the order of the checks: a
   * non-empty pattern fails exactly when it has fewer than three parts, a
   * day token that is not a day letter, an end or start date that does not
   * parse, fewer than two times, or a start or end time that does not parse.
   */
  lemma EventFailsIff(c: Course, stamp: string)
    ensures EventOf(c, stamp).Err? <==>
      && c.meeting != ""
      && var parts := Split(c.meeting, '|');
         || |parts| < 3
         || (exists k | 0 <= k < |DayTokens(parts)| :: DayTokens(parts)[k] !in DayMap)
         || ParseDate(c.endDate).None?
         || ParseDate(c.startDate).None?
         || var times := Split(TrimSpace(parts[1]), '-');
            || |times| < 2
            || ParseTime(TrimSpace(times[0])).None?
            || ParseTime(TrimSpace(times[1])).None?
  {
    if c.meeting != "" {
      var parts := Split(c.meeting, '|');
      if |parts| >= 3 {
        var r := EventOf(c, stamp);
        match ParseDays(DayTokens(parts))
        case Err(_) =>
          assert r.Err?;
        case Ok(days) =>
          if ParseDate(c.endDate).Some? && ParseDate(c.startDate).Some? {
            var times := Split(TrimSpace(parts[1]), '-');
            if |times| >= 2 {
              assert r.Err? <==> ParseTime(TrimSpace(times[0])).None? || ParseTime(TrimSpace(times[1])).None?;
            }
          }
      }
    }
  }

  /** The stages a built event went through, each of them successful. */
  lemma EventStages(c: Course, stamp: string, e: Event)
    requires EventOf(c, stamp) == Ok(Some(e))
    ensures var parts := Split(c.meeting, '|');
            && |parts| >= 3 && ParseDays(DayTokens(parts)).Ok?
            && var days := ParseDays(DayTokens(parts)).value;
               var times := Split(TrimSpace(parts[1]), '-');
               && ConvertDate(c.endDate).Ok? && StartDate(c.startDate, Weekdays(days)).Ok?
               && |times| >= 2
               && ConvertTime(TrimSpace(times[0])).Ok? && ConvertTime(TrimSpace(times[1])).Ok?
               && e == Event(SanitizeUid(c.description, Join(Codes(days), ",")), stamp,
                             StartDate(c.startDate, Weekdays(days)).value,
                             ConvertTime(TrimSpace(times[0])).value, ConvertTime(TrimSpace(times[1])).value,
                             c.description, TrimSpace(parts[2]), Join(Codes(days), ","),
                             ConvertDate(c.endDate).value)
  {
    var parts := Split(c.meeting, '|');
    assert c.meeting != "" && |parts| >= 3;
    var tokens := DayTokens(parts);
    assert ParseDays(tokens).Ok?;
    var days := ParseDays(tokens).value;
    assert ConvertDate(c.endDate).Ok?;
    assert StartDate(c.startDate, Weekdays(days)).Ok?;
    var times := Split(TrimSpace(parts[1]), '-');
    assert |times| >= 2;
    assert ConvertTime(TrimSpace(times[0])).Ok?;
  }

  /**
   * What a built event holds: BYDAY lists the codes of the day letters in
   * the pattern's order, duplicates kept; the RRULE ends on the end date;
   * the location is the trimmed third part; the summary is the description
   * and the UID is made from it and BYDAY.
   */
  lemma EventFields(c: Course, stamp: string, e: Event)
    requires EventOf(c, stamp) == Ok(Some(e))
    ensures var parts := Split(c.meeting, '|');
            && |parts| >= 3
            && ParseDays(DayTokens(parts)).Ok?
            && Split(e.byDay, ',') == Codes(ParseDays(DayTokens(parts)).value)
            && ParseDate(c.endDate).Some?
            && e.until == FormatDate(ParseDate(c.endDate).value)
            && e.location == TrimSpace(parts[2])
            && e.summary == c.description && e.stamp == stamp
            && e.uid == SanitizeUid(c.description, e.byDay)
  {
    EventStages(c, stamp, e);
    var parts := Split(c.meeting, '|');
    var tokens := DayTokens(parts);
    var days := ParseDays(tokens).value;
    SplitJoin(Codes(days), ',');
  }

  /**
   * DTSTART and DTEND share the start date, moved forward by at most six
   * days onto the weekday of one of the pattern's day letters.
   */
  lemma EventStartDay(c: Course, stamp: string, e: Event)
    requires EventOf(c, stamp) == Ok(Some(e))
    ensures var parts := Split(c.meeting, '|');
            && |parts| >= 3
            && ParseDays(DayTokens(parts)).Ok?
            && ParseDate(c.startDate).Some?
            && var days := ParseDays(DayTokens(parts)).value;
               var d := ParseDate(c.startDate).value;
               var first := FirstClassDay(d, Weekdays(days));
               && e.startDate == FormatDate(first)
               && Weekday(first) in Weekdays(days)
               && DayNumber(d) <= DayNumber(first) <= DayNumber(d) + 6
  {
    EventStages(c, stamp, e);
    var parts := Split(c.meeting, '|');
    var tokens := DayTokens(parts);
    StartOnClassDay(tokens, ParseDays(tokens).value, c.startDate);
  }

  /** The start date of a pattern whose day letters all parsed lands on one of their weekdays. */
  lemma StartOnClassDay(tokens: seq<string>, days: seq<Day>, s: string)
    requires |tokens| >= 1 && ParseDays(tokens) == Ok(days)
    requires ParseDate(s).Some?
    ensures var d := ParseDate(s).value;
            var first := FirstClassDay(d, Weekdays(days));
            && StartDate(s, Weekdays(days)) == Ok(FormatDate(first))
            && Weekday(first) in Weekdays(days)
            && DayNumber(d) <= DayNumber(first) <= DayNumber(d) + 6
  {
    assert 0 <= Weekdays(days)[0] < 7;
    FirstClassDayFound(ParseDate(s).value, Weekdays(days));
  }

  // Worked examples

  /** "M-W-F" gives BYDAY "MO,WE,FR"; a Saturday letter is refused. */
  lemma ExampleDays()
    ensures ParseDays(["M", "W", "F"]) == Ok([DayMap["M"], DayMap["W"], DayMap["F"]])
    ensures Join(Codes(ParseDays(["M", "W", "F"]).value), ",") == "MO,WE,FR"
    ensures ParseDays(["S", "M"]) == Err(UnknownDay("S"))
  {
    var tokens := ["M", "W", "F"];
    var r := ParseDays(tokens);
    assert r.value[0] == DayMap["M"] && r.value[1] == DayMap["W"] && r.value[2] == DayMap["F"];
    var days := [DayMap["M"], DayMap["W"], DayMap["F"]];
    assert r.value == days;
    var codes := Codes(days);
    assert codes == ["MO", "WE", "FR"];
    assert codes[1..] == ["WE", "FR"] && codes[1..][1..] == ["FR"];
    assert Join(["FR"], ",") == "FR";
    var joined := "MO" + "," + ("WE" + "," + "FR");
    assert Join(codes, ",") == joined;
    assert forall k | 0 <= k < 8 :: joined[k] == "MO,WE,FR"[k];
  }

  /** "01-06-25" is 6 January 2025, a Monday. */
  lemma ExampleStartDate()
    ensures ParseDate("01-06-25") == Some(Date(2025, 1, 6))
    ensures Weekday(Date(2025, 1, 6)) == Monday
  {
    assert TwoDigitYear('2', '5') == Some(25);
    assert DaysBeforeYear(2025) == 739251;
  }

  /** Go's atoi takes a sign in the two year characters: "+5" is 2005 and "-5" is 1995. */
  lemma ExampleSignedYears()
    ensures ParseDate("01-06-+5") == Some(Date(2005, 1, 6))
    ensures ParseDate("01-06--5") == Some(Date(1995, 1, 6))
  {
    assert TwoDigitYear('+', '5') == Some(5);
    assert TwoDigitYear('-', '5') == Some(-5);
  }

  /**
   * The "MM/DD/YYYY" layout the comments name, unpadded fields, month 13 and
   * 29 February of a common year are refused.
   */
  lemma ExampleRejectedDates()
    ensures ParseDate("01/06/2025") == None
    ensures ParseDate("1-6-25") == None
    ensures ParseDate("13-01-25") == None
    ensures ParseDate("02-29-25") == None
  {
    assert TwoDigitYear('2', '5') == Some(25);
  }

  /** A Monday class keeps 6 January 2025; a Tuesday/Thursday class moves to the 7th. */
  lemma ExampleFirstClassDays()
    ensures FirstClassDay(Date(2025, 1, 6), [Monday, Wednesday, Friday]) == Date(2025, 1, 6)
    ensures FirstClassDay(Date(2025, 1, 6), [Tuesday, Thursday]) == Date(2025, 1, 7)
  {
    var d := Date(2025, 1, 6);
    ExampleStartDate();
    FirstClassDayKeeps(d, [Monday, Wednesday, Friday]);
    var v := [Tuesday, Thursday];
    assert NextDay(d) == Date(2025, 1, 7);
    assert AddDays(d, 1) == Date(2025, 1, 7);
    assert Advance(Monday, v, 1) == 1;
    assert Advance(Monday, v, 0) == 1;
  }

  /** A morning class time in 24-hour form. */
  lemma ExampleMorningTime()
    ensures ConvertTime("10:50 AM") == Ok("105000")
  {
    KitchenExample(Clock(10, 50), "10:50 AM", "105000");
  }

  /** An afternoon class time in 24-hour form. */
  lemma ExampleAfternoonTime()
    ensures ConvertTime("2:00 PM") == Ok("140000")
  {
    KitchenExample(Clock(14, 0), "2:00 PM", "140000");
  }

  /** 12 AM is hour 0. */
  lemma ExampleMidnight()
    ensures ConvertTime("12:00 AM") == Ok("000000")
  {
    KitchenExample(Clock(0, 0), "12:00 AM", "000000");
  }

  /** 12 PM is hour 12. */
  lemma ExampleNoon()
    ensures ConvertTime("12:30 PM") == Ok("123000")
  {
    KitchenExample(Clock(12, 30), "12:30 PM", "123000");
  }

  /** Parse accepts hour 0, which Format never prints: 0 PM is noon. */
  lemma ExampleHourZero()
    ensures ConvertTime("0:30 PM") == Ok("123000")
  {
    var text := "0" + [':', '3', '0'] + Blanks(1) + "PM";
    assert "0:30 PM" == text;
    ShortDecimal("0");
    ParseTimeReads("0", '3', '0', 1, "PM");
    assert ParseTime(text) == Some(Clock(12, 30));
  }

  /** Parse accepts a leading zero and several blanks, which Format never prints. */
  lemma ExampleLeadingZero()
    ensures ConvertTime("09:05  AM") == Ok("090500")
  {
    var text := "09" + [':', '0', '5'] + Blanks(2) + "AM";
    assert "09:05  AM" == text;
    ShortDecimal("09");
    ParseTimeReads("09", '0', '5', 2, "AM");
    assert ParseTime(text) == Some(Clock(9, 5));
  }

  /** An hour above 12 and a minute of 60 are refused. */
  lemma ExampleRejectedFields()
    ensures ConvertTime("13:00 PM") == Err(BadTime("13:00 PM"))
    ensures ConvertTime("10:60 AM") == Err(BadTime("10:60 AM"))
  {
    assert "13:00 PM" == "13" + [':', '0', '0'] + Blanks(1) + "PM";
    ShortDecimal("13");
    ParseTimeReads("13", '0', '0', 1, "PM");
    assert "10:60 AM" == "10" + [':', '6', '0'] + Blanks(1) + "AM";
    ParseTimeReads("10", '6', '0', 1, "AM");
  }

  /** No blank before the marker and a marker in lower case are refused. */
  lemma ExampleRejectedMarkers()
    ensures ConvertTime("10:50AM") == Err(BadTime("10:50AM"))
    ensures ConvertTime("10:50 am") == Err(BadTime("10:50 am"))
  {
    assert "10:50AM" == "10" + [':', '5', '0'] + Blanks(0) + "AM";
    ParseTimeReads("10", '5', '0', 0, "AM");
    assert "10:50 am" == "10" + [':', '5', '0'] + Blanks(1) + "am";
    ParseTimeReads("10", '5', '0', 1, "am");
  }

  /** Anything after the marker is refused. */
  lemma ExampleTrailingText()
    ensures ConvertTime("10:50 AM.") == Err(BadTime("10:50 AM."))
  {
    TimeTextAt("10:50 AM.", "10", '5', '0', " AM.");
    assert CutSpace(" AM.") == "AM.";
  }

  lemma KitchenExample(c: Clock, text: string, hhmmss: string)
    requires 0 <= c.hour < 24 && 0 <= c.minute < 60
    requires var h := if c.hour % 12 == 0 then 12 else c.hour % 12;
             text == (if h < 10 then [DigitChar(h)] else [DigitChar(h / 10), DigitChar(h % 10)])
                     + ":" + [DigitChar(c.minute / 10), DigitChar(c.minute % 10)]
                     + (if c.hour >= 12 then " PM" else " AM")
    requires hhmmss == [DigitChar(c.hour / 10), DigitChar(c.hour % 10),
                        DigitChar(c.minute / 10), DigitChar(c.minute % 10), '0', '0']
    ensures ConvertTime(text) == Ok(hhmmss)
  {
    var h := if c.hour % 12 == 0 then 12 else c.hour % 12;
    var marker := if c.hour >= 12 then "PM" else "AM";
    var hs, ms := AppendInt(h, 0), AppendInt(c.minute, 2);
    assert Kitchen(c) == hs + ":" + ms + " " + marker;
    HourDigits(h);
    TwoDigits(c.minute);
    assert hs + ":" + ms + " " + marker == text;
    ConvertKitchen(c);
    assert FormatTime(c) == hhmmss;
  }

  /** The end date of the first worked example. */
  lemma ExampleEndDate()
    ensures ConvertDate("05-02-25") == Ok("20250502")
  {
    assert TwoDigitYear('2', '5') == Some(25);
    assert ParseDate("05-02-25") == Some(Date(2025, 5, 2));
    CompactExample();
  }

  lemma CompactExample()
    ensures FormatDate(Date(2025, 5, 2)) == "20250502"
  {
    var y, m, d := AppendInt(2025, 4), AppendInt(5, 2), AppendInt(2, 2);
    TwoDigits(5);
    TwoDigits(2);
    YearExample();
    assert y + m + d == "2025" + "05" + "02" == "20250502";
  }

  lemma YearExample()
    ensures AppendInt(2025, 4) == "2025"
  {
    assert Pow10(4) == 10000;
    assert Fixed(2, 1) == "2" && Fixed(20, 2) == "20";
    assert Fixed(202, 3) == "202";
  }
}
