/**
 * The parts of Go's `time` package that the converter relies on: parsing
 * with the layouts "01-02-06" and "3:04 PM", formatting with "20060102",
 * "150405" and "3:04 PM", `Weekday` and `AddDate(0, 0, 1)`, all in the
 * proleptic Gregorian calendar of UTC (the only location time.Parse uses
 * here).
 */
module GoTime {
  import opened Results

  /** time.Weekday numbers the days from Sunday. */
  const Sunday := 0
  const Monday := 1
  const Tuesday := 2
  const Wednesday := 3
  const Thursday := 4
  const Friday := 5
  const Saturday := 6

  datatype Date = Date(year: int, month: int, day: int)

  predicate IsLeap(year: int) {
    year % 4 == 0 && (year % 100 != 0 || year % 400 == 0)
  }

  /** Number of days in `month` of `year` (Go's daysIn). */
  function DaysIn(month: int, year: int): int
    requires 1 <= month <= 12
  {
    if month == 2 then (if IsLeap(year) then 29 else 28)
    else if month == 4 || month == 6 || month == 9 || month == 11 then 30
    else 31
  }

  predicate ValidDate(d: Date) {
    1 <= d.month <= 12 && 1 <= d.day <= DaysIn(d.month, d.year)
  }

  function DaysBeforeMonth(month: int, year: int): int
    requires 1 <= month <= 12
  {
    var before := [0, 31, 59, 90, 120, 151, 181, 212, 243, 273, 304, 334][month - 1];
    if month > 2 && IsLeap(year) then before + 1 else before
  }

  /** Days from 1 January of year 1 to 1 January of `year`. */
  function DaysBeforeYear(year: int): int {
    var y := year - 1;
    365 * y + y / 4 - y / 100 + y / 400
  }

  /** Position of a date on the day line; 1 January of year 1 is day 0. */
  function DayNumber(d: Date): int
    requires 1 <= d.month <= 12
  {
    DaysBeforeYear(d.year) + DaysBeforeMonth(d.month, d.year) + d.day - 1
  }

  /** time.Time.Weekday; 1 January of year 1 was a Monday. */
  function Weekday(d: Date): (w: int)
    requires ValidDate(d)
    ensures 0 <= w < 7
  {
    (DayNumber(d) + 1) % 7
  }

  /** A year adds 366 days when it is a leap year and 365 otherwise. */
  lemma YearLength(year: int)
    ensures DaysBeforeYear(year + 1) == DaysBeforeYear(year) + (if IsLeap(year) then 366 else 365)
  {
    var y := year - 1;
    var a, b, c := year / 4 - y / 4, year / 100 - y / 100, year / 400 - y / 400;
    assert DaysBeforeYear(year + 1) - DaysBeforeYear(year) == 365 + a - b + c;
    Step4(year);
    Step100(year);
    Step400(year);
    if year % 400 == 0 {
      Multiple400(year);
    }
    if year % 100 == 0 {
      Multiple100(year);
    }
    if year % 4 != 0 {
      assert a == 0 && b == 0 && c == 0;
    } else if year % 100 != 0 {
      assert a == 1 && b == 0 && c == 0;
    } else if year % 400 != 0 {
      assert a == 1 && b == 1 && c == 0;
    }
  }

  /** A multiple of 400 is a multiple of 100. */
  lemma Multiple400(year: int)
    requires year % 400 == 0
    ensures year % 100 == 0
  {
    var q := year / 400;
    assert year == 100 * (4 * q);
  }

  /** A multiple of 100 is a multiple of 4. */
  lemma Multiple100(year: int)
    requires year % 100 == 0
    ensures year % 4 == 0
  {
    var h := year / 100;
    assert year == 4 * (25 * h);
  }

  lemma Step4(year: int)
    ensures year / 4 - (year - 1) / 4 == (if year % 4 == 0 then 1 else 0)
  {
  }

  lemma Step100(year: int)
    ensures year / 100 - (year - 1) / 100 == (if year % 100 == 0 then 1 else 0)
  {
  }

  lemma Step400(year: int)
    ensures year / 400 - (year - 1) / 400 == (if year % 400 == 0 then 1 else 0)
  {
  }

  /** t.AddDate(0, 0, 1) on a valid date: the next day of the calendar. */
  function NextDay(d: Date): (n: Date)
    requires ValidDate(d)
    ensures ValidDate(n)
    ensures DayNumber(n) == DayNumber(d) + 1
  {
    if d.day < DaysIn(d.month, d.year) then Date(d.year, d.month, d.day + 1)
    else if d.month < 12 then Date(d.year, d.month + 1, 1)
    else
      YearLength(d.year);
      Date(d.year + 1, 1, 1)
  }

  /** `n` applications of AddDate(0, 0, 1), the last one outermost. */
  function AddDays(d: Date, n: nat): (r: Date)
    requires ValidDate(d)
    ensures ValidDate(r)
    ensures DayNumber(r) == DayNumber(d) + n
    decreases n
  {
    if n == 0 then d else NextDay(AddDays(d, n - 1))
  }

  /** The weekday `k` days after weekday `w`. */
  function Shift(w: int, k: int): int {
    (w + k) % 7
  }

  lemma WeekdayAfter(d: Date, n: nat)
    requires ValidDate(d)
    ensures Weekday(AddDays(d, n)) == Shift(Weekday(d), n)
  {
    ModShift(DayNumber(d) + 1, n, DayNumber(AddDays(d, n)) + 1);
  }

  lemma ModShift(x: int, n: int, y: int)
    requires y == x + n
    ensures y % 7 == Shift(x % 7, n)
  {
    var q := x / 7;
    assert x == 7 * q + x % 7;
    assert y == 7 * q + (x % 7 + n);
  }

  // Decimal digits

  predicate IsDigit(c: char) {
    '0' <= c <= '9'
  }

  predicate AllDigits(s: string) {
    forall i | 0 <= i < |s| :: IsDigit(s[i])
  }

  function DigitValue(c: char): nat
    requires IsDigit(c)
  {
    c as int - '0' as int
  }

  function DigitChar(n: nat): (c: char)
    requires n < 10
    ensures IsDigit(c) && DigitValue(c) == n
  {
    ('0' as int + n) as char
  }

  function Pow10(k: nat): (p: nat)
    ensures p >= 1
  {
    if k == 0 then 1 else 10 * Pow10(k - 1)
  }

  /** The number a string of decimal digits denotes. */
  function DecimalValue(s: string): nat
    requires AllDigits(s)
  {
    if s == [] then 0 else 10 * DecimalValue(s[..|s| - 1]) + DigitValue(s[|s| - 1])
  }

  /** The `width` lowest decimal digits of `n`, most significant first. */
  function Fixed(n: nat, width: nat): (r: string)
    ensures |r| == width && AllDigits(r)
  {
    if width == 0 then "" else Fixed(n / 10, width - 1) + [DigitChar(n % 10)]
  }

  /** The decimal digits of `n` without leading zeros. */
  function Decimal(n: nat): (r: string)
    ensures |r| >= 1 && AllDigits(r)
  {
    if n < 10 then [DigitChar(n)] else Decimal(n / 10) + [DigitChar(n % 10)]
  }

  /** Go's time.appendInt(b, x, width): the decimal form of x, zero-padded to `width`. */
  function AppendInt(x: int, width: nat): string {
    var u := if x < 0 then -x else x;
    (if x < 0 then "-" else "") + (if width > 0 && u < Pow10(width) then Fixed(u, width) else Decimal(u))
  }

  /** A number that fits in `width` digits is read back from its padded form. */
  lemma {:induction false} FixedValue(n: nat, width: nat)
    requires n < Pow10(width)
    ensures DecimalValue(Fixed(n, width)) == n
    decreases width
  {
    if width > 0 {
      var s := Fixed(n, width);
      assert n / 10 < Pow10(width - 1);
      FixedValue(n / 10, width - 1);
      assert s[..|s| - 1] == Fixed(n / 10, width - 1);
    }
  }

  // Layout "01-02-06"

  /** Go's atoi on the two characters the "06" element takes: a sign is accepted. */
  function TwoDigitYear(a: char, b: char): Option<int> {
    if IsDigit(a) && IsDigit(b) then Some(10 * DigitValue(a) + DigitValue(b))
    else if a == '+' && IsDigit(b) then Some(DigitValue(b))
    else if a == '-' && IsDigit(b) then Some(-(DigitValue(b) as int))
    else None
  }

  /** The "06" pivot: 69 to 99 are in the 1900s, everything below in the 2000s. */
  function CenturyPivot(yy: int): int {
    if yy >= 69 then 1900 + yy else 2000 + yy
  }

  /**
   * time.Parse("01-02-06", s): a zero-padded month, a dash, a zero-padded
   * day, a dash, a two-character year, and nothing after; the month must be
   * 1 to 12 and the day must exist in that month.
   */
  function ParseDate(s: string): (r: Option<Date>)
    ensures r.Some? ==> ValidDate(r.value) && 1969 <= r.value.year <= 2068
  {
    if |s| != 8 || !IsDigit(s[0]) || !IsDigit(s[1]) || s[2] != '-'
       || !IsDigit(s[3]) || !IsDigit(s[4]) || s[5] != '-' then None
    else
      var month := 10 * DigitValue(s[0]) + DigitValue(s[1]);
      var day := 10 * DigitValue(s[3]) + DigitValue(s[4]);
      match TwoDigitYear(s[6], s[7])
      case None => None
      case Some(yy) =>
        var year := CenturyPivot(yy);
        if 1 <= month <= 12 && 1 <= day <= DaysIn(month, year) then Some(Date(year, month, day))
        else None
  }

  /** t.Format("01-02-06"). */
  function LayoutDate(d: Date): string {
    AppendInt(d.month, 2) + "-" + AppendInt(d.day, 2) + "-" + AppendInt(d.year % 100, 2)
  }

  /** Two-digit fields print as exactly two digits. */
  lemma TwoDigits(n: nat)
    requires n < 100
    ensures AppendInt(n, 2) == [DigitChar(n / 10), DigitChar(n % 10)]
  {
    assert Pow10(2) == 100;
    assert Fixed(n, 2) == Fixed(n / 10, 1) + [DigitChar(n % 10)];
    assert Fixed(n / 10, 1) == Fixed(n / 100, 0) + [DigitChar(n / 10 % 10)];
    assert n / 10 % 10 == n / 10;
  }

  /** An hour of the 12-hour clock printed without padding. */
  lemma HourDigits(h: nat)
    requires 1 <= h <= 12
    ensures AppendInt(h, 0) == if h < 10 then [DigitChar(h)] else [DigitChar(h / 10), DigitChar(h % 10)]
  {
    if h >= 10 {
      assert Decimal(h / 10) == [DigitChar(h / 10)];
    }
  }

  /** Two characters that read as the two-digit number `n`. */
  predicate ReadsAs(a: char, b: char, n: int) {
    IsDigit(a) && IsDigit(b) && 10 * DigitValue(a) + DigitValue(b) == n
  }

  /** A two-digit field is printed as two characters that read back as it. */
  lemma PrintedTwoDigits(n: nat)
    requires n < 100
    ensures var p := AppendInt(n, 2); |p| == 2 && ReadsAs(p[0], p[1], n)
  {
    TwoDigits(n);
    TwoDigitValue(n);
  }

  /** Two digits read back as the number they were printed from. */
  lemma TwoDigitValue(n: nat)
    requires n < 100
    ensures 10 * DigitValue(DigitChar(n / 10)) + DigitValue(DigitChar(n % 10)) == n
  {
  }

  /** The eight characters of a "01-02-06" date. */
  lemma LayoutDateChars(d: Date)
    requires ValidDate(d) && 1969 <= d.year <= 2068
    ensures var s := LayoutDate(d);
            && |s| == 8 && s[2] == '-' && s[5] == '-'
            && ReadsAs(s[0], s[1], d.month) && ReadsAs(s[3], s[4], d.day)
            && ReadsAs(s[6], s[7], d.year % 100)
  {
    PivotWindow(d.year);
    var m, n, y := AppendInt(d.month, 2), AppendInt(d.day, 2), AppendInt(d.year % 100, 2);
    PrintedTwoDigits(d.month);
    PrintedTwoDigits(d.day);
    PrintedTwoDigits(d.year % 100);
    var s := LayoutDate(d);
    assert s == m + "-" + n + "-" + y;
    assert s[0] == m[0] && s[1] == m[1] && s[3] == n[0] && s[4] == n[1] && s[6] == y[0] && s[7] == y[1];
  }

  /** A year of the pivot window comes back from its last two digits. */
  lemma PivotWindow(year: int)
    requires 1969 <= year <= 2068
    ensures 0 <= year % 100 < 100 && CenturyPivot(year % 100) == year
  {
    if year >= 2000 {
      assert year == 100 * 20 + (year - 2000);
    } else {
      assert year == 100 * 19 + (year - 1900);
    }
  }

  /** Every date of the pivot window is parsed back from its "01-02-06" form. */
  lemma ParseLayoutDate(d: Date)
    requires ValidDate(d) && 1969 <= d.year <= 2068
    ensures ParseDate(LayoutDate(d)) == Some(d)
  {
    LayoutDateChars(d);
    PivotWindow(d.year);
    ParseDateReads(LayoutDate(d), d.month, d.day, d.year % 100);
  }

  /** What ParseDate makes of eight characters shaped like "01-02-06". */
  lemma ParseDateReads(s: string, month: int, day: int, yy: int)
    requires |s| == 8 && s[2] == '-' && s[5] == '-'
    requires ReadsAs(s[0], s[1], month) && ReadsAs(s[3], s[4], day) && ReadsAs(s[6], s[7], yy)
    ensures ParseDate(s) == if 1 <= month <= 12 && 1 <= day <= DaysIn(month, CenturyPivot(yy))
                            then Some(Date(CenturyPivot(yy), month, day)) else None
  {
    assert TwoDigitYear(s[6], s[7]) == Some(yy);
  }

  /**
   * Every text ParseDate accepts has the "01-02-06" shape: two month digits,
   * a dash, two day digits, a dash and a two-character year that Go's atoi
   * reads, possibly with a sign; the date is read from those fields.
   */
  lemma ParseDateShape(s: string)
    requires ParseDate(s).Some?
    ensures |s| == 8 && s[2] == '-' && s[5] == '-'
    ensures IsDigit(s[0]) && IsDigit(s[1]) && IsDigit(s[3]) && IsDigit(s[4])
    ensures TwoDigitYear(s[6], s[7]).Some?
    ensures ParseDate(s).value == Date(CenturyPivot(TwoDigitYear(s[6], s[7]).value),
                                       10 * DigitValue(s[0]) + DigitValue(s[1]),
                                       10 * DigitValue(s[3]) + DigitValue(s[4]))
  {
  }

  /** t.Format("20060102"). */
  function FormatDate(d: Date): (r: string)
    ensures 0 <= d.year < 10000 && 0 <= d.month < 100 && 0 <= d.day < 100 ==>
              |r| == 8 && AllDigits(r) && ReadCompactDate(r) == d
  {
    PaddedDate(d);
    AppendInt(d.year, 4) + AppendInt(d.month, 2) + AppendInt(d.day, 2)
  }

  /** Reads a "20060102" string back into a date. */
  function ReadCompactDate(s: string): Date
    requires |s| == 8 && AllDigits(s)
  {
    Date(DecimalValue(s[..4]), DecimalValue(s[4..6]), DecimalValue(s[6..]))
  }

  /** A year of four digits, a month and a day of two print as eight digits that read back as them. */
  lemma PaddedDate(d: Date)
    ensures var s := AppendInt(d.year, 4) + AppendInt(d.month, 2) + AppendInt(d.day, 2);
            0 <= d.year < 10000 && 0 <= d.month < 100 && 0 <= d.day < 100 ==>
              |s| == 8 && AllDigits(s) && ReadCompactDate(s) == d
  {
    if 0 <= d.year < 10000 && 0 <= d.month < 100 && 0 <= d.day < 100 {
      assert Pow10(4) == 10000 && Pow10(2) == 100;
      var y, m, n := Fixed(d.year, 4), Fixed(d.month, 2), Fixed(d.day, 2);
      PaddedIsFixed(d.year, 4);
      PaddedIsFixed(d.month, 2);
      PaddedIsFixed(d.day, 2);
      ThreeParts(y, m, n);
      FixedValue(d.year, 4);
      FixedValue(d.month, 2);
      FixedValue(d.day, 2);
    }
  }

  /** A number that fits its width is printed zero-padded to exactly that width. */
  lemma PaddedIsFixed(x: nat, width: nat)
    requires 0 < width && x < Pow10(width)
    ensures AppendInt(x, width) == Fixed(x, width)
  {
  }

  lemma ThreeParts(y: string, m: string, n: string)
    requires |y| == 4 && |m| == 2 && |n| == 2
    ensures var s := y + m + n; s[..4] == y && s[4..6] == m && s[6..] == n
  {
  }

  // Layouts "3:04 PM" and "150405"

  datatype Clock = Clock(hour: int, minute: int)

  /** Go's cutspace: drops leading blanks. */
  function CutSpace(s: string): (r: string)
    ensures |r| <= |s| && forall k | 0 <= k < |s| - |r| :: s[k] == ' '
    ensures r == [] || r[0] != ' '
  {
    if |s| > 0 && s[0] == ' ' then CutSpace(s[1..]) else s
  }

  /** The "PM" element and what follows it: exactly "AM" or "PM" and nothing after. */
  function ParseMarker(hour: int, minute: int, s: string): Option<Clock> {
    if |s| > 0 && s[0] != ' ' then None
    else
      var rest := CutSpace(s);
      if |rest| != 2 || (rest[0] != 'A' && rest[0] != 'P') || rest[1] != 'M' then None
      else Some(Meridiem(hour, minute, rest[0] == 'P'))
  }

  /** The 24-hour clock time of a 12-hour one: PM adds 12 below hour 12; 12 AM is hour 0. */
  function Meridiem(hour: int, minute: int, pm: bool): Clock {
    if pm then Clock(if hour < 12 then hour + 12 else hour, minute)
    else Clock(if hour == 12 then 0 else hour, minute)
  }

  /**
   * time.Parse("3:04 PM", s): a one- or two-digit hour of at most 12, a
   * colon, a two-digit minute below 60, one or more blanks and AM or PM.
   * PM adds 12 to hours below 12; 12 AM is hour 0.
   */
  function ParseTime(s: string): (r: Option<Clock>)
    ensures r.Some? ==> 0 <= r.value.hour < 24 && 0 <= r.value.minute < 60
  {
    if |s| == 0 || !IsDigit(s[0]) then None
    else
      var two := |s| > 1 && IsDigit(s[1]);
      var hour := if two then 10 * DigitValue(s[0]) + DigitValue(s[1]) else DigitValue(s[0]);
      var rest := if two then s[2..] else s[1..];
      if hour > 12 then None
      else if |rest| < 3 || rest[0] != ':' || !IsDigit(rest[1]) || !IsDigit(rest[2]) then None
      else
        var minute := 10 * DigitValue(rest[1]) + DigitValue(rest[2]);
        if minute >= 60 then None
        else ParseMarker(hour, minute, rest[3..])
  }

  /** t.Format("3:04 PM"). */
  function Kitchen(c: Clock): string {
    var h := if c.hour % 12 == 0 then 12 else c.hour % 12;
    AppendInt(h, 0) + ":" + AppendInt(c.minute, 2) + " " + (if c.hour >= 12 then "PM" else "AM")
  }

  /** Parsing with "3:04 PM" undoes formatting with it, for every time of day. */
  lemma ParseKitchen(c: Clock)
    requires 0 <= c.hour < 24 && 0 <= c.minute < 60
    ensures ParseTime(Kitchen(c)) == Some(c)
  {
    var h := if c.hour % 12 == 0 then 12 else c.hour % 12;
    var marker := if c.hour >= 12 then "PM" else "AM";
    var tail := " " + marker;
    assert Kitchen(c) == AppendInt(h, 0) + ":" + AppendInt(c.minute, 2) + tail;
    PrintedTime(h, c.minute, tail);
    MarkerBack(c, h, marker);
  }

  /** The hour and minute as "3:04" prints them are read back before what follows them. */
  lemma PrintedTime(h: nat, minute: nat, tail: string)
    requires 1 <= h <= 12 && minute < 60
    ensures ParseTime(AppendInt(h, 0) + ":" + AppendInt(minute, 2) + tail) == ParseMarker(h, minute, tail)
  {
    var hs := AppendInt(h, 0);
    var m1, m2 := DigitChar(minute / 10), DigitChar(minute % 10);
    TwoDigits(minute);
    var s := hs + ":" + AppendInt(minute, 2) + tail;
    assert s == hs + [':', m1, m2] + tail;
    PrintedHour(h);
    TwoDigitValue(minute);
    TimeTextAt(s, hs, m1, m2, tail);
  }

  /** The hour of "3:04 PM" is printed as one or two digits that read back as it. */
  lemma PrintedHour(h: nat)
    requires 1 <= h <= 12
    ensures var hs := AppendInt(h, 0); 1 <= |hs| <= 2 && AllDigits(hs) && DecimalValue(hs) == h
  {
    HourDigits(h);
    ShortDecimal(AppendInt(h, 0));
    if h >= 10 {
      TwoDigitValue(h);
    }
  }

  /** AM and PM with the printed 12-hour hour give back the 24-hour hour. */
  lemma MarkerBack(c: Clock, h: int, marker: string)
    requires 0 <= c.hour < 24
    requires h == if c.hour % 12 == 0 then 12 else c.hour % 12
    requires marker == if c.hour >= 12 then "PM" else "AM"
    ensures ParseMarker(h, c.minute, " " + marker) == Some(c)
  {
    if c.hour >= 12 {
      MarkerPM(h, c.minute);
    } else {
      MarkerAM(h, c.minute);
    }
  }

  lemma MarkerPM(hour: int, minute: int)
    ensures ParseMarker(hour, minute, " PM") == Some(Clock(if hour < 12 then hour + 12 else hour, minute))
  {
    assert CutSpace(" PM") == "PM";
  }

  lemma MarkerAM(hour: int, minute: int)
    ensures ParseMarker(hour, minute, " AM") == Some(Clock(if hour == 12 then 0 else hour, minute))
  {
    assert CutSpace(" AM") == "AM";
  }

  /** `n` blanks. */
  function Blanks(n: nat): (r: string)
    ensures |r| == n && forall k | 0 <= k < n :: r[k] == ' '
  {
    seq(n, _ => ' ')
  }

  lemma {:induction false} CutBlanks(n: nat, t: string)
    ensures CutSpace(Blanks(n) + t) == CutSpace(t)
    decreases n
  {
    if n > 0 {
      assert (Blanks(n) + t)[1..] == Blanks(n - 1) + t;
      CutBlanks(n - 1, t);
    } else {
      assert Blanks(n) + t == t;
    }
  }

  /**
   * What follows the minute, when it is `n` blanks and two more characters:
   * accepted exactly when there is at least one blank and the two characters
   * are "AM" or "PM".
   */
  lemma MarkerReads(hour: int, minute: int, n: nat, marker: string)
    requires |marker| == 2
    ensures ParseMarker(hour, minute, Blanks(n) + marker) ==
            if n >= 1 && (marker == "AM" || marker == "PM") then Some(Meridiem(hour, minute, marker == "PM"))
            else None
  {
    var s := Blanks(n) + marker;
    CutBlanks(n, marker);
    if n == 0 {
      assert s == marker;
    } else {
      assert s[0] == ' ';
    }
    var rest := CutSpace(marker);
    if marker[0] == ' ' {
      assert |rest| < 2;
    } else {
      assert rest == marker;
    }
  }

  /**
   * Every text of the shape the layout "3:04 PM" describes, read exactly: a
   * one- or two-digit hour (leading zeros allowed), a colon, two minute
   * digits, blanks and a two-character marker. It is accepted exactly when
   * the hour is at most 12, the minute below 60, there is at least one blank
   * and the marker is "AM" or "PM" in capitals.
   */
  lemma ParseTimeReads(hs: string, m1: char, m2: char, n: nat, marker: string)
    requires 1 <= |hs| <= 2 && AllDigits(hs) && IsDigit(m1) && IsDigit(m2) && |marker| == 2
    ensures var hour := DecimalValue(hs);
            var minute := 10 * DigitValue(m1) + DigitValue(m2);
            ParseTime(hs + [':', m1, m2] + Blanks(n) + marker) ==
              if hour <= 12 && minute < 60 && n >= 1 && (marker == "AM" || marker == "PM")
              then Some(Meridiem(hour, minute, marker == "PM"))
              else None
  {
    var tail := Blanks(n) + marker;
    var s := hs + [':', m1, m2] + Blanks(n) + marker;
    assert s == hs + [':', m1, m2] + tail;
    TimeTextAt(s, hs, m1, m2, tail);
    MarkerReads(DecimalValue(hs), 10 * DigitValue(m1) + DigitValue(m2), n, marker);
  }

  /** The hour and minute fields of a time text, read before what follows them. */
  lemma TimeTextAt(s: string, hs: string, m1: char, m2: char, tail: string)
    requires s == hs + [':', m1, m2] + tail
    requires 1 <= |hs| <= 2 && AllDigits(hs) && IsDigit(m1) && IsDigit(m2)
    ensures var hour := DecimalValue(hs);
            var minute := 10 * DigitValue(m1) + DigitValue(m2);
            ParseTime(s) == if hour > 12 || minute >= 60 then None else ParseMarker(hour, minute, tail)
  {
    var h := |hs|;
    var fields := hs + [':', m1, m2];
    assert s[..h + 3] == fields && s[h + 3..] == tail;
    assert fields[..h] == hs && fields[h] == ':' && fields[h + 1] == m1 && fields[h + 2] == m2;
    assert s[..h] == fields[..h];
    ParseTimeAt(s, h);
  }

  /** ParseTime once the hour is known to take `h` characters. */
  lemma ParseTimeAt(s: string, h: nat)
    requires 1 <= h <= 2 && |s| >= h + 3 && AllDigits(s[..h]) && (h == 1 ==> !IsDigit(s[1]))
    requires s[h] == ':' && IsDigit(s[h + 1]) && IsDigit(s[h + 2])
    ensures var hour := DecimalValue(s[..h]);
            var minute := 10 * DigitValue(s[h + 1]) + DigitValue(s[h + 2]);
            ParseTime(s) == if hour > 12 || minute >= 60 then None else ParseMarker(hour, minute, s[h + 3..])
  {
    ShortDecimal(s[..h]);
    assert s[..h][0] == s[0];
    var rest := s[h..];
    assert rest[0] == s[h] && rest[1] == s[h + 1] && rest[2] == s[h + 2] && rest[3..] == s[h + 3..];
    if h == 2 {
      assert s[..h][1] == s[1];
    }
  }

  lemma ShortDecimal(hs: string)
    requires 1 <= |hs| <= 2 && AllDigits(hs)
    ensures DecimalValue(hs) == if |hs| == 1 then DigitValue(hs[0]) else 10 * DigitValue(hs[0]) + DigitValue(hs[1])
  {
    assert hs[..|hs| - 1][..0] == [];
    if |hs| == 2 {
      assert hs[..1] == [hs[0]];
    }
  }

  /** Anything ParseTime accepts leaves no blanks before AM or PM out: it is `n >= 1` blanks and the marker. */
  lemma MarkerShape(hour: int, minute: int, t: string)
    requires ParseMarker(hour, minute, t).Some?
    ensures |t| >= 3 && (t[|t| - 2..] == "AM" || t[|t| - 2..] == "PM")
    ensures t == Blanks(|t| - 2) + t[|t| - 2..]
  {
    var rest := CutSpace(t);
    assert |t| > 0;
    CutSpaceSuffix(t);
    assert t[|t| - 2..] == rest;
    assert Blanks(|t| - 2) == t[..|t| - 2];
  }

  lemma {:induction false} CutSpaceSuffix(s: string)
    ensures CutSpace(s) == s[|s| - |CutSpace(s)|..]
    decreases |s|
  {
    if |s| > 0 && s[0] == ' ' {
      CutSpaceSuffix(s[1..]);
    }
  }

  /**
   * Every text ParseTime accepts has the shape ParseTimeReads reads: one or
   * two hour digits, a colon, two minute digits, at least one blank and
   * "AM" or "PM", with nothing before or after.
   */
  lemma ParseTimeShape(s: string)
    requires ParseTime(s).Some?
    ensures |s| >= 7 || (|s| >= 6 && !IsDigit(s[1]))
    ensures var h := if IsDigit(s[1]) then 2 else 1;
            var marker := s[|s| - 2..];
            && AllDigits(s[..h]) && IsDigit(s[h + 1]) && IsDigit(s[h + 2])
            && s == s[..h] + [':', s[h + 1], s[h + 2]] + Blanks(|s| - h - 5) + marker
            && |s| - h - 5 >= 1 && (marker == "AM" || marker == "PM")
  {
    var h := ParseTimeSteps(s);
    var tail := s[h + 3..];
    assert s == s[..h] + [':', s[h + 1], s[h + 2]] + tail;
    assert tail[|tail| - 2..] == s[|s| - 2..];
  }

  /** The hour digits, colon and minute digits ParseTime reads before the marker; the marker is accepted. */
  lemma ParseTimeSteps(s: string) returns (h: nat)
    requires ParseTime(s).Some?
    ensures |s| >= 2 && h == (if IsDigit(s[1]) then 2 else 1)
    ensures |s| >= h + 3 && AllDigits(s[..h]) && s[h] == ':' && IsDigit(s[h + 1]) && IsDigit(s[h + 2])
    ensures |s| >= h + 6 && s[h + 3..] == Blanks(|s| - h - 5) + s[|s| - 2..]
    ensures s[|s| - 2..] == "AM" || s[|s| - 2..] == "PM"
  {
    h := if IsDigit(s[1]) then 2 else 1;
    var hour := if h == 2 then 10 * DigitValue(s[0]) + DigitValue(s[1]) else DigitValue(s[0]);
    var rest := s[h..];
    var minute := 10 * DigitValue(rest[1]) + DigitValue(rest[2]);
    assert ParseMarker(hour, minute, rest[3..]).Some?;
    MarkerShape(hour, minute, rest[3..]);
    assert rest[3..] == s[h + 3..];
  }

  /** t.Format("150405"): the 24-hour hour, the minute and the second, two digits each. */
  function FormatTime(c: Clock): (r: string)
    ensures 0 <= c.hour < 100 && 0 <= c.minute < 100 ==>
              r == [DigitChar(c.hour / 10), DigitChar(c.hour % 10),
                    DigitChar(c.minute / 10), DigitChar(c.minute % 10), '0', '0']
  {
    PaddedTime(c);
    AppendInt(c.hour, 2) + AppendInt(c.minute, 2) + AppendInt(0, 2)
  }

  lemma PaddedTime(c: Clock)
    ensures 0 <= c.hour < 100 && 0 <= c.minute < 100 ==>
              AppendInt(c.hour, 2) + AppendInt(c.minute, 2) + AppendInt(0, 2)
              == [DigitChar(c.hour / 10), DigitChar(c.hour % 10),
                  DigitChar(c.minute / 10), DigitChar(c.minute % 10), '0', '0']
  {
    if 0 <= c.hour < 100 && 0 <= c.minute < 100 {
      TwoDigits(c.hour);
      TwoDigits(c.minute);
      TwoDigits(0);
    }
  }
}
