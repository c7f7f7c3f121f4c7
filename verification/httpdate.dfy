/** The `x-date` header value: `strftime("%a, %d %b %Y %H:%M:%S GMT")` of the
    UTC time, in the C locale (the IMF-fixdate layout of section 7.1.1.1 of
    RFC 7231), computed the way CPython's `datetime` computes the weekday. */
module HttpDate {
  import opened Wrappers
  import opened Decimal

  /** A UTC instant as `datetime.datetime.utcnow()` reports it, to the second. */
  datatype DateTime = DateTime(year: int, month: int, day: int, hour: int, minute: int, second: int)

  predicate IsLeap(y: int) {
    y % 4 == 0 && (y % 100 != 0 || y % 400 == 0)
  }

  function DaysInMonth(y: int, m: int): int
    requires 1 <= m <= 12
  {
    if m == 2 then (if IsLeap(y) then 29 else 28)
    else if m == 4 || m == 6 || m == 9 || m == 11 then 30
    else 31
  }

  /** The range `datetime` accepts. */
  predicate Valid(d: DateTime) {
    && 1 <= d.year <= 9999
    && 1 <= d.month <= 12
    && 1 <= d.day <= DaysInMonth(d.year, d.month)
    && 0 <= d.hour < 24 && 0 <= d.minute < 60 && 0 <= d.second < 60
  }

  /** Days in the years before `y` of the proleptic Gregorian calendar. */
  function DaysBeforeYear(y: int): int
    requires y >= 1
  {
    var p := y - 1;
    p * 365 + p / 4 - p / 100 + p / 400
  }

  /** Days in the months of year `y` before month `m`. */
  function DaysBeforeMonth(y: int, m: int): int
    requires 1 <= m <= 12
  {
    [0, 31, 59, 90, 120, 151, 181, 212, 243, 273, 304, 334][m - 1]
    + (if m > 2 && IsLeap(y) then 1 else 0)
  }

  /** `date.toordinal()`: 0001-01-01 is day 1. */
  function Ordinal(d: DateTime): int
    requires Valid(d)
  {
    DaysBeforeYear(d.year) + DaysBeforeMonth(d.year, d.month) + d.day
  }

  /** `date.weekday()`: Monday is 0 and Sunday is 6. */
  function Weekday(d: DateTime): (r: nat)
    requires Valid(d)
    ensures r < 7
  {
    (Ordinal(d) + 6) % 7
  }

  const DayNames: seq<string> := ["Mon", "Tue", "Wed", "Thu", "Fri", "Sat", "Sun"]
  const MonthNames: seq<string> :=
    ["Jan", "Feb", "Mar", "Apr", "May", "Jun", "Jul", "Aug", "Sep", "Oct", "Nov", "Dec"]

  /** `%a, %d %b ` : the fixed-width part before the year. */
  function FormatHead(d: DateTime): (r: string)
    requires Valid(d)
    ensures |r| == 12
  {
    assert |DayNames[Weekday(d)]| == 3;
    assert |MonthNames[d.month - 1]| == 3;
    DayNames[Weekday(d)] + ", " + TwoDigits(d.day) + " " + MonthNames[d.month - 1] + " "
  }

  /** ` %H:%M:%S GMT` : the fixed-width part after the year. */
  function FormatTail(d: DateTime): (r: string)
    requires Valid(d)
    ensures |r| == 13
  {
    " " + TwoDigits(d.hour) + ":" + TwoDigits(d.minute) + ":" + TwoDigits(d.second) + " GMT"
  }

  /** `%a, %d %b %Y %H:%M:%S GMT`. `%Y` is the year without padding, as the C
      library renders it. */
  function Format(d: DateTime): (r: string)
    requires Valid(d)
    ensures 1000 <= d.year ==> |r| == 29
  {
    assert 1000 <= d.year ==> |NatToString(d.year)| == 4 by {
      if 1000 <= d.year {
        FourDigitYear(d.year);
      }
    }
    FormatHead(d) + NatToString(d.year) + FormatTail(d)
  }

  lemma DigitsSingleLine(s: string)
    requires AllDigits(s)
    ensures '\n' !in s
  {
    forall i | 0 <= i < |s| ensures s[i] != '\n' {
      assert IsDigit(s[i]);
    }
  }

  lemma HeadSingleLine(d: DateTime)
    requires Valid(d)
    ensures '\n' !in FormatHead(d)
  {
    assert forall i :: 0 <= i < |DayNames| ==> '\n' !in DayNames[i];
    assert forall i :: 0 <= i < |MonthNames| ==> '\n' !in MonthNames[i];
    DigitsSingleLine(TwoDigits(d.day));
  }

  lemma TailSingleLine(d: DateTime)
    requires Valid(d)
    ensures '\n' !in FormatTail(d)
  {
    DigitsSingleLine(TwoDigits(d.hour));
    DigitsSingleLine(TwoDigits(d.minute));
    DigitsSingleLine(TwoDigits(d.second));
  }

  /** A formatted date is one line, so it can sit in one line of a signing string. */
  lemma FormatSingleLine(d: DateTime)
    requires Valid(d)
    ensures '\n' !in Format(d)
  {
    HeadSingleLine(d);
    DigitsSingleLine(NatToString(d.year));
    TailSingleLine(d);
  }

  // ---------------------------------------------------------------------------
  // The day after: the ordinal is a day counter

  /** The calendar day after `d`, same time of day. */
  function NextDay(d: DateTime): (r: DateTime)
    requires Valid(d)
  {
    if d.day < DaysInMonth(d.year, d.month) then d.(day := d.day + 1)
    else if d.month < 12 then d.(month := d.month + 1, day := 1)
    else d.(year := d.year + 1, month := 1, day := 1)
  }

  lemma DaysBeforeYearStep(y: int)
    requires y >= 1
    ensures DaysBeforeYear(y + 1) == DaysBeforeYear(y) + (if IsLeap(y) then 366 else 365)
  {
    var p := y - 1;
    assert y / 4 == p / 4 + (if y % 4 == 0 then 1 else 0);
    assert y / 100 == p / 100 + (if y % 100 == 0 then 1 else 0);
    assert y / 400 == p / 400 + (if y % 400 == 0 then 1 else 0);
    if y % 400 == 0 {
      assert y % 100 == 0 && y % 4 == 0;
    } else if y % 100 == 0 {
      assert y % 4 == 0;
    }
  }

  lemma DaysBeforeMonthStep(y: int, m: int)
    requires 1 <= m < 12
    ensures DaysBeforeMonth(y, m + 1) == DaysBeforeMonth(y, m) + DaysInMonth(y, m)
  {
  }

  lemma DaysBeforeYearEnd(y: int)
    requires y >= 1
    ensures DaysBeforeMonth(y, 12) + DaysInMonth(y, 12) == (if IsLeap(y) then 366 else 365)
  {
  }

  lemma NextDayOrdinalInYear(d: DateTime)
    requires Valid(d) && Valid(NextDay(d)) && d.month < 12 && d.day == DaysInMonth(d.year, d.month)
    ensures Ordinal(NextDay(d)) == Ordinal(d) + 1
  {
    DaysBeforeMonthStep(d.year, d.month);
  }

  lemma NextDayOrdinalNewYear(d: DateTime)
    requires Valid(d) && Valid(NextDay(d)) && d.month == 12 && d.day == DaysInMonth(d.year, d.month)
    ensures Ordinal(NextDay(d)) == Ordinal(d) + 1
  {
    DaysBeforeYearStep(d.year);
    DaysBeforeYearEnd(d.year);
    assert Ordinal(NextDay(d)) == DaysBeforeYear(d.year + 1) + 1;
  }

  lemma WeekdayStep(n: int)
    ensures (n + 1 + 6) % 7 == ((n + 6) % 7 + 1) % 7
  {
  }

  /** The day after has the next ordinal, so weekdays cycle Monday to Sunday
      without gaps across month and year ends. */
  lemma NextDayOrdinal(d: DateTime)
    requires Valid(d) && Valid(NextDay(d))
    ensures Ordinal(NextDay(d)) == Ordinal(d) + 1
    ensures Weekday(NextDay(d)) == (Weekday(d) + 1) % 7
  {
    if d.day == DaysInMonth(d.year, d.month) {
      if d.month < 12 {
        NextDayOrdinalInYear(d);
      } else {
        NextDayOrdinalNewYear(d);
      }
    }
    WeekdayStep(Ordinal(d));
  }

  // ---------------------------------------------------------------------------
  // Reading the header back

  function IndexIn(names: seq<string>, s: string): (r: Option<nat>)
    ensures r.Some? ==> r.value < |names| && names[r.value] == s
    ensures r.None? ==> s !in names
    decreases |names|
  {
    if |names| == 0 then None
    else if names[0] == s then Some(0)
    else match IndexIn(names[1..], s)
         case None => None
         case Some(i) => Some(i + 1)
  }

  function TwoDigitField(s: string): Option<nat>
    requires |s| == 2
  {
    if AllDigits(s) then Some(Value(s)) else None
  }

  /** The fixed separators of the layout, with the year between them. */
  predicate HasLayout(s: string)
    requires |s| >= 26
  {
    && s[3..5] == ", " && s[7..8] == " " && s[11..12] == " " && s[|s| - 13..|s| - 12] == " "
    && s[|s| - 10..|s| - 9] == ":" && s[|s| - 7..|s| - 6] == ":" && s[|s| - 4..] == " GMT"
    && AllDigits(s[12..|s| - 13]) && s[12] != '0'
  }

  function ReadFields(s: string): Option<DateTime>
    requires |s| >= 26 && HasLayout(s)
  {
    var w :- IndexIn(DayNames, s[..3]);
    var m :- IndexIn(MonthNames, s[8..11]);
    var day :- TwoDigitField(s[5..7]);
    var hh :- TwoDigitField(s[|s| - 12..|s| - 10]);
    var mm :- TwoDigitField(s[|s| - 9..|s| - 7]);
    var ss :- TwoDigitField(s[|s| - 6..|s| - 4]);
    var d := DateTime(Value(s[12..|s| - 13]), m + 1, day, hh, mm, ss);
    if Valid(d) && Weekday(d) == w then Some(d) else None
  }

  /** Reads a header written by `Format`; `None` if the text is not laid out
      that way, names a date `datetime` rejects, or gives the wrong weekday. */
  function Parse(s: string): Option<DateTime> {
    if |s| < 26 || !HasLayout(s) then None else ReadFields(s)
  }

  lemma IndexInDistinct(names: seq<string>, i: nat)
    requires i < |names|
    requires forall a, b :: 0 <= a < b < |names| ==> names[a] != names[b]
    ensures IndexIn(names, names[i]) == Some(i)
    decreases |names|
  {
    if i > 0 {
      IndexInDistinct(names[1..], i - 1);
    }
  }

  lemma HeadLayout(d: DateTime)
    requires Valid(d)
    ensures var h := FormatHead(d);
      && h[..3] == DayNames[Weekday(d)] && h[3..5] == ", " && h[5..7] == TwoDigits(d.day)
      && h[7..8] == " " && h[8..11] == MonthNames[d.month - 1] && h[11..12] == " "
  {
    assert |DayNames[Weekday(d)]| == 3;
    assert |MonthNames[d.month - 1]| == 3;
  }

  lemma TailLayout(d: DateTime)
    requires Valid(d)
    ensures var t := FormatTail(d);
      && t[..1] == " " && t[1..3] == TwoDigits(d.hour) && t[3..4] == ":"
      && t[4..6] == TwoDigits(d.minute) && t[6..7] == ":"
      && t[7..9] == TwoDigits(d.second) && t[9..] == " GMT"
  {
  }

  /** Where each field of a formatted date sits. */
  lemma FormatLayout(d: DateTime)
    requires Valid(d)
    ensures var s := Format(d);
      && |s| >= 26
      && s[..3] == DayNames[Weekday(d)] && s[3..5] == ", " && s[5..7] == TwoDigits(d.day)
      && s[7..8] == " " && s[8..11] == MonthNames[d.month - 1] && s[11..12] == " "
      && s[12..|s| - 13] == NatToString(d.year) && s[|s| - 13..|s| - 12] == " "
      && s[|s| - 12..|s| - 10] == TwoDigits(d.hour) && s[|s| - 10..|s| - 9] == ":"
      && s[|s| - 9..|s| - 7] == TwoDigits(d.minute) && s[|s| - 7..|s| - 6] == ":"
      && s[|s| - 6..|s| - 4] == TwoDigits(d.second) && s[|s| - 4..] == " GMT"
  {
    var s := Format(d);
    var head, y, tail := FormatHead(d), NatToString(d.year), FormatTail(d);
    HeadLayout(d);
    TailLayout(d);
    assert s[..12] == head;
    assert s[12..|s| - 13] == y;
    assert s[|s| - 13..] == tail;
    assert forall i, j :: 0 <= i <= j <= 12 ==> s[i..j] == head[i..j];
    assert forall i, j :: 0 <= i <= j <= 13 ==> s[|s| - 13 + i..|s| - 13 + j] == tail[i..j];
  }

  /** Reading back a formatted date gives the date. */
  lemma ParseFormat(d: DateTime)
    requires Valid(d)
    ensures Parse(Format(d)) == Some(d)
  {
    var s := Format(d);
    FormatLayout(d);
    assert HasLayout(s);
    IndexInDistinct(DayNames, Weekday(d));
    IndexInDistinct(MonthNames, d.month - 1);
    assert ReadFields(s) == Some(d);
  }

  // ---------------------------------------------------------------------------
  // The reference layout `Mon, 02 Jan 2006 15:04:05 GMT`

  lemma ReferenceDateWeekday()
    ensures Weekday(DateTime(2006, 1, 2, 15, 4, 5)) == 0
  {
    assert DaysBeforeYear(2006) == 732311;
  }

  lemma ReferenceDateYear()
    ensures NatToString(2006) == "2006"
  {
    assert NatToString(2) == "2";
    assert NatToString(20) == "20";
    assert NatToString(200) == "200";
  }

  lemma ReferenceDateDigits()
    ensures TwoDigits(2) == "02" && TwoDigits(15) == "15" && TwoDigits(4) == "04" && TwoDigits(5) == "05"
  {
  }

  lemma ReferenceDateFormat()
    ensures Format(DateTime(2006, 1, 2, 15, 4, 5)) == "Mon, 02 Jan 2006 15:04:05 GMT"
  {
    var d := DateTime(2006, 1, 2, 15, 4, 5);
    ReferenceDateWeekday();
    ReferenceDateYear();
    ReferenceDateDigits();
    assert FormatHead(d) == "Mon, 02 Jan ";
    assert FormatTail(d) == " 15:04:05 GMT";
  }
}
