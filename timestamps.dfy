/**
  The timestamp of a line: `dateutil.parser.parse("%s %s" % (date, time),
  dayfirst=True)` as ParseLine calls it (whatsapp_archive.py:73-74, 79-80),
  for the date and time groups the line patterns capture.

  dateutil splits the date group at its marks into three numbers, settles
  which is the year, the month and the day (`resolve_ymd` with
  dayfirst=True), widens a two-digit year to the century that puts it
  within fifty years of the current one, reads `H:M` or `H:M:S` and an
  optional AM/PM, and builds a `datetime`, which raises ValueError for an
  impossible date. The current year is a parameter.
 */
module Timestamps {
  import opened Wrappers
  import opened Text
  import opened Shapes

  /** A naive `datetime.datetime`. */
  datatype DateTime = DateTime(year: int, month: int, day: int, hour: int, minute: int, second: int)

  predicate IsLeap(y: int) {
    y % 4 == 0 && (y % 100 != 0 || y % 400 == 0)
  }

  function DaysIn(y: int, m: int): int
    requires 1 <= m <= 12
  {
    if m == 2 then (if IsLeap(y) then 29 else 28)
    else if m == 4 || m == 6 || m == 9 || m == 11 then 30
    else 31
  }

  /** The values `datetime` accepts. */
  predicate Real(t: DateTime) {
    && 1 <= t.year <= 9999 && 1 <= t.month <= 12 && 1 <= t.day <= DaysIn(t.year, t.month)
    && 0 <= t.hour < 24 && 0 <= t.minute < 60 && 0 <= t.second < 60
  }

  function Pow10(n: nat): nat {
    if n == 0 then 1 else 10 * Pow10(n - 1)
  }

  /** `int(s)` for a string of decimal digits. */
  function Value(s: string): (v: nat)
    requires AllIn(s, Digits)
    ensures v < Pow10(|s|)
  {
    if |s| == 0 then 0
    else 10 * Value(s[..|s| - 1]) + (s[|s| - 1] as int - '0' as int)
  }

  /** Year, month and day, in the roles dateutil gives the three numbers of the date. */
  datatype Ymd = Ymd(year: nat, month: nat, day: nat)

  /**
    `resolve_ymd` with dayfirst=True and yearfirst=False for three numbers
    `a`, `b`, `c` in the order they were written; `yearAt` is the position of
    the number written with more than two digits, if any.
   */
  function Resolve(a: nat, b: nat, c: nat, yearAt: Option<nat>): (r: Ymd)
    ensures multiset{r.year, r.month, r.day} == multiset{a, b, c}
  {
    if a > 31 || yearAt == Some(0) then
      if c <= 12 then Ymd(a, c, b) else Ymd(a, b, c)
    else if a > 12 || b <= 12 then Ymd(c, b, a)
    else Ymd(c, a, b)
  }

  /**
    `convertyear`: a year written with at most two digits (no number of the
    date had more) is put in the century that brings it within fifty years
    of `thisYear`; any other year is taken as written.
   */
  function ConvertYear(y: nat, centurySpecified: bool, thisYear: int): (r: int)
    ensures y < 100 && !centurySpecified ==> thisYear - 50 <= r < thisYear + 50 && r % 100 == y
    ensures y >= 100 || centurySpecified ==> r == y
  {
    if y < 100 && !centurySpecified then
      var c := thisYear / 100 * 100 + y;
      if c >= thisYear + 50 then c - 100
      else if c < thisYear - 50 then c + 100
      else c
    else y
  }

  /** `_adjust_ampm` after `_ampm_valid`: the 24-hour hour of a 12-hour clock reading, or nothing above 12. */
  function Hour(h: nat, meridiem: string): (r: Option<nat>)
    requires meridiem == "" || IsMeridiem(meridiem)
    ensures meridiem == "" ==> r == Some(h)
    ensures meridiem != "" ==> (r.Some? <==> h <= 12)
    ensures meridiem != "" && r.Some? ==> r.value < 24 && r.value % 12 == h % 12 && (r.value >= 12 <==> meridiem == " PM")
  {
    if meridiem == "" then Some(h)
    else if h > 12 then None
    else if meridiem == " PM" && h < 12 then Some(h + 12)
    else if meridiem == " AM" && h == 12 then Some(0)
    else Some(h)
  }

  /** The hours, minutes and (possibly empty) seconds of an `H:M` or `H:M:S` clock. */
  function ClockFields(c: string): Option<(string, string, string)> {
    var i := Run(c, Digits);
    if i == 0 || i == |c| || c[i] != ':' then None
    else
      var u := c[i + 1..];
      var j := Run(u, Digits);
      if j == 0 then None
      else if j == |u| then Some((c[..i], u, ""))
      else if u[j] != ':' then None
      else
        var v := u[j + 1..];
        if Run(v, Digits) == |v| && |v| > 0 then Some((c[..i], u[..j], v)) else None
  }

  /** The clock text of hours, minutes and seconds. */
  function ClockText(h: string, m: string, s: string): string {
    h + ([':'] + (m + (if s == "" then "" else [':'] + s)))
  }

  /**
    A first number of the date or an hour written with 6, 8, 12 or 14
    digits, which dateutil reads as packed YYMMDD or HHMMSS forms.
   */
  predicate Packed(s: string) {
    |s| == 6 || |s| == 8 || |s| == 12 || |s| == 14
  }

  /** The positions of the date's numbers written with more than two digits. */
  function LongFields(d: Date): seq<nat> {
    (if |d.first| > 2 then [0] else []) + (if |d.second| > 2 then [1] else []) + (if |d.third| > 2 then [2] else [])
  }

  /**
    The timestamp of a line with date group `d` and time group
    `clock + meridiem`, or None where dateutil raises ValueError.
   */
  function Combine(d: Date, clock: string, meridiem: string, thisYear: int): (r: Option<DateTime>)
    requires ValidDate(d) && (meridiem == "" || IsMeridiem(meridiem))
    ensures r.Some? ==> Real(r.value)
  {
    match ClockFields(clock)
    case None => None
    case Some((h, m, s)) =>
      ClockFieldsSound(clock, h, m, s);
      FromFields(d, h, m, s, meridiem, thisYear)
  }

  /** The timestamp of date `d` and a clock with hours `h`, minutes `m` and (possibly empty) seconds `s`. */
  function FromFields(d: Date, h: string, m: string, s: string, meridiem: string, thisYear: int): (r: Option<DateTime>)
    requires ValidDate(d) && DigitRun(h) && DigitRun(m) && AllIn(s, Digits) && (meridiem == "" || IsMeridiem(meridiem))
    ensures r.Some? ==> Real(r.value)
  {
    var long := LongFields(d);
    if Packed(d.first) || Packed(h) || |long| > 1 then None
    else
      var ymd := Resolve(Value(d.first), Value(d.second), Value(d.third), if |long| == 1 then Some(long[0]) else None);
      match Hour(Value(h), meridiem)
      case None => None
      case Some(hour) =>
        var t := DateTime(ConvertYear(ymd.year, |long| == 1, thisYear), ymd.month, ymd.day,
                          hour, Value(m), if s == "" then 0 else Value(s));
        if Real(t) then Some(t) else None
  }

  // ---------------------------------------------------------------------
  // The clock.
  // ---------------------------------------------------------------------

  /** What ClockFields answers are digit runs that give back the clock. */
  lemma ClockFieldsSound(c: string, h: string, m: string, s: string)
    requires ClockFields(c) == Some((h, m, s))
    ensures DigitRun(h) && DigitRun(m) && AllIn(s, Digits)
    ensures ClockText(h, m, s) == c
  {
    var i := Run(c, Digits);
    var u := c[i + 1..];
    var j := Run(u, Digits);
    RunText(c, Digits);
    RunText(u, Digits);
    Around(c, i);
    if j < |u| {
      var v := u[j + 1..];
      RunText(v, Digits);
      assert v[..Run(v, Digits)] == v;
      Around(u, j);
    } else {
      assert u[..j] == u;
    }
  }

  /** ClockFields reads back the fields of any `H:M` or `H:M:S` clock. */
  lemma ClockFieldsComplete(h: string, m: string, s: string)
    requires DigitRun(h) && DigitRun(m) && AllIn(s, Digits)
    ensures ClockFields(ClockText(h, m, s)) == Some((h, m, s))
  {
    var c := ClockText(h, m, s);
    var tail := if s == "" then "" else [':'] + s;
    RunStops(h, [':'] + (m + tail), Digits);
    DropPast(h, ':', m + tail);
    assert c[..|h|] == h;
    var u := c[|h| + 1..];
    assert u == m + tail;
    if s == "" {
      assert m + tail == m;
      RunStops(m, [], Digits);
    } else {
      RunStops(m, tail, Digits);
      DropPast(m, ':', s);
      assert u[..|m|] == m;
      RunStops(s, [], Digits);
      assert s + [] == s;
    }
  }

  // ---------------------------------------------------------------------
  // Day-first reading of the date.
  // ---------------------------------------------------------------------

  /** All three numbers of the date are written with one or two digits. */
  predicate Short(d: Date) {
    |d.first| <= 2 && |d.second| <= 2 && |d.third| <= 2
  }

  /**
    With two-digit numbers, the date reads day, month, year whenever that
    can be a date at all (the first number at most 31) and the first is
    above 12 or the second at most 12; the year lands within fifty years
    of the current one.
   */
  lemma DayFirst(d: Date, clock: string, meridiem: string, thisYear: int)
    requires ValidDate(d) && (meridiem == "" || IsMeridiem(meridiem)) && Short(d)
    requires Value(d.first) <= 31 && (Value(d.first) > 12 || Value(d.second) <= 12)
    requires Combine(d, clock, meridiem, thisYear).Some?
    ensures var t := Combine(d, clock, meridiem, thisYear).value;
      && t.day == Value(d.first) && t.month == Value(d.second)
      && thisYear - 50 <= t.year < thisYear + 50 && t.year % 100 == Value(d.third)
  {
    assert LongFields(d) == [];
  }

  /**
    A date with a year of more than two digits written last reads day,
    month, year under the same condition, and keeps the year as written.
   */
  lemma DayFirstLongYear(d: Date, clock: string, meridiem: string, thisYear: int)
    requires ValidDate(d) && (meridiem == "" || IsMeridiem(meridiem))
    requires |d.first| <= 2 && |d.second| <= 2 && |d.third| > 2
    requires Value(d.first) <= 31 && (Value(d.first) > 12 || Value(d.second) <= 12)
    requires Combine(d, clock, meridiem, thisYear).Some?
    ensures var t := Combine(d, clock, meridiem, thisYear).value;
      t.day == Value(d.first) && t.month == Value(d.second) && t.year == Value(d.third)
  {
    assert LongFields(d) == [2];
  }

  /** Only when the second number cannot be a month does a two-digit date fall back to month, day, year. */
  lemma MonthFirstFallback(d: Date, clock: string, meridiem: string, thisYear: int)
    requires ValidDate(d) && (meridiem == "" || IsMeridiem(meridiem)) && Short(d)
    requires Value(d.first) <= 12 && Value(d.second) > 12
    requires Combine(d, clock, meridiem, thisYear).Some?
    ensures var t := Combine(d, clock, meridiem, thisYear).value;
      t.month == Value(d.first) && t.day == Value(d.second)
  {
    assert LongFields(d) == [];
  }

  /**
    A date written year first with a four-digit year keeps that year, and
    day-first still applies to the two numbers after it: the third number
    is the month whenever it can be one.
   */
  lemma YearFirst(d: Date, clock: string, meridiem: string, thisYear: int)
    requires ValidDate(d) && (meridiem == "" || IsMeridiem(meridiem))
    requires |d.first| == 4 && |d.second| <= 2 && |d.third| <= 2
    requires Combine(d, clock, meridiem, thisYear).Some?
    ensures var t := Combine(d, clock, meridiem, thisYear).value;
      && t.year == Value(d.first)
      && (if Value(d.third) <= 12 then t.month == Value(d.third) && t.day == Value(d.second)
          else t.month == Value(d.second) && t.day == Value(d.third))
  {
    assert LongFields(d) == [0];
  }

  /** The timestamp of an `H:M` or `H:M:S` clock is the one of its fields. */
  lemma CombineFields(d: Date, h: string, m: string, s: string, meridiem: string, thisYear: int)
    requires ValidDate(d) && DigitRun(h) && DigitRun(m) && AllIn(s, Digits) && (meridiem == "" || IsMeridiem(meridiem))
    ensures Combine(d, ClockText(h, m, s), meridiem, thisYear) == FromFields(d, h, m, s, meridiem, thisYear)
  {
    ClockFieldsComplete(h, m, s);
  }

  /**
    With two-digit numbers and a plain clock, a timestamp exists exactly when
    the numbers, in the roles resolve_ymd gives them, make a real date and time.
   */
  lemma FromFieldsShort(d: Date, h: string, m: string, s: string, thisYear: int)
    requires ValidDate(d) && Short(d) && DigitRun(h) && DigitRun(m) && AllIn(s, Digits) && !Packed(h)
    ensures var ymd := Resolve(Value(d.first), Value(d.second), Value(d.third), None);
      var t := DateTime(ConvertYear(ymd.year, false, thisYear), ymd.month, ymd.day,
                        Value(h), Value(m), if s == "" then 0 else Value(s));
      FromFields(d, h, m, s, "", thisYear) == if Real(t) then Some(t) else None
  {
    assert LongFields(d) == [];
  }

  // ---------------------------------------------------------------------
  // The timestamps of the test conversations.
  // ---------------------------------------------------------------------

  lemma Value1(x: char)
    requires IsDigit(x)
    ensures Value([x]) == x as int - '0' as int
  {
    assert [x][..0] == [];
  }

  lemma Value2(x: char, y: char)
    requires IsDigit(x) && IsDigit(y)
    ensures Value([x, y]) == 10 * (x as int - '0' as int) + (y as int - '0' as int)
  {
    assert [x, y][..1] == [x];
    Value1(x);
  }

  lemma Value4(w: char, x: char, y: char, z: char)
    requires IsDigit(w) && IsDigit(x) && IsDigit(y) && IsDigit(z)
    ensures Value([w, x, y, z]) == 1000 * (w as int - '0' as int) + 100 * (x as int - '0' as int) + Value([y, z])
  {
    assert [w, x, y, z][..3] == [w, x, y];
    assert [w, x, y][..2] == [w, x];
    assert [y, z][..1] == [y];
    Value2(w, x);
    Value1(y);
  }

  /** A two-digit date read day first in a year it widens to, with a plain clock. */
  lemma ShortStamp(d: Date, h: string, m: string, s: string, thisYear: int, year: int)
    requires ValidDate(d) && Short(d) && DigitRun(h) && DigitRun(m) && AllIn(s, Digits) && !Packed(h)
    requires Value(d.first) <= 31 && (Value(d.first) > 12 || Value(d.second) <= 12)
    requires ConvertYear(Value(d.third), false, thisYear) == year
    requires Real(DateTime(year, Value(d.second), Value(d.first), Value(h), Value(m), if s == "" then 0 else Value(s)))
    ensures FromFields(d, h, m, s, "", thisYear) == Some(DateTime(year, Value(d.second), Value(d.first), Value(h), Value(m), if s == "" then 0 else Value(s)))
  {
    FromFieldsShort(d, h, m, s, thisYear);
  }

  /** `13/01/18, 01:23` is 13 January 2018 for any current year from 1969 to 2068. */
  lemma DayMonthYear(thisYear: int)
    requires 1969 <= thisYear <= 2068
    ensures FromFields(Date("13", '/', "01", "18"), "01", "23", "", "", thisYear) == Some(DateTime(2018, 1, 13, 1, 23, 0))
  {
    Value2('1', '3');
    Value2('0', '1');
    Value2('1', '8');
    Value2('2', '3');
    ShortStamp(Date("13", '/', "01", "18"), "01", "23", "", thisYear, 2018);
  }

  /** `02-12-18 22:55:45` is 2 December 2018. */
  lemma DayMonthYearSeconds(thisYear: int)
    requires 1969 <= thisYear <= 2068
    ensures FromFields(Date("02", '-', "12", "18"), "22", "55", "45", "", thisYear) == Some(DateTime(2018, 12, 2, 22, 55, 45))
  {
    var d := Date("02", '-', "12", "18");
    Value2('0', '2');
    Value2('1', '2');
    Value2('1', '8');
    Value2('2', '2');
    Value2('5', '5');
    Value2('4', '5');
    ShortStamp(d, "22", "55", "45", thisYear, 2018);
  }

  /** `2016-06-27, 8:04:08 AM` is 27 June 2016, 08:04:08, whatever the current year. */
  lemma YearMonthDayMeridiem(thisYear: int)
    ensures FromFields(Date("2016", '-', "06", "27"), "8", "04", "08", " AM", thisYear) == Some(DateTime(2016, 6, 27, 8, 4, 8))
  {
    Value4('2', '0', '1', '6');
    Value2('0', '6');
    Value2('2', '7');
    Value1('8');
    Value2('0', '4');
    Value2('0', '8');
    assert LongFields(Date("2016", '-', "06", "27")) == [0];
  }

  /** With a day of at most 12, the same year-first date is read year, day, month. */
  lemma YearDayMonth(thisYear: int)
    ensures FromFields(Date("2016", '-', "06", "05"), "8", "04", "", "", thisYear) == Some(DateTime(2016, 5, 6, 8, 4, 0))
  {
    Value4('2', '0', '1', '6');
    Value2('0', '6');
    Value2('0', '5');
    Value1('8');
    Value2('0', '4');
    assert LongFields(Date("2016", '-', "06", "05")) == [0];
  }

  /** `13/01/2018 01:23` is 13 January 2018, whatever the current year. */
  lemma DayMonthLongYear(thisYear: int)
    ensures FromFields(Date("13", '/', "01", "2018"), "01", "23", "", "", thisYear) == Some(DateTime(2018, 1, 13, 1, 23, 0))
  {
    Value2('1', '3');
    Value2('0', '1');
    Value4('2', '0', '1', '8');
    Value2('2', '3');
    assert LongFields(Date("13", '/', "01", "2018")) == [2];
  }
}
