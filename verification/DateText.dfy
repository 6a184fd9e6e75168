/** `date822fmt` writes a date as text and `date2yyyymm` reads the year and month back. */
module DateText {
  import opened Ascii
  import opened Calendar
  import opened Decimal
  import opened DatetimeTai

  const MONTHS: seq<string> :=
    ["Jan", "Feb", "Mar", "Apr", "May", "Jun", "Jul", "Aug", "Sep", "Oct", "Nov", "Dec"]

  const DATE822FMT: nat := 60

  /** The date line, field by field. */
  function Text(d: Date, hour: nat, min: nat, sec: nat): string
    requires d.mday >= 0 && 0 <= d.mon < 12 && d.year >= 0
  {
    Digits(d.mday) + " " + MONTHS[d.mon] + " " + Digits(d.year) + " " +
    Padded(hour, 2) + ":" + Padded(min, 2) + ":" + Padded(sec, 2) + " -0000\n"
  }

  /** The fields, found by where they stand: the day and the month's name in front, and hour, minute and second
      in two digits each before the zone. */
  lemma TextFields(d: Date, hour: nat, min: nat, sec: nat)
    requires 0 <= d.mday && 0 <= d.mon < 12 && d.year >= 0 && hour < 100 && min < 100 && sec < 100
    ensures var t := Text(d, hour, min, sec); var n, k := |t|, |Digits(d.mday)|;
            && n >= 15 + k
            && t[..k] == Digits(d.mday) && t[k..k + 5] == " " + MONTHS[d.mon] + " "
            && t[n - 15..] == Clock(hour, min, sec)
  {
    hide Digits, Padded, Clock;
    MonthNames(d.mon);
    var a, m, y, c := Digits(d.mday), " " + MONTHS[d.mon] + " ", Digits(d.year) + " ", Clock(hour, min, sec);
    ClockIs(hour, min, sec);
    var h, i, s := Padded(hour, 2), Padded(min, 2), Padded(sec, 2);
    Regroup(a + " " + MONTHS[d.mon] + " " + Digits(d.year) + " ", h, i, s);
    Regroup4(a, MONTHS[d.mon], Digits(d.year));
    Slices(a, m, y, c);
  }

  lemma ClockIs(hour: nat, min: nat, sec: nat)
    requires hour < 100 && min < 100 && sec < 100
    ensures Clock(hour, min, sec) == Padded(hour, 2) + ":" + Padded(min, 2) + ":" + Padded(sec, 2) + " -0000\n"
    ensures |Clock(hour, min, sec)| == 15
  {
    hide Padded;
    TwoDigits(hour);
    TwoDigits(min);
    TwoDigits(sec);
  }

  lemma Regroup(x: string, h: string, m: string, s: string)
    ensures x + h + ":" + m + ":" + s + " -0000\n" == x + (h + ":" + m + ":" + s + " -0000\n")
  {
  }

  lemma Regroup4(a: string, m: string, y: string)
    ensures a + " " + m + " " + y + " " == a + (" " + m + " ") + (y + " ")
  {
  }

  lemma Slices(a: string, b: string, rest: string, c: string)
    ensures var t := a + b + rest + c;
            && |t| == |a| + |b| + |rest| + |c|
            && t[..|a|] == a && t[|a|..|a| + |b|] == b && t[|t| - |c|..] == c
  {
  }

  /** The clock in the characters that are printed. */
  function Clock(hour: nat, min: nat, sec: nat): string
    requires hour < 100 && min < 100 && sec < 100
  {
    [DIGITS[hour / 10], DIGITS[hour % 10], ':', DIGITS[min / 10], DIGITS[min % 10], ':',
     DIGITS[sec / 10], DIGITS[sec % 10], ' ', '-', '0', '0', '0', '0', '\n']
  }

  /** The buffer holds `text` from its start, and what `before` held behind it. */
  ghost predicate Holds(s: array?<char>, at: nat, text: string, before: string)
    reads s
  {
    s != null ==> && |before| == s.Length && at == |text| <= s.Length
                  && s[..at] == text && s[at..] == before[at..]
  }

  /** One field of the line: `i = fmt_str(s,t); len += i; if (s) s += i;` */
  method PutStr(s: array?<char>, at: nat, len: nat, t: string, ghost text: string, ghost before: string)
    returns (at': nat, len': nat)
    requires Holds(s, at, text, before) && len == |text|
    requires s != null ==> |text| + |t| <= s.Length
    modifies s
    ensures Holds(s, at', text + t, before) && len' == |text + t|
  {
    var i := FmtStr(s, at, t);
    len', at' := len + i, if s != null then at + i else at;
  }

  method PutUint(s: array?<char>, at: nat, len: nat, u: nat, ghost text: string, ghost before: string)
    returns (at': nat, len': nat)
    requires Holds(s, at, text, before) && len == |text|
    requires s != null ==> |text| + |Digits(u)| <= s.Length
    modifies s
    ensures Holds(s, at', text + Digits(u), before) && len' == |text + Digits(u)|
  {
    var i := FmtUint(s, at, u);
    len', at' := len + i, if s != null then at + i else at;
  }

  method PutUint0(s: array?<char>, at: nat, len: nat, u: nat, ghost text: string, ghost before: string)
    returns (at': nat, len': nat)
    requires Holds(s, at, text, before) && len == |text|
    requires s != null ==> |text| + |Padded(u, 2)| <= s.Length
    modifies s
    ensures Holds(s, at', text + Padded(u, 2), before) && len' == |text + Padded(u, 2)|
  {
    var i := FmtUint0(s, at, u, 2);
    len', at' := len + i, if s != null then at + i else at;
  }

  /** A null buffer asks for the length only. */
  method Date822Fmt(s: array?<char>, dt: Datetime) returns (len: nat)
    requires dt.mday >= 0 && 0 <= dt.mon < 12 && dt.year as int + 1900 >= 0
    requires dt.hour >= 0 && dt.min >= 0 && dt.sec >= 0
    requires s != null ==> |Text(dt.CivilDate(), dt.hour as int, dt.min as int, dt.sec as int)| <= s.Length
    modifies s
    ensures len == |Text(dt.CivilDate(), dt.hour as int, dt.min as int, dt.sec as int)|
    ensures s != null ==>
              && s[..len] == Text(dt.CivilDate(), dt.hour as int, dt.min as int, dt.sec as int)
              && s[len..] == old(s[..])[len..]
  {
    ghost var before := if s != null then s[..] else [];
    var d, hour: nat, min: nat, sec: nat := dt.CivilDate(), dt.hour as int, dt.min as int, dt.sec as int;
    var at: nat;
    ghost var t0 := Digits(d.mday);
    ghost var t1 := t0 + " ";
    ghost var t2 := t1 + MONTHS[d.mon];
    ghost var t3 := t2 + " ";
    ghost var t4 := t3 + Digits(d.year);
    ghost var t5 := t4 + " ";
    ghost var t6 := t5 + Padded(hour, 2);
    ghost var t7 := t6 + ":";
    ghost var t8 := t7 + Padded(min, 2);
    ghost var t9 := t8 + ":";
    ghost var t10 := t9 + Padded(sec, 2);
    assert t10 + " -0000\n" == Text(d, hour, min, sec);
    at, len := 0, 0;
    at, len := PutUint(s, at, len, d.mday, "", before);
    assert "" + Digits(d.mday) == t0;
    at, len := PutStr(s, at, len, " ", t0, before);
    at, len := PutStr(s, at, len, MONTHS[d.mon], t1, before);
    at, len := PutStr(s, at, len, " ", t2, before);
    at, len := PutUint(s, at, len, d.year, t3, before);
    at, len := PutStr(s, at, len, " ", t4, before);
    at, len := PutUint0(s, at, len, hour, t5, before);
    at, len := PutStr(s, at, len, ":", t6, before);
    at, len := PutUint0(s, at, len, min, t7, before);
    at, len := PutStr(s, at, len, ":", t8, before);
    at, len := PutUint0(s, at, len, sec, t9, before);
    at, len := PutStr(s, at, len, " -0000\n", t10, before);
  }

  // ---- date2yyyymm ----

  function Upper(c: char): char {
    if 'a' <= c <= '\U{7f}' then c - 32 as char else c
  }

  /** The switch of lines 27-51; 0 when the three letters are no month. */
  function MonthNumber(c: char, c1: char, c2: char): nat {
    if c == 'J' then
      if c1 == 'A' && c2 == 'N' then 1
      else if c1 == 'U' then if c2 == 'N' then 6 else if c2 == 'L' then 7 else 0
      else 0
    else if c == 'F' then if c1 == 'E' && c2 == 'B' then 2 else 0
    else if c == 'A' then
      if c1 == 'P' && c2 == 'R' then 4 else if c1 == 'U' && c2 == 'G' then 8 else 0
    else if c == 'M' then
      if c1 != 'A' then 0 else if c2 == 'R' then 3 else if c2 == 'Y' then 5 else 0
    else if c == 'S' then if c1 == 'E' && c2 == 'P' then 9 else 0
    else if c == 'O' then if c1 == 'C' && c2 == 'T' then 10 else 0
    else if c == 'N' then if c1 == 'O' && c2 == 'V' then 11 else 0
    else if c == 'D' then if c1 == 'E' && c2 == 'C' then 12 else 0
    else 0
  }

  predicate SpaceOrDigit(c: char) {
    c == ' ' || IsDigit(c)
  }

  /** A month name in any case and a space. */
  ghost predicate MonthAt(s: string, p: nat, mo: nat)
  {
    && p + 3 < |s| && s[p + 3] == ' '
    && 1 <= mo <= 12 && mo == MonthNumber(Upper(s[p]), Upper(s[p + 1]), Upper(s[p + 2]))
  }

  /** The name is one of the twelve, each letter of either case. */
  lemma MonthIsNamed(s: string, p: nat, mo: nat)
    requires p + 3 < |s|
    ensures MonthAt(s, p, mo) <==> s[p + 3] == ' ' && 1 <= mo <= 12 && Named(s[p], s[p + 1], s[p + 2], MONTHS[mo - 1])
  {
    hide MonthAt;
    if MonthNumber(Upper(s[p]), Upper(s[p + 1]), Upper(s[p + 2])) != 0 {
      NumberIsNamed(s[p], s[p + 1], s[p + 2]);
    }
    if 1 <= mo <= 12 && Named(s[p], s[p + 1], s[p + 2], MONTHS[mo - 1]) {
      NameIsNumbered(s[p], s[p + 1], s[p + 2], mo);
    }
    MonthAtIs(s, p, mo);
  }

  predicate Named(c: char, c1: char, c2: char, name: string) {
    && |name| == 3
    && (c == name[0] || c as int == name[0] as int + 32)
    && (c1 == name[1] || c1 as int == name[1] as int - 32)
    && (c2 == name[2] || c2 as int == name[2] as int - 32)
  }

  lemma MonthAtIs(s: string, p: nat, mo: nat)
    requires p + 3 < |s|
    ensures MonthAt(s, p, mo)
            <==> s[p + 3] == ' ' && 1 <= mo <= 12 && mo == MonthNumber(Upper(s[p]), Upper(s[p + 1]), Upper(s[p + 2]))
  {
    hide MonthNumber;
  }

  lemma NumberIsNamed(c: char, c1: char, c2: char)
    ensures var mo := MonthNumber(Upper(c), Upper(c1), Upper(c2));
            mo != 0 ==> 1 <= mo <= 12 && Named(c, c1, c2, MONTHS[mo - 1])
  {
  }

  lemma NameIsNumbered(c: char, c1: char, c2: char, mo: nat)
    requires 1 <= mo <= 12 && Named(c, c1, c2, MONTHS[mo - 1])
    ensures MonthNumber(Upper(c), Upper(c1), Upper(c2)) == mo
  {
  }

  /** A line that carries a date: spaces and digits, a month name in any case, a space and a year. */
  ghost predicate DateShape(s: string, p: nat, mo: nat, year: string)
  {
    && p + 4 + |year| < |s|
    && (forall i :: 0 <= i < p ==> SpaceOrDigit(s[i]))
    && MonthAt(s, p, mo)
    && s[p + 4..p + 4 + |year|] == year && AllDigits(year) && !IsDigit(s[p + 4 + |year|])
  }

  const TWO32: nat := 0x1_0000_0000

  lemma MonthLetters(c: char, c1: char, c2: char)
    requires MonthNumber(Upper(c), Upper(c1), Upper(c2)) != 0
    ensures !SpaceOrDigit(c) && c != '\0' && c1 != '\0' && c2 != '\0'
  {
  }

  /** Where the month name starts and how long the year is follow from the line alone. */
  lemma DateShapeUnique(s: string, p: nat, mo: nat, year: string, p': nat, mo': nat, year': string)
    requires DateShape(s, p, mo, year) && DateShape(s, p', mo', year')
    ensures p == p' && mo == mo' && year == year'
  {
    MonthLetters(s[p], s[p + 1], s[p + 2]);
    MonthLetters(s[p'], s[p' + 1], s[p' + 2]);
    RunIs(s, p + 4, year);
    RunIs(s, p' + 4, year');
  }

  /** Lines 20-53: the month at `from`, or 0. */
  method ReadMonth(s: string, from: nat, ghost nul: nat) returns (mo: nat)
    requires from <= nul < |s| && s[nul] == '\0'
    ensures mo != 0 ==> MonthAt(s, from, mo) && from + 4 <= nul
    ensures mo == 0 ==> forall m: nat :: !MonthAt(s, from, m)
  {
    var i := from;
    var ch := s[i];
    i := i + 1;
    if ch == '\0' { return 0; }
    ch := Upper(ch);
    var ch1 := s[i];
    i := i + 1;
    if ch1 == '\0' { return 0; }
    ch1 := Upper(ch1);
    var ch2 := s[i];
    i := i + 1;
    if ch2 == '\0' { return 0; }
    ch2 := Upper(ch2);
    mo := MonthNumber(ch, ch1, ch2);
    if mo == 0 || s[i] != ' ' { return 0; }
  }

  /** Lines 54-63: the year's digits in an unsigned int, up to the first other character. */
  method ReadYear(s: string, from: nat, ghost nul: nat) returns (y: nat, i: nat)
    requires from <= nul < |s| && s[nul] == '\0'
    ensures from <= i <= nul && AllDigits(s[from..i]) && !IsDigit(s[i])
    ensures y == Value(s[from..i]) % TWO32
  {
    y, i := 0, from;
    while IsDigit(s[i])
      invariant from <= i <= nul && AllDigits(s[from..i]) && y == Value(s[from..i]) % TWO32
      decreases nul - i
    {
      ExtendRun(s, from, i);
      AccumulateWraps(Value(s[from..i]), DigitValue(s[i]), TWO32);
      y := Accumulate(y, DigitValue(s[i]), TWO32);
      i := i + 1;
    }
  }

  /** Lines 15-18: what may be a day. */
  method SkipDay(s: string, ghost nul: nat) returns (i: nat)
    requires nul < |s| && s[nul] == '\0'
    ensures i <= nul && !SpaceOrDigit(s[i]) && forall k :: 0 <= k < i ==> SpaceOrDigit(s[k])
  {
    i := 0;
    while SpaceOrDigit(s[i])
      invariant i <= nul && forall k :: 0 <= k < i ==> SpaceOrDigit(s[k])
      decreases nul - i
    {
      i := i + 1;
    }
  }

  lemma OnlyPlace(s: string, p0: nat, p: nat, mo: nat, year: string)
    requires p0 < |s| && !SpaceOrDigit(s[p0]) && forall k :: 0 <= k < p0 ==> SpaceOrDigit(s[k])
    requires DateShape(s, p, mo, year)
    ensures p == p0 && MonthAt(s, p0, mo)
  {
    MonthLetters(s[p], s[p + 1], s[p + 2]);
  }

  lemma OnlyReading(s: string, p0: nat, mo: nat, digits: string)
    requires DateShape(s, p0, mo, digits)
    ensures forall p: nat, mo': nat, year: string :: DateShape(s, p, mo', year) ==> mo' == mo && year == digits
  {
    hide DateShape;
    forall p: nat, mo': nat, year: string | DateShape(s, p, mo', year) ensures mo' == mo && year == digits {
      DateShapeUnique(s, p, mo', year, p0, mo, digits);
    }
  }

  lemma ShapeRead(s: string, p: nat, mo: nat, end: nat)
    requires p + 4 <= end < |s| && MonthAt(s, p, mo) && mo != 0 && AllDigits(s[p + 4..end]) && !IsDigit(s[end])
    requires forall k :: 0 <= k < p ==> SpaceOrDigit(s[k])
    ensures DateShape(s, p, mo, s[p + 4..end])
  {
    hide MonthNumber;
  }

  /** Accepts exactly the lines of `DateShape` whose year is not zero modulo 2^32, and returns
      yyyymm for them and 0 for every other line. The line ends with a NUL. */
  method Date2Yyyymm(s: string) returns (r: nat)
    requires '\0' in s
    ensures forall p: nat, mo: nat, year: string :: DateShape(s, p, mo, year) && Value(year) % TWO32 != 0
              ==> r == (Value(year) * 100 + mo) % TWO32
    ensures r != 0 ==> exists p: nat, mo: nat, year: string :: DateShape(s, p, mo, year) && Value(year) % TWO32 != 0
  {
    hide DateShape, MonthAt, Value, AllDigits, SpaceOrDigit, IsDigit;
    ghost var nul :| 0 <= nul < |s| && s[nul] == '\0';
    var i := SkipDay(s, nul);
    ghost var p0 := i;
    forall p: nat, mo: nat, year: string | DateShape(s, p, mo, year) ensures p == p0 && MonthAt(s, p0, mo) {
      OnlyPlace(s, p0, p, mo, year);
    }
    var mo := ReadMonth(s, i, nul);
    if mo == 0 { return 0; }
    var y;
    y, i := ReadYear(s, i + 4, nul);
    ghost var digits := s[p0 + 4..i];
    ShapeRead(s, p0, mo, i);
    OnlyReading(s, p0, mo, digits);
    if y == 0 { return 0; }
    r := (y * 100 + mo) % TWO32;
    Calendar.ScaleWraps(Value(digits), 100, mo, TWO32);
  }

  lemma MonthNames(mon: nat)
    requires mon < 12
    ensures |MONTHS[mon]| == 3
    ensures MonthNumber(Upper(MONTHS[mon][0]), Upper(MONTHS[mon][1]), Upper(MONTHS[mon][2])) == mon + 1
  {
  }

  lemma TextParts(d: Date, hour: nat, min: nat, sec: nat, rest: string) returns (tail: string)
    requires d.mday >= 0 && 0 <= d.mon < 12 && d.year >= 0
    ensures tail != [] && tail[0] == ' '
    ensures Text(d, hour, min, sec) + rest
            == Digits(d.mday) + " " + MONTHS[d.mon] + " " + Digits(d.year) + tail
  {
    tail := " " + Padded(hour, 2) + ":" + Padded(min, 2) + ":" + Padded(sec, 2) + " -0000\n" + rest;
  }

  lemma PartsHaveDateShape(day: string, name: string, mo: nat, year: string, tail: string)
    requires AllDigits(day) && AllDigits(year) && |name| == 3 && 1 <= mo <= 12
    requires mo == MonthNumber(Upper(name[0]), Upper(name[1]), Upper(name[2]))
    requires tail != [] && tail[0] == ' '
    ensures DateShape(day + " " + name + " " + year + tail, |day| + 1, mo, year)
  {
    var s := day + " " + name + " " + year + tail;
    var p := |day| + 1;
    forall i | 0 <= i < p ensures SpaceOrDigit(s[i]) {
      assert i < |day| ==> s[i] == day[i];
    }
    assert s[p..p + 3] == name;
    assert s[p] == name[0] && s[p + 1] == name[1] && s[p + 2] == name[2] && s[p + 3] == ' ';
    assert s[p + 4..p + 4 + |year|] == year;
  }

  /** The text of any date has the shape that `Date2Yyyymm` accepts, with that year and month. */
  lemma TextHasDateShape(d: Date, hour: nat, min: nat, sec: nat, rest: string)
    requires d.mday >= 0 && 0 <= d.mon < 12 && d.year >= 0
    ensures DateShape(Text(d, hour, min, sec) + rest, |Digits(d.mday)| + 1, d.mon + 1, Digits(d.year))
  {
    DigitsValue(d.mday);
    DigitsValue(d.year);
    MonthNames(d.mon);
    var tail := TextParts(d, hour, min, sec, rest);
    PartsHaveDateShape(Digits(d.mday), MONTHS[d.mon], d.mon + 1, Digits(d.year), tail);
  }

  lemma YearBound(d: Date)
    requires Valid(d) && DayNumber(d) <= INT_MAX
    ensures d.year < 10_000_000
  {
    YearsClosedForm(d.year);
    OrdinalInYear(d);
  }

  lemma TextLength(d: Date, hour: nat, min: nat, sec: nat)
    requires 0 <= d.mday < 100 && 0 <= d.mon < 12 && 0 <= d.year < 10_000_000
    requires hour < 24 && min < 60 && sec < 60
    ensures |Text(d, hour, min, sec)| <= 30 <= DATE822FMT
  {
    assert Power10(2) == 100;
    assert Power10(7) == 10_000_000 by {
      assert Power10(4) == 10_000;
    }
    MonthNames(d.mon);
    DigitsLength(d.mday, 2);
    DigitsLength(d.year, 7);
    DigitsLength(hour, 2);
    DigitsLength(min, 2);
    DigitsLength(sec, 2);
  }

  lemma DateInRange(t: nat)
    requires t / 86400 <= INT_MAX - 4
    ensures var d := NthDay(t / 86400);
            Valid(d) && d.mday < 100 && d.year < 10_000_000 && d.year * 100 + d.mon + 1 < TWO32
  {
    NthDayNumber(t / 86400);
    YearBound(NthDay(t / 86400));
  }

  /** For every second in range: the line fits its buffer, and reading it back gives year and month. */
  lemma DateLineRoundTrip(t: nat, hour: nat, min: nat, sec: nat, rest: string)
    requires t / 86400 <= INT_MAX - 4
    requires hour < 24 && min < 60 && sec < 60
    ensures var d := NthDay(t / 86400);
            && Valid(d) && |Text(d, hour, min, sec)| <= 30 <= DATE822FMT
            && DateShape(Text(d, hour, min, sec) + rest, |Digits(d.mday)| + 1, d.mon + 1, Digits(d.year))
            && Value(Digits(d.year)) == d.year
  {
    DateInRange(t);
    var d := NthDay(t / 86400);
    TextHasDateShape(d, hour, min, sec, rest);
    TextLength(d, hour, min, sec);
    DigitsValue(d.year);
  }

  method ReadBack(line: string, ghost p: nat, ghost mo: nat, ghost year: string) returns (r: nat)
    requires '\0' in line && DateShape(line, p, mo, year)
    requires Value(year) > 0 && Value(year) * 100 + mo < TWO32
    ensures r == Value(year) * 100 + mo
  {
    r := Date2Yyyymm(line);
  }

  /** `date2yyyymm` of the line that `date822fmt` writes, on a buffer of the size its callers use. */
  method YyyymmOfTime(dt: Datetime, t: nat) returns (r: nat)
    requires t / 86400 <= INT_MAX - 4 && dt.Denotes(t)
    ensures var d := NthDay(t / 86400); r == d.year * 100 + d.mon + 1
  {
    ghost var d := dt.CivilDate();
    DateInRange(t);
    DateLineRoundTrip(t, dt.hour as int, dt.min as int, dt.sec as int, ['\0']);
    var date := new char[DATE822FMT];
    var len := Date822Fmt(date, dt);
    var line := date[..len] + ['\0'];
    assert line[len] == '\0';
    r := ReadBack(line, |Digits(d.mday)| + 1, d.mon + 1, Digits(d.year));
  }
}
