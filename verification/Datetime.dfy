/** `datetime_tai`: seconds since 1 January 1970 to a broken-down date and time, through
    400-, 100-, 4- and 1-year cycles of years that start in March. */
module DatetimeTai {
  import opened Calendar

  newtype int32 = x: int | -0x8000_0000 <= x < 0x8000_0000

  const INT_MAX: int := 0x7fff_ffff

  /** C's `a / b` and `a % b`: the quotient is truncated towards zero, so a remainder has the
      sign of `a` (section 6.5.5 of the C standard). */
  method Divide(a: int32, b: int32) returns (quot: int32, rem: int32)
    requires b > 0
    ensures a as int == b as int * quot as int + rem as int
    ensures -b < rem < b && (rem > 0 ==> a > 0) && (rem < 0 ==> a < 0)
  {
    var x := if a < 0 then -(a as int) else a as int;
    var q, r := x / b as int, x % b as int;
    QuotientAtMost(x, b as int);
    if a < 0 {
      quot, rem := (-q) as int32, (-r) as int32;
      assert b as int * -q == -(b as int * q);
    } else {
      quot, rem := q as int32, r as int32;
    }
  }

  lemma QuotientAtMost(x: int, k: int)
    requires x >= 0 && k > 0
    ensures 0 <= x / k <= x
  {
    var d := x / k;
    if d > 0 {
      MulAtLeast(d, k);
    }
  }

  /** Lines 31-32 with `length` 36524 and lines 38-39 with `length` 365: four cycles, the last of
      which is one day longer. */
  method SplitCycles(day: int32, length: int32) returns (count: int32, rest: int32)
    requires length == 36524 || length == 365
    requires 0 <= day <= 4 * length
    ensures day as int == length as int * count as int + rest as int && 0 <= count <= 3 && 0 <= rest <= length
    ensures rest == length ==> count == 3
  {
    if day == 4 * length {
      count, rest := 3, length;
    } else {
      count, rest := Divide(day, length);
    }
  }

  /** Lines 27-40: the March-based year of a day counted from 1 March 2000, the day `k` within it,
      and the start of the ordinal. The ghost results are the cycle counters. */
  method MarchYear(march2000: int32) returns (year: int32, yday: int32, k: int32,
                                              ghost q: int, ghost c: int, ghost f: int, ghost h: int)
    ensures 0 <= c <= 3 && 0 <= f <= 24 && 0 <= h <= 3 && 0 <= k <= 365
    ensures k == 365 ==> h == 3 && (f == 24 ==> c == 3)
    ensures march2000 as int == 146097 * q + 36524 * c + 1461 * f + 365 * h + k as int
    ensures year as int == 2000 + 400 * q + 100 * c + 4 * f + h
    ensures yday as int == k as int + if h == 0 && k < 306 then 1 else 0
  {
    var quot, day := Divide(march2000, 146097);
    year := 5 + quot;
    if day < 0 {
      day := day + 146097;
      year := year - 1;
    }
    q := year as int - 5;
    year := year * 4;
    quot, day := SplitCycles(day, 36524);
    c := quot as int;
    year := year + quot;
    year := year * 25;
    quot, day := Divide(day, 1461);
    f := quot as int;
    year := year + quot;
    year := year * 4;
    yday := if day < 306 then 1 else 0;
    quot, day := SplitCycles(day, 365);
    h := quot as int;
    year := year + quot;
    yday := yday + day;
    k := day;
  }

  /** A year that starts in March, and is named by cycle counters, ends its first ten months
      this many days after 1 January 1970. */
  lemma JanuaryFirst(q: int, c: int, f: int, h: int)
    requires 0 <= c <= 3 && 0 <= f <= 24 && 0 <= h <= 3
    requires 2001 + 400 * q + 100 * c + 4 * f + h >= 1970
    ensures DaysBeforeYear(2001 + 400 * q + 100 * c + 4 * f + h)
            == 11017 + 146097 * q + 36524 * c + 1461 * f + 365 * h + 306
  {
    var y := 2000 + 400 * q + 100 * c + 4 * f + h;
    YearsClosedForm(y + 1);
    Quotient(y, 4, 500 + 100 * q + 25 * c + f, h);
    Quotient(y, 100, 20 + 4 * q + c, 4 * f + h);
    Quotient(y, 400, 5 + q, 100 * c + 4 * f + h);
  }

  /** The year number is a multiple of four, a hundred, four hundred according to the cycle counters. */
  lemma LeapInCycles(q: int, c: int, f: int, h: int)
    requires 0 <= c <= 3 && 0 <= f <= 24 && 0 <= h <= 3
    ensures var y := 2000 + 400 * q + 100 * c + 4 * f + h;
            && (y % 4 == 0 <==> h == 0)
            && (y % 100 == 0 <==> f == 0 && h == 0)
            && (y % 400 == 0 <==> c == 0 && f == 0 && h == 0)
  {
    var y := 2000 + 400 * q + 100 * c + 4 * f + h;
    Quotient(y, 4, 500 + 100 * q + 25 * c + f, h);
    Quotient(y, 100, 20 + 4 * q + c, 4 * f + h);
    Quotient(y, 400, 5 + q, 100 * c + 4 * f + h);
  }

  /** The year that starts in the middle of a March-based year is leap exactly when that year has 366 days. */
  lemma LeapAtEndOfCycle(q: int, c: int, f: int, h: int)
    requires 0 <= c <= 3 && 0 <= f <= 24 && 0 <= h <= 3
    ensures Leap(2001 + 400 * q + 100 * c + 4 * f + h) <==> h == 3 && (f == 24 ==> c == 3)
  {
    if h < 3 {
      LeapInCycles(q, c, f, h + 1);
    } else if f < 24 {
      LeapInCycles(q, c, f + 1, 0);
    } else if c < 3 {
      LeapInCycles(q, c + 1, 0, 0);
    } else {
      LeapInCycles(q + 1, 0, 0, 0);
    }
  }

  /** Lines 17-20. */
  method TimeOfDay(tod: int32) returns (hour: int32, min: int32, sec: int32)
    requires 0 <= tod < 86400
    ensures 0 <= hour < 24 && 0 <= min < 60 && 0 <= sec < 60
    ensures 3600 * hour as int + 60 * min as int + sec as int == tod as int
  {
    var rest;
    hour, rest := Divide(tod, 3600);
    min, sec := Divide(rest, 60);
  }

  /** Line 22. */
  method WeekdayOf(day: int32) returns (wday: int32)
    requires 0 <= day as int <= INT_MAX - 4
    ensures wday as int == Weekday(day as int)
  {
    var quot;
    quot, wday := Divide(day + 4, 7);
    if wday < 0 {
      assert false;  // the day number of an unsigned time is not negative
    }
    WeekdayClosedForm(day as int);
    Quotient(day as int + 4, 7, quot as int, wday as int);
  }

  /** Lines 42-45: months of 30.6 days, in tenths of a day. */
  method MonthAndDay(k: int32) returns (mon: int32, mday: int32)
    requires 0 <= k <= 365
    ensures mon as int == (10 * k as int + 5) / 306
    ensures mday as int == (10 * k as int + 5 - 306 * mon as int) / 10
    ensures 0 <= mon <= 11 && 0 <= mday <= 30
  {
    var tenths, rem := 10 * k, 0;
    mon, rem := Divide(tenths + 5, 306);
    Quotient(10 * k as int + 5, 306, mon as int, rem as int);
    tenths := tenths + 5 - 306 * mon;
    mday, rem := Divide(tenths, 10);
    Quotient(tenths as int, 10, mday as int, rem as int);
  }

  /** Days 0 to 365 of a March-based year, cut into months of 30.6 days. */
  lemma MarchMonths(y: int, k: int, mon: int, mday: int)
    requires 0 <= k <= 365 && (k == 365 ==> Leap(y + 1))
    requires mon == (10 * k + 5) / 306 && mday == (10 * k + 5 - 306 * mon) / 10
    ensures 0 <= mon <= 11 && (mon >= 10 <==> k >= 306)
    ensures mon < 10 ==> 0 <= mday < MonthLength(y, mon + 2)
                         && DaysBeforeMonth(y, mon + 2) + mday == 59 + (if Leap(y) then 1 else 0) + k
    ensures mon >= 10 ==> 0 <= mday < MonthLength(y + 1, mon - 10)
                          && DaysBeforeMonth(y + 1, mon - 10) + mday == k - 306
  {
    MonthTable(y);
    MonthTable(y + 1);
  }

  /** What `datetime_tai` returns as `yday`: the ordinal day, one too large from March to December
      of the century years that are not leap. */
  function SourceYday(d: Date): int {
    if d.mon >= 2 && d.year % 100 == 0 && d.year % 400 != 0 then Ordinal(d) + 1 else Ordinal(d)
  }

  /** The cycle counters and the day `k` of the March-based year, turned into month and day,
      name the date `n` days after 1 January 1970; `yday` is the source's ordinal. */
  lemma CycleDate(n: nat, q: int, c: int, f: int, h: int, k: int, d: Date, yday: int)
    requires 0 <= c <= 3 && 0 <= f <= 24 && 0 <= h <= 3 && 0 <= k <= 365
    requires k == 365 ==> h == 3 && (f == 24 ==> c == 3)
    requires n == 11017 + 146097 * q + 36524 * c + 1461 * f + 365 * h + k
    requires var march := 2000 + 400 * q + 100 * c + 4 * f + h;
             var m := (10 * k + 5) / 306;
             d == Date(if m >= 10 then march + 1 else march, if m >= 10 then m - 10 else m + 2,
                       (10 * k + 5 - 306 * m) / 10 + 1)
    requires yday == k + if k >= 306 then -306 else if h == 0 then 60 else 59
    ensures NthDay(n) == d && yday == SourceYday(d)
  {
    var march := 2000 + 400 * q + 100 * c + 4 * f + h;
    LeapAtEndOfCycle(q, c, f, h);
    LeapInCycles(q, c, f, h);
    MarchMonths(march, k, (10 * k + 5) / 306, d.mday - 1);
    YearsSince1970(n, q, c, f, h, k);
    JanuaryFirst(q, c, f, h);
    assert Valid(d) && DayNumber(d) == n;
    DayNumberInverts(d);
  }

  /** A non-negative day number lies in a year from 1970 on, that is in a March-based year from 1969 on. */
  lemma YearsSince1970(n: nat, q: int, c: int, f: int, h: int, k: int)
    requires 0 <= c <= 3 && 0 <= f <= 24 && 0 <= h <= 3 && 0 <= k <= 365
    requires n == 11017 + 146097 * q + 36524 * c + 1461 * f + 365 * h + k
    ensures 2000 + 400 * q + 100 * c + 4 * f + h >= if k >= 306 then 1969 else 1970
  {
    assert q >= -1;
  }

  class Datetime {
    var hour: int32
    var min: int32
    var sec: int32
    var wday: int32
    var mday: int32
    var yday: int32
    var mon: int32
    var year: int32

    constructor () {
      hour, min, sec, wday := 0, 0, 0, 0;
      mday, yday, mon, year := 0, 0, 0, 0;
    }

    function CivilDate(): Date
      reads this
    {
      Date(year as int + 1900, mon as int, mday as int)
    }

    function SecondOfDay(): int
      reads this
    {
      3600 * hour as int + 60 * min as int + sec as int
    }

    /** The date and time of day that the fields stand for is second `t`. */
    ghost predicate Denotes(t: nat)
      reads this
    {
      && CivilDate() == NthDay(t / 86400)
      && 0 <= hour < 24 && 0 <= min < 60 && 0 <= sec < 60
      && SecondOfDay() == t % 86400
      && wday as int == Weekday(t / 86400)
      && yday as int == SourceYday(NthDay(t / 86400))
    }

    /** `t` is unsigned in the source; its day count plus four must fit in an int (line 22). */
    method Tai(t: nat)
      requires t / 86400 <= INT_MAX - 4
      modifies this
      ensures Denotes(t)
    {
      hide NthDay, Weekday, SourceYday;
      var tod := (t % 86400) as int32;
      var day := (t / 86400) as int32;
      if tod < 0 {
        assert false;  // line 15 cannot run: `t` is unsigned
      }
      hour, min, sec := TimeOfDay(tod);
      wday := WeekdayOf(day);
      ghost var n := day as int;

      day := day - 11017;
      var y, yd;
      ghost var q, c, f, h;
      y, yd, day, q, c, f, h := MarchYear(day);
      ghost var k := day as int;

      var m;
      m, day := MonthAndDay(day);
      if m >= 10 {
        yd := yd - 306;
        y := y + 1;
        m := m - 10;
      } else {
        yd := yd + 59;
        m := m + 2;
      }

      yday := yd;
      year := y - 1900;
      mon := m;
      mday := day + 1;
      CycleDate(n, q, c, f, h, k, CivilDate(), yday as int);
    }
  }

  /** `yday` is the ordinal day, or one more than that exactly from March to December of a century year that
      is not leap. */
  lemma YdayIsOrdinal(dt: Datetime, t: nat)
    requires dt.Denotes(t)
    ensures var d := dt.CivilDate();
            && (dt.yday as int == Ordinal(d) <==> !(d.mon >= 2 && d.year % 100 == 0 && d.year % 400 != 0))
            && Ordinal(d) <= dt.yday as int <= Ordinal(d) + 1
  {
  }

  /** Two seconds with the same date and time of day are the same second. */
  lemma SameFieldsSameSecond(t: nat, u: nat)
    requires NthDay(t / 86400) == NthDay(u / 86400) && t % 86400 == u % 86400
    ensures t == u
  {
    NthDayNumber(t / 86400);
    NthDayNumber(u / 86400);
  }

  /** Whatever second `u` the fields denote, they show a given valid date and time of day exactly when `u` is
      the second that days-from-civil gives. `Tai` can be called for that one exactly when the date's day
      count plus four fits in an int. */
  lemma EveryDateIsReached(dt: Datetime, d: Date, tod: nat, u: nat)
    requires Valid(d) && tod < 86400 && dt.Denotes(u)
    ensures var t := 86400 * DayNumber(d) + tod;
            && (dt.CivilDate() == d && dt.SecondOfDay() == tod <==> u == t)
            && (t / 86400 <= INT_MAX - 4 <==> DayNumber(d) + 4 <= INT_MAX)
  {
    DayNumberInverts(d);
    var t := 86400 * DayNumber(d) + tod;
    Quotient(t, 86400, DayNumber(d), tod);
    if NthDay(u / 86400) == d && u % 86400 == tod {
      SameFieldsSameSecond(t, u);
    }
  }

  lemma DayOf2100()
    ensures var d := Date(2100, 2, 1); Valid(d) && DayNumber(d) == 47541 && Ordinal(d) == 59
  {
    hide DaysBeforeYear, DaysBeforeMonth;
    MonthTable(2100);
    YearsClosedForm(2100);
  }

  /** On 1 March 2100, day 59 of its year and day 47541 since 1 January 1970, `yday` is 60. */
  lemma YdayOf2100(dt: Datetime, t: nat)
    requires t / 86400 == 47541 && dt.Denotes(t)
    ensures dt.CivilDate() == Date(2100, 2, 1) && Ordinal(dt.CivilDate()) == 59 && dt.yday == 60
  {
    hide DayNumber, Ordinal, NthDay, Valid;
    DayOf2100();
    EveryDateIsReached(dt, Date(2100, 2, 1), t % 86400, t);
  }
}
