/** The proleptic Gregorian calendar, counted one day at a time from 1 January 1970.
    Nothing here uses the cycle arithmetic of datetime.c: `NthDay` only knows how to step
    from a date to the next one. */
module Calendar {

  // `mon` counts from 0 and `mday` from 1, as in the source's struct.
  datatype Date = Date(year: int, mon: int, mday: int)

  predicate Leap(y: int) {
    y % 4 == 0 && (y % 100 != 0 || y % 400 == 0)
  }

  function YearLength(y: int): int {
    if Leap(y) then 366 else 365
  }

  function MonthLength(y: int, mon: int): int {
    match mon
    case 1 => if Leap(y) then 29 else 28
    case 3 => 30
    case 5 => 30
    case 8 => 30
    case 10 => 30
    case _ => 31
  }

  predicate Valid(d: Date) {
    1970 <= d.year && 0 <= d.mon < 12 && 1 <= d.mday <= MonthLength(d.year, d.mon)
  }

  function Next(d: Date): Date {
    if d.mday < MonthLength(d.year, d.mon) then Date(d.year, d.mon, d.mday + 1)
    else if d.mon < 11 then Date(d.year, d.mon + 1, 1)
    else Date(d.year + 1, 0, 1)
  }

  /** The date `n` days after 1 January 1970. */
  function NthDay(n: nat): Date {
    if n == 0 then Date(1970, 0, 1) else Next(NthDay(n - 1))
  }

  /** 0 is Sunday; 1 January 1970 was a Thursday. */
  function Weekday(n: nat): int {
    if n == 0 then 4 else if Weekday(n - 1) == 6 then 0 else Weekday(n - 1) + 1
  }

  function DaysBeforeYear(y: int): int
    decreases y
  {
    if y <= 1970 then 0 else DaysBeforeYear(y - 1) + YearLength(y - 1)
  }

  function DaysBeforeMonth(y: int, mon: int): int
    decreases mon
  {
    if mon <= 0 then 0 else DaysBeforeMonth(y, mon - 1) + MonthLength(y, mon - 1)
  }

  /** Zero-based day within the year. */
  function Ordinal(d: Date): int {
    DaysBeforeMonth(d.year, d.mon) + d.mday - 1
  }

  function DayNumber(d: Date): int {
    DaysBeforeYear(d.year) + Ordinal(d)
  }

  lemma MonthTable(y: int)
    ensures var leap := if Leap(y) then 1 else 0;
            && DaysBeforeMonth(y, 1) == 31 && DaysBeforeMonth(y, 2) == 59 + leap
            && DaysBeforeMonth(y, 3) == 90 + leap && DaysBeforeMonth(y, 4) == 120 + leap
            && DaysBeforeMonth(y, 5) == 151 + leap && DaysBeforeMonth(y, 6) == 181 + leap
            && DaysBeforeMonth(y, 7) == 212 + leap && DaysBeforeMonth(y, 8) == 243 + leap
            && DaysBeforeMonth(y, 9) == 273 + leap && DaysBeforeMonth(y, 10) == 304 + leap
            && DaysBeforeMonth(y, 11) == 334 + leap && DaysBeforeMonth(y, 12) == 365 + leap
  {
    assert DaysBeforeMonth(y, 1) == 31;
    assert DaysBeforeMonth(y, 3) == DaysBeforeMonth(y, 2) + 31;
    assert DaysBeforeMonth(y, 5) == DaysBeforeMonth(y, 4) + 31;
    assert DaysBeforeMonth(y, 7) == DaysBeforeMonth(y, 6) + 31;
    assert DaysBeforeMonth(y, 9) == DaysBeforeMonth(y, 8) + 30;
    assert DaysBeforeMonth(y, 11) == DaysBeforeMonth(y, 10) + 30;
  }

  lemma QuotientStep(x: int, k: int)
    requires k > 0
    ensures x / k == (x - 1) / k + if x % k == 0 then 1 else 0
  {
    var q, r := (x - 1) / k, (x - 1) % k;
    assert x == k * q + r + 1;
    if r + 1 == k {
      assert x == k * (q + 1);
      Quotient(x, k, q + 1, 0);
    } else {
      Quotient(x, k, q, r + 1);
    }
  }

  lemma MulAtLeast(k: int, n: int)
    requires k > 0 && n >= 1
    ensures k * n >= k
  {
  }

  /** Division with remainder is unique. */
  lemma Quotient(x: int, k: int, q: int, r: int)
    requires k > 0 && x == k * q + r && 0 <= r < k
    ensures x / k == q && x % k == r
  {
    var a, b := x / k, x % k;
    var n := a - q;
    assert k * n == k * a - k * q == r - b;
    if n > 0 {
      MulAtLeast(k, n);
    } else if n < 0 {
      MulAtLeast(k, -n);
    }
  }

  /** Unsigned arithmetic may wrap at each step or once at the end. */
  lemma ScaleWraps(v: int, k: int, d: int, width: int)
    requires width > 0
    ensures ((v % width) * k + d) % width == (v * k + d) % width
  {
    var q, r := v / width, v % width;
    var x := r * k + d;
    var q', r' := x / width, x % width;
    assert v * k == width * (q * k) + r * k by {
      assert v == width * q + r;
      Distribute(width, q, r, k);
    }
    assert v * k + d == width * (q * k + q') + r';
    Quotient(v * k + d, width, q * k + q', r');
  }

  lemma Distribute(a: int, b: int, c: int, k: int)
    ensures (a * b + c) * k == a * (b * k) + c * k
  {
  }

  lemma LeapByQuotients(y: int)
    ensures (if Leap(y) then 1 else 0) == y / 4 - (y - 1) / 4 - (y / 100 - (y - 1) / 100) + (y / 400 - (y - 1) / 400)
  {
    QuotientStep(y, 4);
    QuotientStep(y, 100);
    QuotientStep(y, 400);
    assert y % 400 == 0 ==> y == 100 * (4 * (y / 400)) + 0;
    assert y % 100 == 0 ==> y == 4 * (25 * (y / 100)) + 0;
    if y % 400 == 0 {
      Quotient(y, 100, 4 * (y / 400), 0);
    }
    if y % 100 == 0 {
      Quotient(y, 4, 25 * (y / 100), 0);
    }
  }

  /** The closed form of the day count before a year. */
  lemma {:induction false} YearsClosedForm(y: int)
    requires 1970 <= y
    ensures DaysBeforeYear(y) == 365 * (y - 1970) + (y - 1) / 4 - (y - 1) / 100 + (y - 1) / 400 - 477
    decreases y
  {
    if y > 1970 {
      YearsClosedForm(y - 1);
      LeapByQuotients(y - 1);
    }
  }

  lemma OrdinalInYear(d: Date)
    requires Valid(d)
    ensures 0 <= Ordinal(d) < YearLength(d.year)
  {
    MonthTable(d.year);
  }

  lemma NextDayNumber(d: Date)
    requires Valid(d)
    ensures Valid(Next(d)) && DayNumber(Next(d)) == DayNumber(d) + 1
  {
    if d.mday == MonthLength(d.year, d.mon) {
      if d.mon == 11 {
        MonthTable(d.year);
        assert DaysBeforeYear(d.year + 1) == DaysBeforeYear(d.year) + YearLength(d.year);
      } else {
        assert DaysBeforeMonth(d.year, d.mon + 1) == DaysBeforeMonth(d.year, d.mon) + d.mday;
      }
    }
  }

  lemma {:induction false} NthDayNumber(n: nat)
    ensures Valid(NthDay(n)) && DayNumber(NthDay(n)) == n
  {
    if n > 0 {
      NthDayNumber(n - 1);
      NextDayNumber(NthDay(n - 1));
    }
  }

  lemma {:induction false} YearsGrow(y: int, z: int)
    requires 1970 <= y < z
    ensures DaysBeforeYear(y) + YearLength(y) <= DaysBeforeYear(z)
    decreases z
  {
    if y + 1 < z {
      YearsGrow(y, z - 1);
    }
  }

  lemma {:induction false} MonthsGrow(y: int, m: int, n: int)
    requires 0 <= m < n <= 12
    ensures DaysBeforeMonth(y, m) + MonthLength(y, m) <= DaysBeforeMonth(y, n)
    decreases n
  {
    if m + 1 < n {
      MonthsGrow(y, m, n - 1);
    }
  }

  /** No two valid dates have the same day number. */
  lemma DayNumberInjective(d: Date, e: Date)
    requires Valid(d) && Valid(e) && DayNumber(d) == DayNumber(e)
    ensures d == e
  {
    OrdinalInYear(d);
    OrdinalInYear(e);
    if d.year < e.year {
      YearsGrow(d.year, e.year);
    } else if e.year < d.year {
      YearsGrow(e.year, d.year);
    } else if d.mon < e.mon {
      MonthsGrow(d.year, d.mon, e.mon);
    } else if e.mon < d.mon {
      MonthsGrow(d.year, e.mon, d.mon);
    }
  }

  /** `NthDay` and `DayNumber` are inverse: every valid date is reached, exactly once. */
  lemma DayNumberInverts(d: Date)
    requires Valid(d)
    ensures DayNumber(d) >= 0 && NthDay(DayNumber(d)) == d
  {
    OrdinalInYear(d);
    if d.year > 1970 {
      YearsGrow(1970, d.year);
    }
    NthDayNumber(DayNumber(d));
    DayNumberInjective(d, NthDay(DayNumber(d)));
  }

  lemma {:induction false} WeekdayClosedForm(n: nat)
    ensures Weekday(n) == (n + 4) % 7
  {
    if n > 0 {
      WeekdayClosedForm(n - 1);
      var q, r := (n + 3) / 7, (n + 3) % 7;
      if r == 6 {
        Quotient(n + 4, 7, q + 1, 0);
      } else {
        Quotient(n + 4, 7, q, r + 1);
      }
    }
  }
}
