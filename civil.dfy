/**
 Civil dates of the proleptic Gregorian calendar, as the schedule service
 uses them: a (year, month, day) triple with a 1-based month, day
 arithmetic by the overflow rule of JavaScript's `Date.setDate`, the
 day of the week with 0 for Sunday, and the lexicographic order used to
 decide whether a date lies before "today".
 */
module Civil {

  datatype Date = Date(year: int, month: int, day: int)

  predicate IsLeapYear(y: int) {
    y % 4 == 0 && (y % 100 != 0 || y % 400 == 0)
  }

  function DaysInMonth(y: int, m: int): (n: int)
    requires 1 <= m <= 12
    ensures 28 <= n <= 31
    ensures n == 29 <==> m == 2 && IsLeapYear(y)
  {
    if m == 2 then (if IsLeapYear(y) then 29 else 28)
    else if m == 4 || m == 6 || m == 9 || m == 11 then 30
    else 31
  }

  /** A date that exists on the calendar. */
  predicate IsValid(d: Date) {
    1 <= d.month <= 12 && 1 <= d.day <= DaysInMonth(d.year, d.month)
  }

  /** Lexicographic order on (year, month, day). */
  predicate Before(a: Date, b: Date) {
    a.year < b.year
    || (a.year == b.year && a.month < b.month)
    || (a.year == b.year && a.month == b.month && a.day < b.day)
  }

  lemma BeforeIsStrictTotalOrder(a: Date, b: Date, c: Date)
    ensures !Before(a, a)
    ensures Before(a, b) && Before(b, c) ==> Before(a, c)
    ensures a != b ==> Before(a, b) || Before(b, a)
  {
  }

  /** The calendar day after `d`, rolling over month and year ends. */
  function NextDay(d: Date): (r: Date)
    requires IsValid(d)
    ensures IsValid(r) && Before(d, r)
  {
    if d.day < DaysInMonth(d.year, d.month) then Date(d.year, d.month, d.day + 1)
    else if d.month < 12 then Date(d.year, d.month + 1, 1)
    else Date(d.year + 1, 1, 1)
  }

  /**
   The date that `Date.setDate(dom)` yields on a date of month `m` of year
   `y`, for a day-of-month `dom >= 1`: a day past the end of the month
   carries into the following months (and years).
   */
  function SetDate(y: int, m: int, dom: int): (r: Date)
    requires 1 <= m <= 12 && 1 <= dom
    ensures IsValid(r)
    ensures r.year == y && r.month == m ==> r.day == dom
    ensures !Before(r, Date(y, m, dom))
    decreases dom
  {
    var dim := DaysInMonth(y, m);
    if dom <= dim then Date(y, m, dom)
    else if m < 12 then SetDate(y, m + 1, dom - dim)
    else SetDate(y + 1, 1, dom - dim)
  }

  /** `n` days after `d`, computed as the source does: `setDate(getDate() + n)`. */
  function AddDays(d: Date, n: nat): (r: Date)
    requires IsValid(d)
    ensures IsValid(r)
  {
    SetDate(d.year, d.month, d.day + n)
  }

  lemma {:induction false} SetDateStep(y: int, m: int, dom: int)
    requires 1 <= m <= 12 && 1 <= dom
    ensures SetDate(y, m, dom + 1) == NextDay(SetDate(y, m, dom))
    decreases dom
  {
    var dim := DaysInMonth(y, m);
    if dom < dim {
    } else if dom == dim {
    } else if m < 12 {
      SetDateStep(y, m + 1, dom - dim);
    } else {
      SetDateStep(y + 1, 1, dom - dim);
    }
  }

  lemma AddDaysZero(d: Date)
    requires IsValid(d)
    ensures AddDays(d, 0) == d
  {
  }

  /** Adding one more day is taking the next calendar day. */
  lemma AddDaysSucc(d: Date, n: nat)
    requires IsValid(d)
    ensures AddDays(d, n + 1) == NextDay(AddDays(d, n))
  {
    SetDateStep(d.year, d.month, d.day + n);
  }

  /** Later offsets give strictly later dates. */
  lemma {:induction false} AddDaysMonotone(d: Date, i: nat, j: nat)
    requires IsValid(d)
    requires i < j
    ensures Before(AddDays(d, i), AddDays(d, j))
    decreases j
  {
    AddDaysSucc(d, j - 1);
    if i < j - 1 {
      AddDaysMonotone(d, i, j - 1);
    }
  }

  /** Distinct offsets give distinct dates. */
  lemma AddDaysInjective(d: Date, i: nat, j: nat)
    requires IsValid(d)
    ensures AddDays(d, i) == AddDays(d, j) <==> i == j
  {
    if i < j {
      AddDaysMonotone(d, i, j);
    } else if j < i {
      AddDaysMonotone(d, j, i);
    }
  }

  /** No date reached by adding days lies before the starting date. */
  lemma AddDaysNotBefore(d: Date, n: nat)
    requires IsValid(d)
    ensures !Before(AddDays(d, n), d)
  {
    if n > 0 {
      AddDaysZero(d);
      AddDaysMonotone(d, 0, n);
    }
  }

  /** Days of the complete years from 1 January of year 1 up to 1 January of year `y`. */
  function DaysBeforeYear(y: int): int {
    var p := y - 1;
    365 * p + p / 4 - p / 100 + p / 400
  }

  /** Days of the complete months of year `y` before month `m`. */
  function DaysBeforeMonth(y: int, m: int): int
    requires 1 <= m <= 12
  {
    if m == 1 then 0 else DaysBeforeMonth(y, m - 1) + DaysInMonth(y, m - 1)
  }

  /** Days elapsed since 1 January of year 1 (which is day 0). */
  function DayNumber(d: Date): int
    requires IsValid(d)
  {
    DaysBeforeYear(d.year) + DaysBeforeMonth(d.year, d.month) + d.day - 1
  }

  /** Day of the week, 0 = Sunday … 6 = Saturday, as `getUTCDay` numbers them. */
  function Weekday(d: Date): (w: int)
    requires IsValid(d)
    ensures 0 <= w < 7
  {
    (DayNumber(d) + 1) % 7
  }

  lemma YearLength(y: int)
    ensures DaysBeforeYear(y + 1) == DaysBeforeYear(y) + if IsLeapYear(y) then 366 else 365
  {
    var p := y - 1;
    QuotientStep(y);
    assert DaysBeforeYear(y + 1) - DaysBeforeYear(y) == 365 + (y / 4 - p / 4) - (y / 100 - p / 100) + (y / 400 - p / 400);
  }

  /** Stepping from `y - 1` to `y` raises `y / c` exactly when `c` divides `y`, for the leap-year divisors. */
  lemma QuotientStep(y: int)
    ensures y / 4 - (y - 1) / 4 == if y % 4 == 0 then 1 else 0
    ensures y / 100 - (y - 1) / 100 == if y % 100 == 0 then 1 else 0
    ensures y / 400 - (y - 1) / 400 == if y % 400 == 0 then 1 else 0
    ensures y % 400 == 0 ==> y % 100 == 0
    ensures y % 100 == 0 ==> y % 4 == 0
  {
  }

  lemma DaysBeforeDecember(y: int)
    ensures DaysBeforeMonth(y, 12) + 31 == if IsLeapYear(y) then 366 else 365
  {
    var feb := DaysInMonth(y, 2);
    assert DaysBeforeMonth(y, 2) == 31;
    assert DaysBeforeMonth(y, 3) == 31 + feb;
    assert DaysBeforeMonth(y, 4) == 62 + feb;
    assert DaysBeforeMonth(y, 5) == 92 + feb;
    assert DaysBeforeMonth(y, 6) == 123 + feb;
    assert DaysBeforeMonth(y, 7) == 153 + feb;
    assert DaysBeforeMonth(y, 8) == 184 + feb;
    assert DaysBeforeMonth(y, 9) == 215 + feb;
    assert DaysBeforeMonth(y, 10) == 245 + feb;
    assert DaysBeforeMonth(y, 11) == 276 + feb;
    assert DaysBeforeMonth(y, 12) == 306 + feb;
  }

  /** The next calendar day is the next day number. */
  lemma NextDayNumber(d: Date)
    requires IsValid(d)
    ensures DayNumber(NextDay(d)) == DayNumber(d) + 1
  {
    if d.day == DaysInMonth(d.year, d.month) && d.month == 12 {
      YearLength(d.year);
      DaysBeforeDecember(d.year);
    }
  }

  lemma {:induction false} AddDaysNumber(d: Date, n: nat)
    requires IsValid(d)
    ensures DayNumber(AddDays(d, n)) == DayNumber(d) + n
  {
    if n == 0 {
      AddDaysZero(d);
    } else {
      AddDaysNumber(d, n - 1);
      AddDaysSucc(d, n - 1);
      NextDayNumber(AddDays(d, n - 1));
    }
  }

  lemma ModAddLeft(x: int, n: int)
    ensures (x + n) % 7 == (x % 7 + n) % 7
  {
    var q := x / 7;
    assert x == 7 * q + x % 7;
    assert x + n == 7 * q + (x % 7 + n);
  }

  /** The weekday advances by one, modulo 7, with every added day. */
  lemma WeekdayAfter(d: Date, n: nat)
    requires IsValid(d)
    ensures Weekday(AddDays(d, n)) == (Weekday(d) + n) % 7
  {
    AddDaysNumber(d, n);
    var x := DayNumber(d) + 1;
    assert Weekday(AddDays(d, n)) == (x + n) % 7;
    assert Weekday(d) == x % 7;
    ModAddLeft(x, n);
  }

  /** Fixed points of the calendar: 1 January 1970 was a Thursday, 14 October 2026 a Wednesday. */
  lemma WeekdayExamples()
    ensures Weekday(Date(1970, 1, 1)) == 4
    ensures Weekday(Date(2026, 10, 14)) == 3
    ensures Weekday(Date(2000, 2, 29)) == 2
  {
  }

  /** Rollover examples: across a year end and across a leap-year February. */
  lemma AddDaysExamples()
    ensures AddDays(Date(2026, 12, 25), 10) == Date(2027, 1, 4)
    ensures AddDays(Date(2024, 2, 20), 10) == Date(2024, 3, 1)
    ensures AddDays(Date(2023, 2, 20), 10) == Date(2023, 3, 2)
  {
  }
}
