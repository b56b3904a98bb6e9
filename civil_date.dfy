/** Calendar dates of the proleptic Gregorian calendar, which JavaScript's Date uses, counted as
    whole days since 0000-01-01. This replaces the millisecond time values of index.js:72-74:
    a `YYYY-MM-DD` key is read as UTC midnight, so adding CYCLE_LENGTH_MS is adding whole days. */
module CivilDate {

  datatype Date = Date(year: nat, month: nat, day: nat)

  predicate IsLeapYear(y: nat)
  {
    y % 4 == 0 && (y % 100 != 0 || y % 400 == 0)
  }

  /** Days in the months of year `y` that come before month `m` (1 to 13). */
  function DaysBeforeMonth(y: nat, m: nat): nat
    requires 1 <= m <= 13
  {
    [0, 31, 59, 90, 120, 151, 181, 212, 243, 273, 304, 334, 365][m - 1]
      + (if m > 2 && IsLeapYear(y) then 1 else 0)
  }

  function DaysInMonth(y: nat, m: nat): (n: nat)
    requires 1 <= m <= 12
    ensures 28 <= n <= 31
    ensures n == DaysBeforeMonth(y, m + 1) - DaysBeforeMonth(y, m)
  {
    if m == 2 then (if IsLeapYear(y) then 29 else 28)
    else if m == 4 || m == 6 || m == 9 || m == 11 then 30
    else 31
  }

  function YearLength(y: nat): (n: nat)
    ensures n == DaysBeforeMonth(y, 13)
  {
    if IsLeapYear(y) then 366 else 365
  }

  /** Days from 0000-01-01 to the first day of year `y`. */
  function DaysBeforeYear(y: nat): nat
  {
    if y == 0 then 0 else DaysBeforeYear(y - 1) + YearLength(y - 1)
  }

  /** The month and day fields `new Date("YYYY-MM-DD")` accepts. */
  predicate InFieldRange(d: Date)
  {
    1 <= d.month <= 12 && 1 <= d.day <= 31
  }

  predicate IsValid(d: Date)
  {
    1 <= d.month <= 12 && 1 <= d.day <= DaysInMonth(d.year, d.month)
  }

  /** Days since 0000-01-01. A day past the end of its month counts on into the next month,
      as the MakeDay step of JavaScript's date parsing does. */
  function DayNumber(d: Date): int
    requires 1 <= d.month <= 12
  {
    DaysBeforeYear(d.year) + DaysBeforeMonth(d.year, d.month) + d.day - 1
  }

  /** Calendar order: by year, then month, then day. */
  predicate Before(a: Date, b: Date)
  {
    a.year < b.year || (a.year == b.year && (a.month < b.month || (a.month == b.month && a.day < b.day)))
  }

  lemma {:induction false} DaysBeforeYearGrows(a: nat, b: nat)
    requires a < b
    ensures DaysBeforeYear(a) + YearLength(a) <= DaysBeforeYear(b)
    decreases b
  {
    if a + 1 < b {
      DaysBeforeYearGrows(a, b - 1);
    }
  }

  lemma {:induction false} DaysBeforeMonthGrows(y: nat, m: nat, m2: nat)
    requires 1 <= m <= m2 <= 13
    ensures DaysBeforeMonth(y, m) <= DaysBeforeMonth(y, m2)
    decreases m2
  {
    if m < m2 {
      DaysBeforeMonthGrows(y, m, m2 - 1);
      assert DaysInMonth(y, m2 - 1) >= 28;
    }
  }

  /** A valid date that comes before `b` in calendar order has a smaller day number, even when
      `b`'s day runs past the end of its month. */
  lemma EarlierDayNumber(a: Date, b: Date)
    requires IsValid(a) && InFieldRange(b) && Before(a, b)
    ensures DayNumber(a) < DayNumber(b)
  {
    assert DaysInMonth(a.year, a.month) >= a.day;
    if a.year < b.year {
      DaysBeforeMonthGrows(a.year, a.month + 1, 13);
      DaysBeforeYearGrows(a.year, b.year);
    } else if a.month < b.month {
      DaysBeforeMonthGrows(a.year, a.month + 1, b.month);
    }
  }

  /** A valid date with a larger day number than `a` comes after `a` in calendar order. */
  lemma LaterDayNumberIsLater(a: Date, b: Date)
    requires InFieldRange(a) && IsValid(b) && DayNumber(a) < DayNumber(b)
    ensures Before(a, b)
  {
    if !Before(a, b) && a != b {
      EarlierDayNumber(b, a);
    }
  }

  /** On valid dates, calendar order and day-number order agree. */
  lemma BeforeIffDayNumber(a: Date, b: Date)
    requires IsValid(a) && IsValid(b)
    ensures Before(a, b) <==> DayNumber(a) < DayNumber(b)
  {
    if Before(a, b) {
      EarlierDayNumber(a, b);
    }
    if DayNumber(a) < DayNumber(b) {
      LaterDayNumberIsLater(a, b);
    }
  }

  /** The first day of the month after `d`'s month. */
  function NextMonthStart(d: Date): (r: Date)
    requires 1 <= d.month <= 12
    ensures IsValid(r) && r.day == 1
    ensures DayNumber(r) == DayNumber(Date(d.year, d.month, 1)) + DaysInMonth(d.year, d.month)
    ensures r.year == d.year || (d.month == 12 && r.year == d.year + 1)
  {
    if d.month == 12 then Date(d.year + 1, 1, 1) else Date(d.year, d.month + 1, 1)
  }

  /** The date `k` days after `d`, walking the calendar a month at a time. */
  function AddDays(d: Date, k: nat): (r: Date)
    requires IsValid(d)
    ensures IsValid(r) && DayNumber(r) == DayNumber(d) + k
    ensures d.day + k <= 28 ==> r.year == d.year && r.month == d.month
    ensures k < 28 ==> r.year <= d.year + 1
    decreases k
  {
    var dim := DaysInMonth(d.year, d.month);
    if d.day + k <= dim then Date(d.year, d.month, d.day + k)
    else AddDays(NextMonthStart(d), k - (dim - d.day + 1))
  }

  /** The valid date a `YYYY-MM-DD` key stands for: `new Date("2023-02-30")` is 2023-03-02. */
  function Normalize(d: Date): (r: Date)
    requires InFieldRange(d)
    ensures IsValid(r) && DayNumber(r) == DayNumber(d) && r.year == d.year
    ensures IsValid(d) ==> r == d
  {
    var dim := DaysInMonth(d.year, d.month);
    if d.day <= dim then d else AddDays(Date(d.year, d.month, dim), d.day - dim)
  }
}
