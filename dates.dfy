/** The part of Go's `time` package that the month grid relies on: dates in the
    proleptic Gregorian calendar, the number of days in a month, the weekday of a
    date (Sunday-first numbering, as `time.Weekday`), stepping to the next day (as
    `AddDate(0, 0, 1)`) and the English month names of `time.Month.String`. */
module Dates {

  /** A date as `time.Date(year, month, day, 0, 0, 0, 0, time.UTC)` denotes it. */
  datatype Date = Date(year: int, month: int, day: int)

  // `time.Weekday` numbering: Sunday is 0, Monday 1, ..., Saturday 6.
  const Sunday := 0
  const Monday := 1
  const Saturday := 6

  const January := 1
  const December := 12

  /** Gregorian leap-year rule: divisible by 4, except centuries not divisible by 400. */
  predicate IsLeapYear(y: int)
  {
    y % 4 == 0 && (y % 100 != 0 || y % 400 == 0)
  }

  /** The length of year `y`; `MonthsMakeYear` and `DaysBeforeYearStep` tie it to the
      month table and to the closed-form day count. */
  function DaysInYear(y: int): int
  {
    if IsLeapYear(y) then 366 else 365
  }

  function DaysInMonth(y: int, m: int): (n: int)
    requires January <= m <= December
    ensures 28 <= n <= 31
    ensures n < 30 <==> m == 2
  {
    if m == 2 then (if IsLeapYear(y) then 29 else 28)
    else if m == 4 || m == 6 || m == 9 || m == 11 then 30
    else 31
  }

  predicate ValidDate(d: Date)
  {
    January <= d.month <= December && 1 <= d.day <= DaysInMonth(d.year, d.month)
  }

  /** Days of year `y` that lie in the months before month `m` (a cumulative table,
      with one extra day after February in a leap year). */
  function DaysBeforeMonth(y: int, m: int): (n: int)
    requires January <= m <= December
    ensures 0 <= n <= 335
    ensures m == January ==> n == 0
  {
    var common :=
      match m
      case 1 => 0
      case 2 => 31
      case 3 => 59
      case 4 => 90
      case 5 => 120
      case 6 => 151
      case 7 => 181
      case 8 => 212
      case 9 => 243
      case 10 => 273
      case 11 => 304
      case _ => 334;
    if m > 2 && IsLeapYear(y) then common + 1 else common
  }

  /** The table agrees with the month lengths: each entry adds the length of the month before. */
  lemma DaysBeforeMonthStep(y: int, m: int)
    requires January <= m < December
    ensures DaysBeforeMonth(y, m + 1) == DaysBeforeMonth(y, m) + DaysInMonth(y, m)
  {
  }

  /** The twelve months together make up the year. */
  lemma MonthsMakeYear(y: int)
    ensures DaysBeforeMonth(y, December) + DaysInMonth(y, December) == DaysInYear(y)
  {
  }

  /** Days from 0001-01-01 to the first day of year `y` (negative for earlier years);
      Dafny's division by a positive constant rounds down, so the count is
      proleptic for every year, year 0 and negative years included. */
  function DaysBeforeYear(y: int): int
  {
    var p := y - 1;
    365 * p + p / 4 - p / 100 + p / 400
  }

  /** February is the month that absorbs the leap day: it is what is left of the year
      after the other eleven months (337 days). */
  lemma FebruaryLength(y: int)
    ensures DaysInMonth(y, 2) == DaysInYear(y) - 337
    ensures DaysInMonth(y, 2) == 29 <==> IsLeapYear(y)
  {
  }

  /** The day count is in step with `DaysInYear`: year `y` spans exactly its days. */
  lemma {:induction false} DaysBeforeYearStep(y: int)
    ensures DaysBeforeYear(y + 1) == DaysBeforeYear(y) + DaysInYear(y)
  {
    FloorSteps(y);
    Multiples(y);
  }

  /** Rounding-down division by 4, 100 and 400 gains one exactly at the multiples. */
  lemma FloorSteps(a: int)
    ensures a / 4 - (a - 1) / 4 == if a % 4 == 0 then 1 else 0
    ensures a / 100 - (a - 1) / 100 == if a % 100 == 0 then 1 else 0
    ensures a / 400 - (a - 1) / 400 == if a % 400 == 0 then 1 else 0
  {
  }

  /** Multiples of 400 are multiples of 100, which are multiples of 4. */
  lemma Multiples(a: int)
    ensures a % 400 == 0 ==> a % 100 == 0
    ensures a % 100 == 0 ==> a % 4 == 0
  {
  }

  /** Days from 0001-01-01 to `d`. */
  function DayNumber(d: Date): int
    requires ValidDate(d)
  {
    DaysBeforeYear(d.year) + DaysBeforeMonth(d.year, d.month) + d.day - 1
  }

  /** `time.Time.Weekday`: Sunday-first index of the weekday of `d`.
      0001-01-01 of the proleptic Gregorian calendar was a Monday. */
  function Weekday(d: Date): (w: int)
    requires ValidDate(d)
    ensures Sunday <= w <= Saturday
  {
    (DayNumber(d) + Monday) % 7
  }

  /** `AddDate(0, 0, 1)` on a valid date: the next calendar day. */
  function NextDay(d: Date): (r: Date)
    requires ValidDate(d)
    ensures ValidDate(r)
    ensures r.month == d.month <==> d.day < DaysInMonth(d.year, d.month)
  {
    if d.day < DaysInMonth(d.year, d.month) then Date(d.year, d.month, d.day + 1)
    else if d.month < December then Date(d.year, d.month + 1, 1)
    else Date(d.year + 1, January, 1)
  }

  /** Stepping to the next day moves the day count forward by exactly one,
      across month ends and year ends alike. */
  lemma NextDayIsSuccessor(d: Date)
    requires ValidDate(d)
    ensures DayNumber(NextDay(d)) == DayNumber(d) + 1
  {
    if d.day == DaysInMonth(d.year, d.month) {
      if d.month < December {
        DaysBeforeMonthStep(d.year, d.month);
      } else {
        DaysBeforeYearStep(d.year);
        MonthsMakeYear(d.year);
      }
    }
  }

  /** Consequently the weekday of the next day is the following weekday. */
  lemma NextDayWeekday(d: Date)
    requires ValidDate(d)
    ensures Weekday(NextDay(d)) == (Weekday(d) + 1) % 7
  {
    NextDayIsSuccessor(d);
    ModSeven(DayNumber(d) + Monday);
  }

  lemma ModSeven(n: int)
    ensures (n + 1) % 7 == (n % 7 + 1) % 7
  {
  }

  /** Distinct valid dates have distinct day counts. */
  lemma DayNumberInjective(a: Date, b: Date)
    requires ValidDate(a) && ValidDate(b) && DayNumber(a) == DayNumber(b)
    ensures a == b
  {
    if a.year != b.year {
      if a.year < b.year {
        YearsAreOrdered(a, b);
      } else {
        YearsAreOrdered(b, a);
      }
    }
    if a.month != b.month {
      if a.month < b.month {
        MonthsAreOrdered(a.year, a.month, b.month);
      } else {
        MonthsAreOrdered(a.year, b.month, a.month);
      }
    }
  }

  /** Every date of a later year has a larger day count. */
  lemma YearsAreOrdered(a: Date, b: Date)
    requires ValidDate(a) && ValidDate(b) && a.year < b.year
    ensures DayNumber(a) < DayNumber(b)
  {
    DaysBeforeYearMonotone(a.year + 1, b.year);
    DaysBeforeYearStep(a.year);
    MonthsMakeYear(a.year);
  }

  lemma {:induction false} DaysBeforeYearMonotone(x: int, y: int)
    requires x <= y
    ensures DaysBeforeYear(x) <= DaysBeforeYear(y)
    decreases y - x
  {
    if x < y {
      DaysBeforeYearMonotone(x + 1, y);
      DaysBeforeYearStep(x);
    }
  }

  /** Within a year, a later month starts after every day of an earlier one. */
  lemma {:induction false} MonthsAreOrdered(y: int, m: int, n: int)
    requires January <= m < n <= December
    ensures DaysBeforeMonth(y, m) + DaysInMonth(y, m) <= DaysBeforeMonth(y, n)
    decreases n - m
  {
    DaysBeforeMonthStep(y, m);
    if m + 1 < n {
      MonthsAreOrdered(y, m + 1, n);
    }
  }

  /** Zeller's congruence for the Gregorian calendar, an independent route to the
      weekday: January and February count as months 13 and 14 of the year before,
      the year is split into century `j` and year of century `k`, and the
      congruence's Saturday-first result is shifted to Sunday-first numbering. */
  function ZellerWeekday(y: int, m: int, q: int): (w: int)
    requires January <= m <= December
    ensures Sunday <= w <= Saturday
  {
    var yy := if m < 3 then y - 1 else y;
    var k := yy % 100;
    var j := yy / 100;
    var h := (q + ZellerMonth(m) + k + k / 4 + j / 4 + 5 * j) % 7;
    (h + 6) % 7
  }

  /** The month term `13 (m + 1) / 5` of the congruence, January and February as 13 and 14. */
  function ZellerMonth(m: int): int
    requires January <= m <= December
  {
    var mm := if m < 3 then m + 12 else m;
    13 * (mm + 1) / 5
  }

  /** The day count's weekday agrees with Zeller's congruence on every valid date. */
  lemma WeekdayAgreesWithZeller(d: Date)
    requires ValidDate(d)
    ensures Weekday(d) == ZellerWeekday(d.year, d.month, d.day)
  {
    var y, m := d.year, d.month;
    var yy := if m < 3 then y - 1 else y;
    var j, k := yy / 100, yy % 100;
    var hn := d.day + ZellerMonth(m) + k + k / 4 + j / 4 + 5 * j;
    var weeks := ZellerWeeks(d);
    assert Weekday(d) == (hn + 6 + 7 * weeks) % 7;
    assert ZellerWeekday(y, m, d.day) == (hn % 7 + 6) % 7;
    ShiftBySevens(hn + 6, weeks);
    ModShift(hn, 6);
  }

  /** The day count and the congruence's terms differ by a whole number of weeks. */
  lemma ZellerWeeks(d: Date) returns (weeks: int)
    requires ValidDate(d)
    ensures var yy := if d.month < 3 then d.year - 1 else d.year;
      DayNumber(d) + Monday == d.day + ZellerMonth(d.month) + yy % 100 + (yy % 100) / 4
                               + (yy / 100) / 4 + 5 * (yy / 100) + 6 + 7 * weeks
  {
    var y, m := d.year, d.month;
    var yy := if m < 3 then y - 1 else y;
    YearTerm(yy);
    MonthTerm(y, m);
    var c := (DaysBeforeMonth(y, m) - (if m > 2 && IsLeapYear(y) then 1 else 0)
              - ZellerMonth(m) + (if m < 3 then 1 else 0)) / 7;
    if m < 3 {
      weeks := 52 * yy + 17 * (yy / 100) + c - 1;
    } else {
      DaysBeforeYearStep(y);
      weeks := 52 * yy + 17 * (yy / 100) + c - 53;
    }
  }

  /** Floor division of a year by 4 and 400, in terms of its century and year of century. */
  lemma CenturySplit(y: int)
    ensures y / 4 == 25 * (y / 100) + (y % 100) / 4
    ensures y / 400 == (y / 100) / 4
  {
    var j, k := y / 100, y % 100;
    assert y == 100 * j + k;
    var a, b := j / 4, j % 4;
    assert j == 4 * a + b;
    assert y == 400 * a + (100 * b + k);
  }

  /** The day count up to the end of year `y` is the congruence's year terms plus whole weeks. */
  lemma YearTerm(y: int)
    ensures DaysBeforeYear(y + 1) + Monday
         == 5 * (y / 100) + y % 100 + (y % 100) / 4 + (y / 100) / 4 + 1 + 7 * (52 * y + 17 * (y / 100))
  {
    CenturySplit(y);
  }

  /** The cumulative month table and the congruence's month term differ by whole weeks. */
  lemma MonthTerm(y: int, m: int)
    requires January <= m <= December
    ensures (DaysBeforeMonth(y, m) - (if m > 2 && IsLeapYear(y) then 1 else 0)
             - ZellerMonth(m) + (if m < 3 then 1 else 0)) % 7 == 0
  {
  }

  lemma ShiftBySevens(a: int, n: int)
    ensures (a + 7 * n) % 7 == a % 7
  {
  }

  /** Reducing a summand modulo 7 first does not change the sum modulo 7. */
  lemma ModShift(x: int, y: int)
    ensures (x % 7 + y) % 7 == (x + y) % 7
  {
    var q := x / 7;
    assert x == 7 * q + x % 7;
    assert x + y == 7 * q + (x % 7 + y);
  }

  /** `time.Month.String` for months January..December. */
  function MonthName(m: int): (s: string)
    requires January <= m <= December
    ensures |s| >= 3 && ' ' !in s
  {
    match m
    case 1 => "January"
    case 2 => "February"
    case 3 => "March"
    case 4 => "April"
    case 5 => "May"
    case 6 => "June"
    case 7 => "July"
    case 8 => "August"
    case 9 => "September"
    case 10 => "October"
    case 11 => "November"
    case _ => "December"
  }

  /** No two months share a name. */
  lemma MonthNameInjective(m: int, n: int)
    requires January <= m <= December && January <= n <= December
    requires MonthName(m) == MonthName(n)
    ensures m == n
  {
  }

  /** Anchors of the weekday computation against known dates. */
  lemma KnownWeekdays()
    ensures Weekday(Date(1, 1, 1)) == Monday
    ensures Weekday(Date(2024, 1, 1)) == Monday
    ensures Weekday(Date(2024, 2, 1)) == 4
    ensures Weekday(Date(2024, 12, 1)) == Sunday
    ensures Weekday(Date(2000, 2, 29)) == 2
  {
  }
}
