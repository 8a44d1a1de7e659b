/**
 * The proleptic Gregorian calendar that pandas timestamps follow.
 *
 * A day is identified by its day number: the count of days since
 * 1970-01-01 (negative before it). `FromDays` and `ToDays` convert
 * between day numbers and (year, month, day) dates, `Weekday` gives the
 * Monday = 0 weekday, and `DateKey` the integer YYYYMMDD key that the
 * warehouse uses for its date dimension.
 */
module Calendar {

  /** Nanoseconds in one calendar day: timestamps are datetime64[ns] values. */
  const NanosPerDay: int := 86_400_000_000_000

  /** Days from 0001-01-01 to 1970-01-01 are not needed; this is the epoch year. */
  const EpochYear: int := 1970

  predicate IsLeapYear(y: int) {
    y % 4 == 0 && (y % 100 != 0 || y % 400 == 0)
  }

  function DaysInYear(y: int): int {
    if IsLeapYear(y) then 366 else 365
  }

  function DaysInMonth(y: int, m: int): int
    requires 1 <= m <= 12
  {
    if m == 2 then (if IsLeapYear(y) then 29 else 28)
    else if m == 4 || m == 6 || m == 9 || m == 11 then 30
    else 31
  }

  datatype Date = Date(year: int, month: int, day: int)

  predicate ValidDate(d: Date) {
    1 <= d.month <= 12 && 1 <= d.day <= DaysInMonth(d.year, d.month)
  }

  /** Days of a common year before the first of each month; index 12 is the whole year. */
  const CumulativeDays: seq<int> := [0, 31, 59, 90, 120, 151, 181, 212, 243, 273, 304, 334, 365]

  /** Days of year `y` before the first of month `m`; `m == 13` gives the whole year. */
  function DaysBeforeMonth(y: int, m: int): int
    requires 1 <= m <= 13
  {
    CumulativeDays[m - 1] + (if m > 2 && IsLeapYear(y) then 1 else 0)
  }

  lemma DaysBeforeMonthStep(y: int, m: int)
    requires 1 <= m <= 12
    ensures DaysBeforeMonth(y, m + 1) == DaysBeforeMonth(y, m) + DaysInMonth(y, m)
    ensures DaysBeforeMonth(y, 13) == DaysInYear(y)
  {
  }

  /** Leap years among the years before `y` (counted from year 1, floor-wise for earlier years). */
  function LeapsBefore(y: int): int {
    (y - 1) / 4 - (y - 1) / 100 + (y - 1) / 400
  }

  /** Day number of January 1st of year `y`: whole years counted from the epoch year. */
  function YearStart(y: int): int
    decreases if y < EpochYear then EpochYear - y else y - EpochYear
  {
    if y == EpochYear then 0
    else if y > EpochYear then YearStart(y - 1) + DaysInYear(y - 1)
    else YearStart(y + 1) - DaysInYear(y)
  }

  lemma YearStartStep(y: int)
    ensures YearStart(y + 1) == YearStart(y) + DaysInYear(y)
  {
  }

  lemma MulAtLeast(d: int, k: int)
    requires d >= 1 && k > 0
    ensures d * k >= k
  {
    assert d * k == k + (d - 1) * k;
  }

  /** Euclidean division is determined by any quotient and remainder in range. */
  lemma DivModUnique(a: int, k: int, q: int, r: int)
    requires k > 0 && a == q * k + r && 0 <= r < k
    ensures a / k == q && a % k == r
  {
    var q', r' := a / k, a % k;
    assert (q' - q) * k == r - r' by {
      assert q' * k + r' == q * k + r;
    }
    if q' > q {
      MulAtLeast(q' - q, k);
    } else if q' < q {
      MulAtLeast(q - q', k);
    }
  }

  /** Stepping from y - 1 to y passes one multiple of k exactly when k divides y. */
  lemma DivStep(y: int, k: int)
    requires k > 0
    ensures y / k - (y - 1) / k == if y % k == 0 then 1 else 0
  {
    var q, r := y / k, y % k;
    if r == 0 {
      DivModUnique(y - 1, k, q - 1, k - 1);
    } else {
      DivModUnique(y - 1, k, q, r - 1);
    }
  }

  /** The number of leap years before year `y` moves by one exactly across a leap year. */
  lemma LeapsBeforeStep(y: int)
    ensures LeapsBefore(y + 1) == LeapsBefore(y) + (if IsLeapYear(y) then 1 else 0)
  {
    DivStep(y, 4);
    DivStep(y, 100);
    DivStep(y, 400);
    if y % 100 == 0 {
      DivModUnique(y, 4, 25 * (y / 100), 0);
    }
    if y % 400 == 0 {
      DivModUnique(y, 100, 4 * (y / 400), 0);
    }
  }

  /** The closed form of `YearStart`: 365 days a year plus one per leap year in between. */
  lemma {:induction false} YearStartClosedForm(y: int)
    ensures YearStart(y) == 365 * (y - EpochYear) + LeapsBefore(y) - LeapsBefore(EpochYear)
    decreases if y < EpochYear then EpochYear - y else y - EpochYear
  {
    if y > EpochYear {
      YearStartClosedForm(y - 1);
      LeapsBeforeStep(y - 1);
    } else if y < EpochYear {
      YearStartClosedForm(y + 1);
      LeapsBeforeStep(y);
    }
  }

  /** Day number of a valid date: it lies inside the date's own year. */
  function ToDays(d: Date): (n: int)
    requires ValidDate(d)
    ensures YearStart(d.year) <= n < YearStart(d.year + 1)
  {
    DaysBeforeMonthStep(d.year, d.month);
    YearStartStep(d.year);
    YearStart(d.year) + DaysBeforeMonth(d.year, d.month) + d.day - 1
  }

  /** The calendar day after `d`, rolling over month and year ends. */
  function NextDay(d: Date): (r: Date)
    requires ValidDate(d)
    ensures ValidDate(r) && ToDays(r) == ToDays(d) + 1
  {
    DaysBeforeMonthStep(d.year, d.month);
    YearStartStep(d.year);
    if d.day < DaysInMonth(d.year, d.month) then Date(d.year, d.month, d.day + 1)
    else if d.month < 12 then Date(d.year, d.month + 1, 1)
    else Date(d.year + 1, 1, 1)
  }

  /** The calendar day before `d`, rolling back over month and year starts. */
  function PrevDay(d: Date): (r: Date)
    requires ValidDate(d)
    ensures ValidDate(r) && ToDays(r) == ToDays(d) - 1
  {
    DaysBeforeMonthStep(d.year - 1, 12);
    YearStartStep(d.year - 1);
    if d.day > 1 then Date(d.year, d.month, d.day - 1)
    else if d.month > 1 then
      DaysBeforeMonthStep(d.year, d.month - 1);
      Date(d.year, d.month - 1, DaysInMonth(d.year, d.month - 1))
    else Date(d.year - 1, 12, 31)
  }

  /**
   * The calendar date of day number `n`: count whole days forwards or
   * backwards from 1970-01-01.
   */
  function FromDays(n: int): (d: Date)
    ensures ValidDate(d) && ToDays(d) == n
    decreases if n < 0 then -n else n
  {
    if n == 0 then Date(EpochYear, 1, 1)
    else if n > 0 then
      NextDay(FromDays(n - 1))
    else
      PrevDay(FromDays(n + 1))
  }

  /** Later years start after earlier years end. */
  lemma {:induction false} YearStartMonotone(a: int, b: int)
    requires a < b
    ensures YearStart(a + 1) <= YearStart(b)
    decreases b - a
  {
    if a + 1 < b {
      YearStartMonotone(a + 1, b);
      YearStartStep(a + 1);
    }
  }

  /** Distinct valid dates have distinct day numbers. */
  lemma ToDaysInjective(d1: Date, d2: Date)
    requires ValidDate(d1) && ValidDate(d2) && ToDays(d1) == ToDays(d2)
    ensures d1 == d2
  {
    if d1.year < d2.year {
      YearStartMonotone(d1.year, d2.year);
    } else if d2.year < d1.year {
      YearStartMonotone(d2.year, d1.year);
    }
    DaysBeforeMonthStep(d1.year, d1.month);
    DaysBeforeMonthStep(d2.year, d2.month);
  }

  /** Converting a valid date to its day number and back gives the same date. */
  lemma FromDaysToDays(d: Date)
    requires ValidDate(d)
    ensures FromDays(ToDays(d)) == d
  {
    ToDaysInjective(FromDays(ToDays(d)), d);
  }

  /** Consecutive day numbers are consecutive calendar days. */
  lemma FromDaysNext(n: int)
    ensures FromDays(n + 1) == NextDay(FromDays(n))
  {
    ToDaysInjective(FromDays(n + 1), NextDay(FromDays(n)));
  }

  /** Day of the week of day number `n`, Monday = 0 (1970-01-01 was a Thursday). */
  function Weekday(n: int): (w: int)
    ensures 0 <= w < 7
  {
    (n + 3) % 7
  }

  lemma WeekdayNext(n: int)
    ensures Weekday(n + 1) == (Weekday(n) + 1) % 7
  {
  }

  /** The integer YYYYMMDD key of a date: the year in the leading digits, then two digits each of month and day. */
  function DateKey(d: Date): (k: int)
    ensures ValidDate(d) ==> d.year * 10000 + 101 <= k <= d.year * 10000 + 1231
  {
    d.year * 10000 + d.month * 100 + d.day
  }

  /** Reads the year, month and day back out of a YYYYMMDD key. */
  function DecodeDateKey(k: int): Date {
    Date(k / 10000, k / 100 % 100, k % 100)
  }

  lemma DateKeyRoundTrip(d: Date)
    requires ValidDate(d)
    ensures DecodeDateKey(DateKey(d)) == d
  {
    var k := DateKey(d);
    DivModUnique(k, 10000, d.year, d.month * 100 + d.day);
    DivModUnique(k, 100, d.year * 100 + d.month, d.day);
    DivModUnique(d.year * 100 + d.month, 100, d.year, d.month);
  }

  lemma DateKeyNext(d: Date)
    requires ValidDate(d)
    ensures DateKey(d) < DateKey(NextDay(d))
  {
  }

  /** The YYYYMMDD key of day number `n`. */
  function DayKey(n: int): int {
    DateKey(FromDays(n))
  }

  lemma DayKeyNext(n: int)
    ensures DayKey(n) < DayKey(n + 1)
  {
    FromDaysNext(n);
    DateKeyNext(FromDays(n));
  }

  /** Keys grow strictly with the day number, so they order days as the calendar does. */
  lemma {:induction false} DayKeyIncreasing(lo: int, hi: int)
    requires lo < hi
    ensures DayKey(lo) < DayKey(hi)
    decreases hi - lo
  {
    DayKeyNext(lo);
    if lo + 1 < hi {
      DayKeyIncreasing(lo + 1, hi);
    }
  }

  const DayNames: seq<string> := ["Monday", "Tuesday", "Wednesday", "Thursday", "Friday", "Saturday", "Sunday"]

  const MonthNames: seq<string> := ["January", "February", "March", "April", "May", "June", "July",
                                    "August", "September", "October", "November", "December"]

  /** The full English weekday name of a Monday = 0 weekday index. */
  function DayName(w: int): string
    requires 0 <= w < 7
  {
    DayNames[w]
  }

  /** The full English name of month `m`. */
  function MonthName(m: int): string
    requires 1 <= m <= 12
  {
    MonthNames[m - 1]
  }

  /** The `%A` names tell the seven weekdays apart. */
  lemma DayNamesDistinct(v: int, w: int)
    requires 0 <= v < 7 && 0 <= w < 7 && v != w
    ensures DayName(v) != DayName(w)
  {
    var n := DayNames;
    assert n[0][0] == 'M' && n[1][0] == 'T' && n[2][0] == 'W' && n[3][0] == 'T';
    assert n[4][0] == 'F' && n[5][0] == 'S' && n[6][0] == 'S';
    assert n[1][1] == 'u' && n[3][1] == 'h' && n[5][1] == 'a' && n[6][1] == 'u';
  }

  /** The `%B` names tell the twelve months apart. */
  lemma MonthNamesDistinct(m1: int, m2: int)
    requires 1 <= m1 <= 12 && 1 <= m2 <= 12 && m1 != m2
    ensures MonthName(m1) != MonthName(m2)
  {
    var n := MonthNames;
    assert n[0][0] == 'J' && n[1][0] == 'F' && n[2][0] == 'M' && n[3][0] == 'A' && n[4][0] == 'M' && n[5][0] == 'J';
    assert n[6][0] == 'J' && n[7][0] == 'A' && n[8][0] == 'S' && n[9][0] == 'O' && n[10][0] == 'N' && n[11][0] == 'D';
    assert n[0][1] == 'a' && n[5][1] == 'u' && n[6][1] == 'u' && n[5][2] == 'n' && n[6][2] == 'l';
    assert n[2][2] == 'r' && n[4][2] == 'y' && n[3][1] == 'p' && n[7][1] == 'u';
  }

  /** Day number 0 is 1970-01-01, a Thursday. */
  lemma EpochIsThursday()
    ensures ToDays(Date(1970, 1, 1)) == 0 && FromDays(0) == Date(1970, 1, 1)
    ensures DayName(Weekday(0)) == "Thursday"
  {
    assert Weekday(0) == 3;
  }

  /** 2024-01-01 was a Monday; 2000-02-29 exists and 1900-02-29 does not (century rule). */
  lemma KnownDates()
    ensures ToDays(Date(2024, 1, 1)) == 19723
    ensures DayName(Weekday(19723)) == "Monday"
    ensures ValidDate(Date(2000, 2, 29)) && !ValidDate(Date(1900, 2, 29))
  {
    YearStartClosedForm(2024);
    assert LeapsBefore(2024) == 490 && LeapsBefore(1970) == 477;
    assert Weekday(19723) == 0;
  }

  /** The calendar day of a nanosecond timestamp: the time of day is dropped. */
  function DayOf(ts: int): (n: int)
    ensures n * NanosPerDay <= ts < (n + 1) * NanosPerDay
  {
    ts / NanosPerDay
  }

  /** Exactly the timestamps inside one day's window truncate to that day. */
  lemma DayOfWindow(ts: int, n: int)
    ensures DayOf(ts) == n <==> n * NanosPerDay <= ts < (n + 1) * NanosPerDay
  {
    if n * NanosPerDay <= ts < (n + 1) * NanosPerDay {
      DivModUnique(ts, NanosPerDay, n, ts - n * NanosPerDay);
    }
  }
}
