/** Civil dates the way the daily start uses them (src/main/daily-start-scheduler.ts:26-64): the Gregorian
    calendar of ECMAScript's date arithmetic, and dates as zero-padded ISO strings that the program compares as
    strings. */
module Calendar {

  // ---------------------------------------------------------------- the Gregorian calendar

  datatype Civil = Civil(year: int, month: int, day: int)

  predicate IsLeap(y: int) { y % 4 == 0 && (y % 100 != 0 || y % 400 == 0) }

  function DaysInMonth(y: int, m: int): int
    requires 1 <= m <= 12
  {
    if m == 2 then (if IsLeap(y) then 29 else 28)
    else if m == 4 || m == 6 || m == 9 || m == 11 then 30 else 31
  }

  function DaysBeforeMonth(y: int, m: int): int
    requires 1 <= m <= 13
  {
    if m == 1 then 0 else DaysBeforeMonth(y, m - 1) + DaysInMonth(y, m - 1)
  }

  /** ECMAScript's DayFromYear: days from the epoch to the first of January. */
  function DayFromYear(y: int): int {
    365 * (y - 1970) + (y - 1969) / 4 - (y - 1901) / 100 + (y - 1601) / 400
  }

  predicate Valid(c: Civil) { 1 <= c.month <= 12 && 1 <= c.day <= DaysInMonth(c.year, c.month) }

  /** ECMAScript's MakeDay: months and days beyond their range carry over. */
  function MakeDay(y: int, monthIndex: int, d: int): int {
    var year := y + monthIndex / 12;
    DayFromYear(year) + DaysBeforeMonth(year, monthIndex % 12 + 1) + d - 1
  }

  function DayNumber(c: Civil): int { MakeDay(c.year, c.month - 1, c.day) }

  lemma Step4(a: int)
    ensures (a + 1) / 4 == a / 4 + (if (a + 1) % 4 == 0 then 1 else 0) && (a + 1) % 4 == (a + 1969) % 4
  {}

  lemma Step100(a: int)
    ensures (a + 1) / 100 == a / 100 + (if (a + 1) % 100 == 0 then 1 else 0) && (a + 1) % 100 == (a + 1901) % 100
  {}

  lemma Step400(a: int)
    ensures (a + 1) / 400 == a / 400 + (if (a + 1) % 400 == 0 then 1 else 0) && (a + 1) % 400 == (a + 1601) % 400
  {}

  lemma Centuries(y: int)
    ensures (y % 400 == 0 ==> y % 100 == 0) && (y % 100 == 0 ==> y % 4 == 0)
  {}

  lemma YearLength(y: int)
    ensures DayFromYear(y + 1) == DayFromYear(y) + (if IsLeap(y) then 366 else 365)
  {
    Step4(y - 1969);
    Step100(y - 1901);
    Step400(y - 1601);
    Centuries(y);
  }

  lemma MonthTable(y: int)
    ensures DaysBeforeMonth(y, 13) == if IsLeap(y) then 366 else 365
  {
    hide IsLeap;
    assert DaysBeforeMonth(y, 2) == 31;
    assert DaysBeforeMonth(y, 3) == if IsLeap(y) then 60 else 59;
    assert DaysBeforeMonth(y, 5) == DaysBeforeMonth(y, 3) + 61;
    assert DaysBeforeMonth(y, 7) == DaysBeforeMonth(y, 5) + 61;
    assert DaysBeforeMonth(y, 9) == DaysBeforeMonth(y, 7) + 62;
    assert DaysBeforeMonth(y, 11) == DaysBeforeMonth(y, 9) + 61;
    assert DaysBeforeMonth(y, 13) == DaysBeforeMonth(y, 11) + 61;
  }

  lemma {:induction false} MonthsMonotone(y: int, m: int, k: int)
    requires 1 <= m <= k <= 13
    ensures DaysBeforeMonth(y, k) >= DaysBeforeMonth(y, m) + 28 * (k - m)
    decreases k
  {
    if m < k { MonthsMonotone(y, m, k - 1); }
  }

  lemma {:induction false} YearsMonotone(x: int, y: int)
    requires x <= y
    ensures DayFromYear(y) >= DayFromYear(x) + 365 * (y - x)
    decreases y - x
  {
    hide DayFromYear, IsLeap;
    if x < y {
      YearsMonotone(x, y - 1);
      YearLength(y - 1);
    }
  }

  /** The year a day falls into, searched from `guess`. */
  function YearFrom(n: int, guess: int): (y: int)
    ensures DayFromYear(y) <= n < DayFromYear(y + 1)
    decreases if n < DayFromYear(guess) then DayFromYear(guess) - n
              else if n >= DayFromYear(guess + 1) then n - DayFromYear(guess + 1) + 1 else 0
  {
    hide DayFromYear, IsLeap;
    YearLength(guess);
    YearLength(guess - 1);
    YearLength(guess + 1);
    if n < DayFromYear(guess) then YearFrom(n, guess - 1)
    else if n >= DayFromYear(guess + 1) then YearFrom(n, guess + 1)
    else guess
  }

  function MonthFrom(y: int, dayInYear: int, m: int): (month: int)
    requires 1 <= m <= 12 && DaysBeforeMonth(y, m) <= dayInYear < DaysBeforeMonth(y, 13)
    ensures 1 <= month <= 12 && DaysBeforeMonth(y, month) <= dayInYear < DaysBeforeMonth(y, month + 1)
    decreases 12 - m
  {
    if dayInYear < DaysBeforeMonth(y, m + 1) then m else MonthFrom(y, dayInYear, m + 1)
  }

  /** The date of a day number: what `getFullYear`, `getMonth` and `getDate` read off. */
  function CivilOf(n: int): Civil {
    hide DayFromYear, IsLeap;
    var year := YearFrom(n, 1970);
    YearLength(year);
    MonthTable(year);
    var month := MonthFrom(year, n - DayFromYear(year), 1);
    Civil(year, month, n - DayFromYear(year) - DaysBeforeMonth(year, month) + 1)
  }

  /** Every day number is the number of a valid date. */
  lemma CivilOfIsValid(n: int)
    ensures Valid(CivilOf(n)) && DayNumber(CivilOf(n)) == n
  {
    hide DayFromYear, IsLeap, YearFrom, MonthFrom;
    var c := CivilOf(n);
    YearLength(c.year);
    MonthTable(c.year);
    assert Valid(c);
    DayNumberOfValid(c);
    hide CivilOf, DayNumber, DaysBeforeMonth;
  }

  lemma MonthIndex(m: int)
    requires 1 <= m <= 12
    ensures (m - 1) / 12 == 0 && (m - 1) % 12 == m - 1
  {}

  lemma DayNumberOfValid(c: Civil)
    requires Valid(c)
    ensures DayNumber(c) == DayFromYear(c.year) + DaysBeforeMonth(c.year, c.month) + c.day - 1
  {
    hide DayFromYear, IsLeap, DaysBeforeMonth;
    MonthIndex(c.month);
  }

  /** Valid dates are ordered like their day numbers. */
  lemma DayNumberOrders(a: Civil, b: Civil)
    requires Valid(a) && Valid(b)
    ensures DayNumber(a) < DayNumber(b) <==>
            a.year < b.year || (a.year == b.year && (a.month < b.month || (a.month == b.month && a.day < b.day)))
  {
    hide DayFromYear, IsLeap, DayNumber;
    DayNumberOfValid(a);
    DayNumberOfValid(b);
    if a.year != b.year {
      YearApart(a, b);
      YearApart(b, a);
    } else if a.month < b.month {
      MonthsMonotone(a.year, a.month + 1, b.month);
    } else if b.month < a.month {
      MonthsMonotone(a.year, b.month + 1, a.month);
    }
  }

  lemma YearApart(a: Civil, b: Civil)
    requires Valid(a) && Valid(b)
    ensures a.year < b.year ==> DayNumber(a) < DayNumber(b)
  {
    hide DayFromYear, IsLeap, DayNumber;
    DayNumberOfValid(a);
    DayNumberOfValid(b);
    if a.year < b.year {
      MonthTable(a.year);
      MonthsMonotone(a.year, a.month + 1, 13);
      MonthsMonotone(b.year, 1, b.month);
      YearLength(a.year);
      YearsMonotone(a.year + 1, b.year);
    }
  }

  lemma CivilRoundTrip(c: Civil)
    requires Valid(c)
    ensures CivilOf(DayNumber(c)) == c
  {
    hide DayNumber, CivilOf;
    var d := CivilOf(DayNumber(c));
    CivilOfIsValid(DayNumber(c));
    DayNumberOrders(c, d);
    DayNumberOrders(d, c);
  }

  lemma NextMonth(y: int, m: int)
    requires 1 <= m < 12
    ensures DayNumber(Civil(y, m + 1, 1)) - DayNumber(Civil(y, m, 1)) == DaysInMonth(y, m)
  {
    hide DayFromYear, DaysInMonth;
  }

  lemma NextYear(y: int)
    ensures DayNumber(Civil(y + 1, 1, 1)) - DayNumber(Civil(y, 12, 1)) == 31
  {
    YearLength(y);
    MonthTable(y);
    assert DaysBeforeMonth(y, 13) == DaysBeforeMonth(y, 12) + 31;
    hide DayFromYear, IsLeap;
  }

  lemma EpochYear()
    ensures DayFromYear(1970) == 0
  {
    assert 1 / 4 == 0 && 69 / 100 == 0 && 369 / 400 == 0;
  }

  lemma EpochIsZero()
    ensures DayNumber(Civil(1970, 1, 1)) == 0
  {
    hide DayFromYear;
    EpochYear();
    assert 0 / 12 == 0 && 0 % 12 == 0;
    assert DaysBeforeMonth(1970, 1) == 0;
  }

  /** The lengths of the months. */
  lemma MonthDays(y: int, m: int)
    requires 1 <= m <= 12
    ensures DaysInMonth(y, m) == [31, if IsLeap(y) then 29 else 28, 31, 30, 31, 30, 31, 31, 30, 31, 30, 31][m - 1]
  {
    hide IsLeap;
  }

  /** The first of a month is as many days after the first of the month before as that has, and days are counted from
      the first of January 1970. */
  lemma MonthLength(y: int, m: int)
    requires 1 <= m <= 12
    ensures DayNumber(if m == 12 then Civil(y + 1, 1, 1) else Civil(y, m + 1, 1)) - DayNumber(Civil(y, m, 1))
            == DaysInMonth(y, m)
    ensures DayNumber(Civil(1970, 1, 1)) == 0
  {
    hide DayNumber;
    EpochIsZero();
    if m == 12 { NextYear(y); } else { NextMonth(y, m); }
  }
}
