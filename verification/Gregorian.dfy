/** The Gregorian calendar as a closed formula over years that start in March, with no table of months. */
module Gregorian {
  /** The number of days from 1970-01-01 to a date; `month` and `day` count from 1. */
  function Civil(year: int, month: int, day: int): int {
    var y, m := if month <= 2 then year - 1 else year, if month <= 2 then month + 9 else month - 3;
    365 * y + y / 4 - y / 100 + y / 400 + (153 * m + 2) / 5 + day - 719469
  }

  /** The first day of the next month. */
  function Next(year: int, month: int): int {
    if month == 12 then Civil(year + 1, 1, 1) else Civil(year, month + 1, 1)
  }

  predicate IsDate(year: int, month: int, day: int) {
    1 <= month <= 12 && 1 <= day && Civil(year, month, day) < Next(year, month)
  }

  predicate Leap(year: int) {
    (year % 4 == 0 && year % 100 != 0) || year % 400 == 0
  }

  lemma Quotients(y: int)
    ensures y / 4 - (y - 1) / 4 == if y % 4 == 0 then 1 else 0
    ensures y / 100 - (y - 1) / 100 == if y % 100 == 0 then 1 else 0
    ensures y / 400 - (y - 1) / 400 == if y % 400 == 0 then 1 else 0
  {
  }

  lemma Multiples(y: int)
    ensures (y % 400 == 0 ==> y % 100 == 0) && (y % 100 == 0 ==> y % 4 == 0)
  {
  }

  /** A year has 365 days, or 366 in a leap year. */
  lemma YearLength(y: int)
    ensures Civil(y + 1, 1, 1) == Civil(y, 1, 1) + if Leap(y) then 366 else 365
  {
    Quotients(y);
    Multiples(y);
  }

  lemma {:induction false} YearOrder(y: int, z: int)
    requires y <= z
    ensures Civil(y, 1, 1) + (z - y) * 365 <= Civil(z, 1, 1)
    decreases z - y
  {
    if y < z {
      YearOrder(y, z - 1);
      YearLength(z - 1);
    }
  }

  /** Within a year: a leap year has one more day before March. */
  lemma MonthStart(y: int, m: int)
    requires 1 <= m <= 12
    ensures var late := if m > 2 && Leap(y) then 1 else 0;
      Civil(y, m, 1) == Civil(y, 1, 1) + late + (if m <= 2 then 31 * (m - 1) else (153 * m - 457) / 5 + 59)
  {
    Quotients(y);
    Multiples(y);
  }

  lemma NextOrder(y: int, m: int, z: int, n: int)
    requires 1 <= m <= 12 && 1 <= n <= 12 && (y < z || (y == z && m < n))
    ensures Next(y, m) <= Civil(z, n, 1)
  {
    MonthStart(y, if m == 12 then 12 else m + 1);
    MonthStart(z, n);
    YearLength(y);
    if y < z { YearOrder(y + 1, z); }
  }

  /** A number of days is the number of one date only. */
  lemma DateUnique(y: int, m: int, d: int, z: int, n: int, e: int)
    requires IsDate(y, m, d) && IsDate(z, n, e) && Civil(y, m, d) == Civil(z, n, e)
    ensures y == z && m == n && d == e
  {
    if y < z || (y == z && m < n) {
      NextOrder(y, m, z, n);
    } else if z < y || (y == z && n < m) {
      NextOrder(z, n, y, m);
    }
  }
}
