/** The real-time clock: Unix time to calendar registers and back. */
module Rtc {
  import opened Bytes
  import opened Gregorian

  datatype Time = Time(second: Byte, minute: Byte, hour: Byte, weekday: Byte, day: Byte, month: Byte, year: nat)

  /** The clock's registers. */
  datatype Regs = Regs(second: Byte, minute: Byte, hour: Byte, weekday: Byte, day: Byte, month: Byte, year: Byte,
    century: Byte)

  /** `bcd_to_binary` */
  function ToBinary(bcd: Byte): Byte {
    bcd / 16 * 10 + bcd % 16
  }

  /** `binary_to_bcd`, with the 8-bit result */
  function ToBcd(binary: Byte): Byte {
    (binary / 10 * 16 + binary % 10) % 256
  }

  function YearDays(year: nat): nat {
    if Leap(year) then 366 else 365
  }

  function MonthDays(month: nat, leap: bool): nat
    requires month < 12
  {
    if month == 1 then (if leap then 29 else 28)
    else if month == 3 || month == 5 || month == 8 || month == 10 then 30
    else 31
  }

  /** The low byte of a number. */
  function Low(n: nat): Byte {
    if n < 256 then n else n % 256
  }

  /** Its low 16 bits. */
  function Low16(n: nat): nat {
    if n < 65536 then n else n % 65536
  }

  /** Whole years taken off a number of days; years are 16-bit and wrap. */
  function Years(days: nat, year: nat): (nat, nat) {
    if days >= YearDays(year) then Years(days - YearDays(year), Low16(year + 1)) else (days, year)
  }

  function Months(days: nat, leap: bool, month: nat): (nat, nat)
    requires month <= 12
    decreases 12 - month
  {
    if month < 12 && days >= MonthDays(month, leap) then Months(days - MonthDays(month, leap), leap, month + 1)
    else (days, month)
  }

  /** The days from 1970 to the start of a year. */
  function DaysTo(year: nat): nat {
    if year <= 1970 then 0 else DaysTo(year - 1) + YearDays(year - 1)
  }

  /** The days before a month in its year. */
  function DaysBefore(month: nat, leap: bool): nat
    requires month <= 12
  {
    if month == 0 then 0 else DaysBefore(month - 1, leap) + MonthDays(month - 1, leap)
  }

  const END: nat := 4102444800

  /** The first day of the year 65536, which the year counter does not reach. */
  const LAST: nat := 23217004

  lemma {:induction false} DaysToCivil(year: nat)
    requires 1970 <= year
    ensures DaysTo(year) == Civil(year, 1, 1)
  {
    if year > 1970 {
      DaysToCivil(year - 1);
      YearLength(year - 1);
    }
  }

  lemma {:induction false} BeforeIs(month: nat, leap: bool)
    requires month < 12
    ensures DaysBefore(month, leap) ==
      if month < 2 then 31 * month else (153 * month - 304) / 5 + if leap then 60 else 59
  {
    if month > 0 { BeforeIs(month - 1, leap); }
  }

  lemma MonthsCivil(year: nat, month: nat)
    requires month < 12
    ensures Civil(year, month + 1, 1) == Civil(year, 1, 1) + DaysBefore(month, Leap(year))
  {
    MonthStart(year, month + 1);
    BeforeIs(month, Leap(year));
  }

  /** The table of months agrees with the calendar. */
  lemma MonthCivil(year: nat, month: nat)
    requires month < 12
    ensures Next(year, month + 1) == Civil(year, month + 1, 1) + MonthDays(month, Leap(year))
  {
    MonthsCivil(year, month);
    if month < 11 {
      MonthsCivil(year, month + 1);
    } else {
      YearIsMonths();
      YearLength(year);
    }
  }

  /** Every year taken off is a year of the calendar, while the year counter does not wrap. */
  lemma {:induction false} YearsFrom(days: nat, year: nat)
    requires 1970 <= year < 65536 && Civil(year, 1, 1) + days < LAST
    ensures 1970 <= Years(days, year).1 < 65536
    ensures Civil(Years(days, year).1, 1, 1) + Years(days, year).0 == Civil(year, 1, 1) + days
    decreases days
  {
    if days >= YearDays(year) {
      YearLength(year);
      YearsFrom(days - YearDays(year), year + 1);
    }
  }

  lemma {:induction false} YearsBelow(days: nat, year: nat)
    requires year < 65536
    ensures Years(days, year).1 < 65536
    decreases days
  {
    if days >= YearDays(year) { YearsBelow(days - YearDays(year), Low16(year + 1)); }
  }

  lemma {:induction false} YearsLeft(days: nat, year: nat)
    ensures Years(days, year).0 < YearDays(Years(days, year).1)
    decreases days
  {
    if days >= YearDays(year) { YearsLeft(days - YearDays(year), Low16(year + 1)); }
  }

  lemma YearIsMonths()
    ensures DaysBefore(12, true) == 366 && DaysBefore(12, false) == 365
  {
    assert DaysBefore(6, true) == 182 && DaysBefore(6, false) == 181;
  }

  lemma MonthStep(days: nat, leap: bool, month: nat)
    requires month < 12
    ensures DaysBefore(month + 1, leap) == DaysBefore(month, leap) + MonthDays(month, leap)
    ensures Months(days, leap, month) ==
            if days >= MonthDays(month, leap) then Months(days - MonthDays(month, leap), leap, month + 1)
              else (days, month)
  {
  }

  lemma {:induction false} MonthsFrom(days: nat, leap: bool, month: nat, date: (nat, nat))
    requires month < 12 && DaysBefore(month, leap) + days < (if leap then 366 else 365) &&
      date == Months(days, leap, month)
    ensures date.1 < 12 && date.0 < MonthDays(date.1, leap) &&
      DaysBefore(date.1, leap) + date.0 == DaysBefore(month, leap) + days
    decreases 12 - month
  {
    MonthStep(days, leap, month);
    if days >= MonthDays(month, leap) {
      if month == 11 {
        YearIsMonths();
        assert false;
      }
      MonthsFrom(days - MonthDays(month, leap), leap, month + 1, date);
    }
  }

  /** The calendar time `rtc_set_unix` computes, given what is left of the days and the year. */
  function TimeOf(left: nat, year: nat, days: nat, rest: nat): Time
    requires rest < 86400
  {
    var date := Months(left, Leap(year), 0);
    Time(rest % 60, rest % 3600 / 60, rest / 3600, (days + 4) % 7 + 1, Low(date.0 + 1), Low(date.1 + 1), year)
  }

  function Calendar(days: nat, rest: nat): Time
    requires rest < 86400
  {
    TimeOf(Years(days, 1970).0, Years(days, 1970).1, days, rest)
  }

  /** The registers `rtc_set_time` writes. */
  function Registers(t: Time): Regs {
    Regs(ToBcd(t.second), ToBcd(t.minute), ToBcd(t.hour), t.weekday, ToBcd(t.day), ToBcd(t.month),
         ToBcd(t.year % 100), ToBcd(Low(t.year / 100)))
  }

  function ReadHour(hour: Byte, hour24: bool): Byte {
    if hour24 then hour
    else if hour >= 128 && hour - 128 < 12 then hour - 128 + 12
    else if hour == 12 then 0
    else if hour >= 128 then hour - 128
    else hour
  }

  function ReadYear(century: Byte, year: Byte): nat {
    (if century == 0x20 || century == 0x19 then ToBinary(century) else 20) * 100 + ToBinary(year)
  }

  /** The time `rtc_read_time` makes of the registers. */
  function Reading(r: Regs, hour24: bool): Time {
    Time(ToBinary(r.second), ToBinary(r.minute), ReadHour(ToBinary(r.hour), hour24), r.weekday, ToBinary(r.day),
         ToBinary(r.month), ReadYear(r.century, r.year))
  }

  function Day(t: Time): int
    requires 1 <= t.month <= 12
  {
    DaysTo(t.year) + DaysBefore(t.month - 1, Leap(t.year)) + t.day - 1
  }

  function Second(t: Time): nat {
    t.hour * 3600 + t.minute * 60 + t.second
  }

  /** The timestamp `rtc_read_unix` makes of a time with a month and a day. */
  function Unix(t: Time): nat
    requires 1 <= t.month <= 12 && 1 <= t.day
  {
    Day(t) * 86400 + Second(t)
  }

  lemma MonthOk(left: nat, leap: bool, date: (nat, nat))
    requires left < (if leap then 366 else 365) && date == Months(left, leap, 0)
    ensures date.1 < 12 && date.0 < MonthDays(date.1, leap) <= 31 && DaysBefore(date.1, leap) + date.0 == left
  {
    MonthsFrom(left, leap, 0, date);
  }

  /** What is written by `rtc_set_unix` is a date, for every day. */
  lemma DateOk(left: nat, year: nat, days: nat, rest: nat, leap: bool)
    requires rest < 86400 && leap == Leap(year) && left < if leap then 366 else 365
    ensures var t := TimeOf(left, year, days, rest);
      && 1 <= t.month <= 12 && 1 <= t.day <= MonthDays(t.month - 1, leap) <= 31 && t.year == year
      && DaysBefore(t.month - 1, leap) + t.day - 1 == left
  {
    var date := Months(left, leap, 0);
    MonthOk(left, leap, date);
    var t := TimeOf(left, year, days, rest);
    assert t.month == date.1 + 1 && t.day == date.0 + 1;
  }

  lemma ClockOk(left: nat, year: nat, days: nat, rest: nat)
    requires rest < 86400
    ensures var t := TimeOf(left, year, days, rest);
      t.second < 60 && t.minute < 60 && t.hour < 24 && Second(t) == rest && t.hour == rest / 3600
  {
    assert rest % 60 == rest % 3600 % 60;
  }

  lemma BcdBack(b: Byte)
    requires b < 100
    ensures ToBinary(ToBcd(b)) == b
  {
    BcdShows(b);
  }

  lemma CenturyByte(high: nat)
    ensures (high == 19 ==> ToBcd(Low(high)) == 0x19) && (high == 20 ==> ToBcd(Low(high)) == 0x20)
  {
  }

  /** `c` and `b` are the century and year registers, written for `year`. */
  lemma YearBack(year: nat, high: nat, low: nat, c: Byte, b: Byte)
    requires year == high * 100 + low && ToBinary(b) == low < 100
    requires (high == 19 ==> c == 0x19) && (high == 20 ==> c == 0x20)
    ensures 1900 <= ReadYear(c, b) < 2100 && (1900 <= year < 2100 ==> ReadYear(c, b) == year)
  {
    assert ToBinary(0x20) == 20 && ToBinary(0x19) == 19;
  }

  /** What comes back: everything but the century survives, and noon does not in 12-hour mode. */
  lemma ReadBack(t: Time, hour24: bool)
    requires t.second < 60 && t.minute < 60 && t.hour < 24 && t.month <= 12 && t.day <= 31
    ensures var r := Reading(Registers(t), hour24);
      && r.second == t.second && r.minute == t.minute && r.month == t.month && r.day == t.day
      && r.hour == (if !hour24 && t.hour == 12 then 0 else t.hour)
      && 1900 <= r.year < 2100 && (1900 <= t.year < 2100 ==> r.year == t.year)
  {
    BcdBack(t.second);
    BcdBack(t.minute);
    BcdBack(t.hour);
    BcdBack(t.day);
    BcdBack(t.month);
    BcdBack(t.year % 100);
    CenturyByte(t.year / 100);
    YearBack(t.year, t.year / 100, t.year % 100, ToBcd(Low(t.year / 100)), ToBcd(t.year % 100));
  }

  lemma {:induction false} MonthsLeft(month: nat, leap: bool)
    requires month <= 12
    ensures DaysBefore(month, leap) + 28 * (12 - month) <= DaysBefore(12, leap)
    decreases 12 - month
  {
    if month < 12 { MonthsLeft(month + 1, leap); }
  }

  lemma InYear(month: nat, day: nat, leap: bool)
    requires month < 12 && 1 <= day <= MonthDays(month, true)
    ensures DaysBefore(month, leap) + day <= DaysBefore(12, leap)
  {
    MonthsLeft(month, leap);
  }

  /** A date read from the clock lies before 2100. */
  lemma ReadBound(year: nat, month: nat, day: nat)
    requires year < 2100 && month < 12 && 1 <= day <= MonthDays(month, true)
    ensures DaysTo(year) + DaysBefore(month, Leap(year)) + day - 1 < 47482
  {
    YearIsMonths();
    InYear(month, day, Leap(year));
    if year >= 1970 {
      DaysToCivil(year);
      YearLength(year);
      YearOrder(year + 1, 2100);
    }
  }

  lemma Divided(days: nat, rest: nat, day: nat, second: nat)
    requires rest < 86400 && second < 86400
    ensures days * 86400 + rest == day * 86400 + second <==> days == day && rest == second
  {
  }

  /** The day read back is the day written exactly before 2100. */
  lemma DayBack(days: nat, left: nat, year: nat, r: Time)
    requires (left, year) == Years(days, 1970) && 1 <= r.month <= 12 && 1 <= r.day <= MonthDays(r.month - 1, true)
    requires DaysBefore(r.month - 1, Leap(year)) + r.day - 1 == left
    requires 1900 <= r.year < 2100 && (1900 <= year < 2100 ==> r.year == year)
    ensures 0 <= Day(r) && (Day(r) == days <==> days < 47482)
  {
    ReadBound(r.year, r.month - 1, r.day);
    if days < 47482 {
      YearsFrom(days, 1970);
      if year >= 2100 { YearOrder(2100, year); }
      DaysToCivil(year);
    }
  }

  lemma RoundTripParts(days: nat, rest: nat, hour24: bool)
    requires rest < 86400
    ensures var r := Reading(Registers(Calendar(days, rest)), hour24);
      && 1 <= r.month <= 12 && 1 <= r.day
      && (Unix(r) == days * 86400 + rest <==> days * 86400 + rest < END && (hour24 || rest / 3600 != 12))
  {
    var left, year := Years(days, 1970).0, Years(days, 1970).1;
    var t := TimeOf(left, year, days, rest);
    YearsLeft(days, 1970);
    DateOk(left, year, days, rest, Leap(year));
    ClockOk(left, year, days, rest);
    ReadBack(t, hour24);
    var r := Reading(Registers(t), hour24);
    DayBack(days, left, year, r);
    Divided(days, rest, Day(r), Second(r));
  }

  /** The round trip, for every timestamp and both modes: it holds exactly before 2100-01-01, and
      in 12-hour mode exactly outside the hour after noon. */
  lemma RoundTrip(ts: nat, hour24: bool)
    ensures var r := Reading(Registers(Calendar(ts / 86400, ts % 86400)), hour24);
      && 1 <= r.month <= 12 && 1 <= r.day
      && (Unix(r) == ts <==> ts < END && (hour24 || ts % 86400 / 3600 != 12))
  {
    RoundTripParts(ts / 86400, ts % 86400, hour24);
  }

  /** A register shows a number in two decimal digits. */
  predicate Shows(register: Byte, n: int) {
    register / 16 < 10 && register % 16 < 10 && n == register / 16 * 10 + register % 16
  }

  lemma BcdShows(n: Byte)
    requires n < 100
    ensures Shows(ToBcd(n), n)
  {
    var q, r := n / 10, n % 10;
    var b: Byte := 16 * q + r;
    assert ToBcd(n) == b;
    assert b / 16 == q && b % 16 == r;
  }

  /** The registers show the time of day, and a weekday, 1 being Sunday: day 0 was a Thursday. */
  ghost predicate ShowsTime(r: Regs, ts: nat) {
    && Shows(r.hour, ts / 3600 % 24) && Shows(r.minute, ts / 60 % 60) && Shows(r.second, ts % 60)
    && 1 <= r.weekday <= 7 && (r.weekday - 5 - ts / 86400) % 7 == 0
  }

  ghost predicate ShowsDate(r: Regs, year: int, month: int, day: int) {
    && Shows(r.day, day) && Shows(r.month, month) && Shows(r.year, year % 100)
    && (year < 10000 ==> Shows(r.century, year / 100))
  }

  lemma HourOf(ts: nat, days: nat, rest: nat)
    requires ts == days * 86400 + rest && rest < 86400
    ensures ts / 3600 % 24 == rest / 3600
  {
    assert ts / 3600 == days * 24 + rest / 3600;
  }

  lemma MinuteOf(ts: nat, days: nat, rest: nat)
    requires ts == days * 86400 + rest && rest < 86400
    ensures ts / 60 % 60 == rest % 3600 / 60
  {
    var h, s := rest / 3600, rest % 3600;
    assert ts / 60 == (days * 24 + h) * 60 + s / 60;
  }

  lemma SecondOf(ts: nat, days: nat, rest: nat)
    requires ts == days * 86400 + rest && rest < 86400
    ensures ts % 60 == rest % 60
  {
    assert ts == days * 1440 * 60 + rest;
  }

  lemma WeekdayOf(days: nat)
    ensures ((days + 4) % 7 + 1 - 5 - days) % 7 == 0
  {
    assert (days + 4) % 7 == days + 4 - (days + 4) / 7 * 7;
  }

  lemma TimeShown(t: Time, ts: nat, days: nat, rest: nat)
    requires days == ts / 86400 && rest == ts % 86400 && t.hour == rest / 3600 && t.minute == rest % 3600 / 60
    requires t.second == rest % 60 && t.weekday == (days + 4) % 7 + 1
    ensures ShowsTime(Registers(t), ts)
  {
    HourOf(ts, days, rest);
    MinuteOf(ts, days, rest);
    SecondOf(ts, days, rest);
    WeekdayOf(days);
    BcdShows(t.second);
    BcdShows(t.minute);
    BcdShows(t.hour);
  }

  lemma CenturyShown(high: nat)
    requires high < 100
    ensures Shows(ToBcd(Low(high)), high)
  {
    BcdShows(high);
  }

  lemma DateShown(t: Time)
    requires t.day < 100 && t.month < 100
    ensures ShowsDate(Registers(t), t.year, t.month, t.day)
  {
    BcdShows(t.day);
    BcdShows(t.month);
    BcdShows(t.year % 100);
    if t.year < 10000 { CenturyShown(t.year / 100); }
  }

  /** The day `left` of a year is a date of the calendar. */
  lemma DateCivil(left: nat, year: nat, month: nat, day: nat)
    requires 1 <= month <= 12 && 1 <= day <= MonthDays(month - 1, Leap(year))
    requires DaysBefore(month - 1, Leap(year)) + day - 1 == left
    ensures IsDate(year, month, day) && Civil(year, month, day) == Civil(year, 1, 1) + left
  {
    MonthCivil(year, month - 1);
    MonthsCivil(year, month - 1);
  }

  /** It is the date of the timestamp exactly while the 16-bit year counter does not wrap. */
  lemma DateIs(days: nat, left: nat, year: nat, month: nat, day: nat)
    requires (left, year) == Years(days, 1970) && IsDate(year, month, day)
    requires Civil(year, month, day) == Civil(year, 1, 1) + left
    ensures Civil(year, month, day) == days <==> days < LAST
  {
    if days < LAST {
      YearsFrom(days, 1970);
    } else {
      YearsBelow(days, 1970);
      NextOrder(year, month, 65536, 1);
    }
  }

  /** The date written is a date of the calendar, and the timestamp's before the year 65536. */
  lemma DateWritten(t: Time, days: nat, left: nat, rest: nat)
    requires rest < 86400 && left == Years(days, 1970).0 && t == TimeOf(left, Years(days, 1970).1, days, rest)
    ensures IsDate(t.year, t.month, t.day) && (Civil(t.year, t.month, t.day) == days <==> days < LAST)
    ensures ShowsDate(Registers(t), t.year, t.month, t.day)
  {
    YearsLeft(days, 1970);
    DateOk(left, t.year, days, rest, Leap(t.year));
    DateCivil(left, t.year, t.month, t.day);
    DateIs(days, left, t.year, t.month, t.day);
    DateShown(t);
  }

  /** The weekday goes up by one each day, from Saturday to Sunday, and starts with Thursday. */
  lemma Weekdays(ts: nat)
    ensures Calendar(0, 0).weekday == 5
    ensures Calendar((ts + 86400) / 86400, (ts + 86400) % 86400).weekday ==
      Calendar(ts / 86400, ts % 86400).weekday % 7 + 1
  {
    assert (ts + 86400) / 86400 == ts / 86400 + 1;
  }

  /** The timestamp of a date from 1970 on is that of the calendar. */
  lemma UnixCivil(t: Time)
    requires t.year >= 1970 && 1 <= t.month <= 12 && 1 <= t.day
    ensures Unix(t) == Civil(t.year, t.month, t.day) * 86400 + t.hour * 3600 + t.minute * 60 + t.second
  {
    DaysToCivil(t.year);
    MonthsCivil(t.year, t.month - 1);
    assert Day(t) == Civil(t.year, t.month, t.day);
  }

  lemma YearShown(century: Byte, register: Byte, year: nat)
    requires 1970 <= year < 2100 && Shows(register, year % 100) && Shows(century, year / 100)
    ensures ReadYear(century, register) == year
  {
    assert year / 100 == 19 || year / 100 == 20;
  }

  /** Whatever date from 1970 to 2099 the registers show is the date of the timestamp read. */
  lemma ReadsDate(r: Regs, hour24: bool, year: nat, month: nat, day: nat)
    requires 1970 <= year < 2100 && 1 <= month <= 12 && 1 <= day && ShowsDate(r, year, month, day)
    ensures var t := Reading(r, hour24);
      && t.month == month && t.day == day && t.year == year
      && Unix(t) == Civil(year, month, day) * 86400 + t.hour * 3600 + t.minute * 60 + t.second
  {
    YearShown(r.century, r.year, year);
    UnixCivil(Reading(r, hour24));
  }

  /** The time of day read in 24-hour mode is the one the registers show. */
  lemma ReadsTime(r: Regs, hour: nat, minute: nat, second: nat)
    requires Shows(r.hour, hour) && Shows(r.minute, minute) && Shows(r.second, second)
    ensures var t := Reading(r, true); t.hour == hour && t.minute == minute && t.second == second
  {
  }

  lemma Decoded(register: Byte, digits: Byte, hour: nat, afternoon: bool)
    requires register == (if afternoon then 128 else 0) + digits && digits < 128 && Shows(digits, hour)
    ensures ToBinary(register) == (if afternoon then 80 else 0) + hour
  {
    var q, r := digits / 16, digits % 16;
    if afternoon { assert register == (8 + q) * 16 + r; }
  }

  /** In 12-hour mode, where bit 7 of the register stands for the afternoon, the hour read is right exactly
      in the morning: the digits are decoded before the bit is tested. */
  lemma ReadsHour(register: Byte, digits: Byte, hour: nat, afternoon: bool)
    requires register == (if afternoon then 128 else 0) + digits && digits < 128
    requires 1 <= hour <= 12 && Shows(digits, hour)
    ensures ReadHour(ToBinary(register), false) == (if hour == 12 then 0 else hour) + (if afternoon then 12 else 0)
      <==> !afternoon
  {
    Decoded(register, digits, hour, afternoon);
  }

  /** The year loop of `rtc_set_unix`. */
  method YearLoop(total: nat) returns (days: nat, year: nat)
    ensures (days, year) == Years(total, 1970)
  {
    days, year := total, 1970;
    while days >= 365
      invariant Years(days, year) == Years(total, 1970)
    {
      var inYear := if Leap(year) then 366 else 365;
      if days >= inYear {
        days := days - inYear;
        year := Low16(year + 1);
      } else {
        break;
      }
    }
  }

  /** The month loop of `rtc_set_unix`. */
  method MonthLoop(total: nat, leap: bool) returns (days: nat, month: nat)
    ensures month <= 12 && (days, month) == Months(total, leap, 0)
  {
    days, month := total, 0;
    while month < 12
      invariant month <= 12 && Months(days, leap, month) == Months(total, leap, 0)
    {
      var inMonth := MonthDays(month, leap);
      if days >= inMonth {
        days := days - inMonth;
      } else {
        break;
      }
      month := month + 1;
    }
  }

  /** The year loop of `rtc_read_unix`. */
  method DaysOfYears(to: nat) returns (days: nat)
    ensures days == DaysTo(to)
  {
    days := 0;
    var year := 1970;
    while year < to
      invariant days == DaysTo(year) && (year <= to || year == 1970)
    {
      days := days + 365;
      if Leap(year) { days := days + 1; }
      year := year + 1;
    }
  }

  /** The month loop of `rtc_read_unix`. */
  method DaysOfMonths(before: nat, to: nat, leap: bool) returns (days: nat)
    requires to <= 12
    ensures days == before + DaysBefore(to, leap)
  {
    days := before;
    for month := 0 to to
      invariant days == before + DaysBefore(month, leap)
    {
      days := days + MonthDays(month, false);
      if month == 1 && leap { days := days + 1; }
    }
  }

  class Clock {
    var regs: Regs
    var hour24: bool

    constructor (regs: Regs, hour24: bool)
      ensures this.regs == regs && this.hour24 == hour24
    {
      this.regs, this.hour24 := regs, hour24;
    }

    /** The hour that `rtc_read_time` makes of the register. */
    method ReadHours(register: Byte) returns (hour: Byte)
      ensures hour == ReadHour(register, hour24)
    {
      hour := register;
      if !hour24 {
        var hour12, pm := hour % 128, hour >= 128;
        if pm && hour12 < 12 {
          hour := hour12 + 12;
        } else if !pm && hour12 == 12 {
          hour := 0;
        } else {
          hour := hour12;
        }
      }
    }

    /** `rtc_read_time` */
    method ReadTime() returns (t: Time)
      ensures t == Reading(regs, hour24)
    {
      var century: Byte := 20;
      if regs.century == 0x20 || regs.century == 0x19 {
        century := ToBinary(regs.century);
      }
      var hour := ReadHours(ToBinary(regs.hour));
      t := Time(ToBinary(regs.second), ToBinary(regs.minute), hour, regs.weekday, ToBinary(regs.day),
                ToBinary(regs.month), century * 100 + ToBinary(regs.year));
    }

    /** `rtc_read_unix`, for registers that hold a date. */
    method ReadUnix() returns (ts: nat)
      requires 1 <= Reading(regs, hour24).month <= 12 && 1 <= Reading(regs, hour24).day
      ensures ts == Unix(Reading(regs, hour24))
      ensures var t := Reading(regs, hour24); t.year >= 1970 ==>
        ts == Civil(t.year, t.month, t.day) * 86400 + t.hour * 3600 + t.minute * 60 + t.second
    {
      var t := ReadTime();
      var years := DaysOfYears(t.year);
      ts := DaysOfMonths(years, t.month - 1, Leap(t.year));
      ts := (ts + t.day - 1) * 86400 + t.hour * 3600 + t.minute * 60 + t.second;
      if t.year >= 1970 { UnixCivil(t); }
    }

    /** `rtc_set_time` */
    method SetTime(t: Time)
      modifies this`regs
      ensures regs == Registers(t)
    {
      regs := Regs(ToBcd(t.second), ToBcd(t.minute), ToBcd(t.hour), t.weekday, ToBcd(t.day), ToBcd(t.month),
                   ToBcd(t.year % 100), ToBcd(Low(t.year / 100)));
    }

    /** `rtc_set_unix`: the registers show the date and the time of day of the timestamp. */
    method SetUnix(ts: nat) returns (ghost y: nat, ghost m: nat, ghost d: nat)
      modifies this`regs
      ensures regs == Registers(Calendar(ts / 86400, ts % 86400))
      ensures ShowsTime(regs, ts) && ShowsDate(regs, y, m, d)
      ensures IsDate(y, m, d) && (Civil(y, m, d) == ts / 86400 <==> ts / 86400 < LAST)
    {
      var rest := ts % 86400;
      var days, year := YearLoop(ts / 86400);
      var month;
      days, month := MonthLoop(days, Leap(year));
      SetTime(Time(rest % 60, rest % 3600 / 60, rest / 3600, (ts / 86400 + 4) % 7 + 1, Low(days + 1), Low(month + 1),
        year));
      ghost var t := Calendar(ts / 86400, ts % 86400);
      y, m, d := t.year, t.month, t.day;
      TimeShown(t, ts, ts / 86400, ts % 86400);
      DateWritten(t, ts / 86400, Years(ts / 86400, 1970).0, ts % 86400);
    }

    /** The clock is set and read back with no tick in between. */
    method SetAndRead(ts: nat) returns (back: nat)
      modifies this`regs
      ensures back == ts <==> ts < END && (hour24 || ts % 86400 / 3600 != 12)
    {
      RoundTrip(ts, hour24);
      ghost var y, m, d := SetUnix(ts);
      back := ReadUnix();
    }
  }

  /** Noon of the first day and the first second of 2100: what is read is not what was set. */
  method NoonAndCentury(regs: Regs) returns (noon: nat, late: nat)
    ensures noon != 43200 && late != END
  {
    var clock := new Clock(regs, false);
    noon := clock.SetAndRead(43200);
    late := clock.SetAndRead(END);
  }
}
