/** FAT timestamps and Unix time (misc.c), against a calendar defined year by year and
    month by month. */
module Timestamps {
  import opened Arith

  /** Linear day numbers of the firsts of the months in non-leap years; months 13 to 15 do
      not exist but fit into the date's four bits. */
  const DAYS_IN_YEAR: seq<int> := [0, 0, 31, 59, 90, 120, 151, 181, 212, 243, 273, 304, 334, 0, 0, 0]

  /** What the driver stores: 16-bit date and time and the centisecond byte. */
  datatype Stamp = Stamp(date: int, time: int, cs: int)

  /** The same, taken apart: the year counts from 1980, `two` counts two-second steps. */
  datatype Civil = Civil(year: int, month: int, day: int, hour: int, minute: int, two: int, cs: int)

  datatype UnixTime = UnixTime(sec: int, nsec: int)

  // ----- the calendar

  predicate Gregorian(year: int) { year % 4 == 0 && (year % 100 != 0 || year % 400 == 0) }

  function YearLength(y: nat): nat { if Gregorian(1980 + y) then 366 else 365 }

  function MonthLength(y: nat, m: nat): nat {
    if m == 2 then (if Gregorian(1980 + y) then 29 else 28)
    else if m == 4 || m == 6 || m == 9 || m == 11 then 30
    else 31
  }

  function DaysBeforeYear(y: nat): nat {
    if y == 0 then 0 else DaysBeforeYear(y - 1) + YearLength(y - 1)
  }

  function DaysBeforeMonth(y: nat, m: nat): nat {
    if m <= 1 then 0 else DaysBeforeMonth(y, m - 1) + MonthLength(y, m - 1)
  }

  /** Days from 1 January 1980 to day d of month m of year y. */
  function DayNumber(y: nat, m: nat, d: nat): int { DaysBeforeYear(y) + DaysBeforeMonth(y, m) + d - 1 }

  predicate ValidDate(c: Civil) {
    0 <= c.year < 128 && 1 <= c.month <= 12 && 1 <= c.day <= MonthLength(c.year, c.month)
  }

  predicate ValidTime(c: Civil) {
    0 <= c.hour < 24 && 0 <= c.minute < 60 && 0 <= c.two < 30 && 0 <= c.cs < 200
  }

  function SecondOf(c: Civil): int { c.hour * 3600 + c.minute * 60 + c.two * 2 }

  /** The moment denoted, in centiseconds from 1 January 1980. */
  function Moment(c: Civil): int
    requires ValidDate(c)
  {
    (DayNumber(c.year, c.month, c.day) * 86400 + SecondOf(c)) * 100 + c.cs
  }

  // ----- the packed form

  function Pack(c: Civil): Stamp {
    Stamp(c.year * 512 + c.month * 32 + c.day, c.hour * 2048 + c.minute * 32 + c.two, c.cs)
  }

  function Unpack(s: Stamp): Civil {
    Civil(s.date / 512, s.date / 32 % 16, s.date % 32, s.time / 2048, s.time / 32 % 64, s.time % 32, s.cs)
  }

  /** A stamp of an existing date and time. */
  predicate ValidStamp(s: Stamp) {
    0 <= s.date < 65536 && 0 <= s.time < 65536 && ValidDate(Unpack(s)) && ValidTime(Unpack(s))
  }

  predicate StampLess(a: Stamp, b: Stamp) {
    a.date < b.date || (a.date == b.date && (a.time < b.time || (a.time == b.time && a.cs < b.cs)))
  }

  // ----- fat_time_fat2unix

  predicate IsLeapYear(y: int) { y % 4 == 0 && y != 120 }

  function LeapDaysBefore(year: int): int {
    (year + 3) / 4 - if year > 120 then 1 else 0
  }

  function Fat2Unix(s: Stamp, minutesWest: int): UnixTime
    requires 0 <= s.date < 65536 && 0 <= s.time < 65536 && 0 <= s.cs < 256
  {
    CivilToUnix(Unpack(s), minutesWest)
  }

  function CivilToUnix(c: Civil, minutesWest: int): UnixTime
    requires 0 <= c.month < 16
  {
    var month := if c.month < 1 then 1 else c.month;
    var day := (if c.day < 1 then 1 else c.day) - 1;
    var leapDay := LeapDaysBefore(c.year) + if IsLeapYear(c.year) && month > 2 then 1 else 0;
    var second := c.two * 2 + c.minute * 60 + c.hour * 3600
      + (c.year * 365 + leapDay + DAYS_IN_YEAR[month] + day + 3652) * 86400
      + minutesWest * 60;
    UnixTime(second + c.cs / 100, c.cs % 100 * 10000000)
  }

  // ----- fat_time_unix2fat

  function SplitYear(day: int): int {
    var year := day / 365;
    if year * 365 + LeapDaysBefore(year) > day then year - 1 else year
  }

  /** The last month from `month` on that does not start after the day. */
  function FindMonth(month: nat, day: int): (m: nat)
    requires 1 <= month <= 12
    ensures month <= m <= 12
    decreases 12 - month
  {
    if month == 12 || DAYS_IN_YEAR[month + 1] > day then month else FindMonth(month + 1, day)
  }

  /** Month and day of the month, of a day of a year. */
  function SplitDay(year: int, day: int): (int, int) {
    if IsLeapYear(year) && day == DAYS_IN_YEAR[3] then (2, day - DAYS_IN_YEAR[2] + 1)
    else
      var d := if IsLeapYear(year) && day > DAYS_IN_YEAR[3] then day - 1 else day;
      var month := FindMonth(1, d);
      (month, d - DAYS_IN_YEAR[month] + 1)
  }

  /** The three date fields of a day counted from 1980. */
  function CivilDate(day: int): (int, int, int) {
    var year := SplitYear(day);
    var (month, dom) := SplitDay(year, day - (year * 365 + LeapDaysBefore(year)));
    (year, month, dom)
  }

  /** Quot and Rem are division and remainder (Arith.QuotRemIsDivMod). */
  ghost function Clock(second: nat): (int, int, int) {
    (Rem(Quot(second, 3600), 24), Rem(Quot(second, 60), 60), Quot(Rem(second, 60), 2))
  }

  ghost function UnixToCivil(second: nat, sec: int, nsec: int): Civil {
    var (year, month, dom) := CivilDate(Quot(second, 86400) - 3652);
    var (hour, minute, two) := Clock(second);
    Civil(year, month, dom, hour, minute, two, sec % 2 * 100 + nsec / 10000000)
  }

  const EARLIEST := Stamp(0 * 512 + 1 * 32 + 1, 0, 0)
  const LATEST := Stamp(127 * 512 + 12 * 32 + 31, 23 * 2048 + 59 * 32 + 29, 199)

  /** 315532800 and 4354819200 are 1 January of 1980 and of 2108. */
  ghost function Unix2Fat(ts: UnixTime, minutesWest: int): Stamp {
    var second := ts.sec - minutesWest * 60;
    if second < 315532800 then EARLIEST
    else if second >= 4354819200 then LATEST
    else Pack(UnixToCivil(second, ts.sec, ts.nsec))
  }

  /** The month search of fat_time_unix2fat as it runs. */
  method SearchMonth(day: int) returns (month: nat)
    ensures month == FindMonth(1, day)
  {
    month := 1;
    while month < 12
      invariant 1 <= month <= 12 && FindMonth(month, day) == FindMonth(1, day)
    {
      if DAYS_IN_YEAR[month + 1] > day {
        break;
      }
      month := month + 1;
    }
  }

  /** The date part of fat_time_unix2fat as it runs. */
  method SplitDate(days: int) returns (year: int, month: int, dom: int)
    ensures (year, month, dom) == CivilDate(days)
  {
    var day := days;
    year := SplitYear(day);
    day := day - (year * 365 + LeapDaysBefore(year));
    month := 2;
    if !(IsLeapYear(year) && day == DAYS_IN_YEAR[3]) {
      if IsLeapYear(year) && day > DAYS_IN_YEAR[3] {
        day := day - 1;
      }
      month := SearchMonth(day);
    }
    dom := day - DAYS_IN_YEAR[month] + 1;
  }

  method SplitClock(second: nat) returns (hour: int, minute: int, two: int)
    ensures (hour, minute, two) == Clock(second)
  {
    QuotsOf(second);
    hour, minute, two := second / 3600 % 24, second / 60 % 60, second % 60 / 2;
  }

  method Convert(second: nat, sec: int, nsec: int) returns (c: Civil)
    ensures c == UnixToCivil(second, sec, nsec)
  {
    QuotRemIsDivMod(second, 86400);
    var year, month, dom := SplitDate(second / 86400 - 3652);
    var hour, minute, two := SplitClock(second);
    c := Civil(year, month, dom, hour, minute, two, sec % 2 * 100 + nsec / 10000000);
  }

  /** fat_time_unix2fat. */
  method TimeUnix2Fat(ts: UnixTime, minutesWest: int) returns (s: Stamp)
    ensures s == Unix2Fat(ts, minutesWest)
  {
    var second := ts.sec - minutesWest * 60;
    if second < 315532800 {
      return EARLIEST;
    }
    if second >= 4354819200 {
      return LATEST;
    }
    var c := Convert(second, ts.sec, ts.nsec);
    s := Pack(c);
  }

  // ----- the arithmetic agrees with the calendar, 2100 included

  lemma LeapRule(y: nat)
    requires y < 128
    ensures Gregorian(1980 + y) <==> IsLeapYear(y)
  {
  }

  lemma {:induction false} DaysBeforeYearFormula(y: nat)
    requires y <= 128
    ensures DaysBeforeYear(y) == y * 365 + LeapDaysBefore(y)
  {
    if y > 0 {
      DaysBeforeYearFormula(y - 1);
      LeapRule(y - 1);
    }
  }

  lemma {:induction false} DaysBeforeMonthFormula(y: nat, m: nat)
    requires y < 128 && 1 <= m <= 12
    ensures DaysBeforeMonth(y, m) == DAYS_IN_YEAR[m] + if IsLeapYear(y) && m > 2 then 1 else 0
    ensures DaysBeforeMonth(y, m) + MonthLength(y, m) <= YearLength(y)
  {
    LeapRule(y);
    if m > 1 {
      DaysBeforeMonthFormula(y, m - 1);
    }
  }

  /** Whatever the fields hold: a month or day of zero counts as one, days beyond the end of a
      month run on into the next, and months that do not exist start like January, a day later
      in leap years. */
  lemma CivilToUnixAny(c: Civil, minutesWest: int)
    requires 0 <= c.year < 128 && 0 <= c.month < 16 && 0 <= c.day
    ensures var month, day := if c.month == 0 then 1 else c.month, if c.day == 0 then 1 else c.day;
      var first := if month <= 12 then DayNumber(c.year, month, 1)
                   else DayNumber(c.year, 1, 1) + if Gregorian(1980 + c.year) then 1 else 0;
      CivilToUnix(c, minutesWest) ==
        UnixTime(315532800 + minutesWest * 60 + (first + day - 1) * 86400 + SecondOf(c) + c.cs / 100, c.cs % 100 * 10000000)
  {
    LeapRule(c.year);
    DaysBeforeYearFormula(c.year);
    DaysBeforeMonthFormula(c.year, if 1 <= c.month <= 12 then c.month else 1);
  }

  /** So a stamp of all zeros is the beginning of 1980. */
  lemma ZeroStamp(minutesWest: int)
    ensures Fat2Unix(Stamp(0, 0, 0), minutesWest) == UnixTime(315532800 + minutesWest * 60, 0)
  {
    CivilToUnixAny(Unpack(Stamp(0, 0, 0)), minutesWest);
  }

  /** An existing date and time converts to the moment it denotes. */
  lemma CivilToUnixMeaning(c: Civil, minutesWest: int)
    requires ValidDate(c) && ValidTime(c)
    ensures CivilToUnix(c, minutesWest) ==
      UnixTime(315532800 + minutesWest * 60 + DayNumber(c.year, c.month, c.day) * 86400 + SecondOf(c) + c.cs / 100,
               c.cs % 100 * 10000000)
  {
    CivilToUnixAny(c, minutesWest);
  }

  lemma SplitYearMeaning(day: int)
    requires 0 <= day < 46751
    ensures var y := SplitYear(day);
      0 <= y < 128 && y * 365 + LeapDaysBefore(y) <= day < (y + 1) * 365 + LeapDaysBefore(y + 1)
  {
  }

  lemma SplitDayMeaning(year: nat, day: int)
    requires year < 128 && 0 <= day < YearLength(year)
    ensures var (m, dom) := SplitDay(year, day);
      1 <= m <= 12 && 1 <= dom <= MonthLength(year, m) && DaysBeforeMonth(year, m) + dom - 1 == day
  {
    LeapRule(year);
    var (m, dom) := SplitDay(year, day);
    DaysBeforeMonthFormula(year, m);
    if !(IsLeapYear(year) && day == DAYS_IN_YEAR[3]) {
      FindMonthMeaning(1, if IsLeapYear(year) && day > DAYS_IN_YEAR[3] then day - 1 else day);
    }
  }

  lemma {:induction false} FindMonthMeaning(month: nat, day: int)
    requires 1 <= month <= 12 && DAYS_IN_YEAR[month] <= day < 365
    ensures var m := FindMonth(month, day);
      DAYS_IN_YEAR[m] <= day && (m < 12 ==> day < DAYS_IN_YEAR[m + 1])
    decreases 12 - month
  {
    if month < 12 && DAYS_IN_YEAR[month + 1] <= day {
      FindMonthMeaning(month + 1, day);
    }
  }

  lemma YearOfDay(day: int)
    requires 0 <= day < 46751
    ensures var y := SplitYear(day);
      0 <= y < 128 && DaysBeforeYear(y) == y * 365 + LeapDaysBefore(y) && 0 <= day - DaysBeforeYear(y) < YearLength(y)
  {
    var year := SplitYear(day);
    SplitYearMeaning(day);
    DaysBeforeYearFormula(year);
    DaysBeforeYearFormula(year + 1);
  }

  /** Every day of the 128 years gets its own existing date. */
  lemma CivilDateMeaning(day: int)
    requires 0 <= day < 46751
    ensures var (y, m, d) := CivilDate(day);
      0 <= y < 128 && 1 <= m <= 12 && 1 <= d <= MonthLength(y, m) && DayNumber(y, m, d) == day
  {
    YearOfDay(day);
    InItsYear(SplitYear(day), DaysBeforeYear(SplitYear(day)), day);
  }

  lemma InItsYear(year: nat, before: int, day: int)
    requires year < 128 && before == DaysBeforeYear(year) && 0 <= day - before < YearLength(year)
    ensures var (m, d) := SplitDay(year, day - before);
      1 <= m <= 12 && 1 <= d <= MonthLength(year, m) && DayNumber(year, m, d) == day
  {
    SplitDayMeaning(year, day - before);
  }

  lemma QuotsOf(second: nat)
    ensures Rem(Quot(second, 3600), 24) == second / 3600 % 24
    ensures Rem(Quot(second, 60), 60) == second / 60 % 60 && Quot(Rem(second, 60), 2) == second % 60 / 2
  {
    QuotRemIsDivMod(second, 3600);
    QuotRemIsDivMod(second / 3600, 24);
    QuotRemIsDivMod(second, 60);
    QuotRemIsDivMod(second / 60, 60);
    QuotRemIsDivMod(second % 60, 2);
  }

  /** x = q * ab + r * a + rem for the two-step division by constants. */
  lemma SplitTwice(x: nat, a: nat, b: nat, ab: nat)
    requires a > 0 && b > 0 && ab > 0 && ab == b * a
    ensures Quot(x, ab) == Quot(Quot(x, a), b)
    ensures x == Quot(x, ab) * ab + Rem(x, ab) && Rem(x, ab) == Rem(Quot(x, a), b) * a + Rem(x, a)
  {
    TimesIsProduct(b, a);
    QuotTwice(x, a, b);
    QuotRem(x, ab);
    TimesIsProduct(Rem(Quot(x, a), b), a);
    TimesIsProduct(Quot(x, ab), ab);
  }

  lemma Halves(r: nat)
    ensures Quot(r, 2) * 2 + r % 2 == r
  {
    QuotRemIsDivMod(r, 2);
  }

  lemma ClockSum(second: nat)
    ensures second == Quot(second, 86400) * 86400 + Rem(Quot(second, 3600), 24) * 3600 + Rem(Quot(second, 60), 60) * 60 + Rem(second, 60)
  {
    SplitTwice(second, 60, 60, 3600);
    SplitTwice(second, 3600, 24, 86400);
  }

  /** The time of day. */
  lemma ClockMeaning(second: nat)
    ensures var (h, m, x) := Clock(second);
      && 0 <= h < 24 && 0 <= m < 60 && 0 <= x < 30
      && h * 3600 + m * 60 + x * 2 + second % 2 == second - Quot(second, 86400) * 86400
    ensures 315532800 <= second < 4354819200 ==> 0 <= Quot(second, 86400) - 3652 < 46751
  {
    var d, h, m, r := Quot(second, 86400), Rem(Quot(second, 3600), 24), Rem(Quot(second, 60), 60), Rem(second, 60);
    ClockSum(second);
    Halves(r);
    SameParity(second, d * 1440 + h * 60 + m, r);
    DayRange(second, d, h * 3600 + m * 60 + r);
  }

  lemma SameParity(x: nat, q: nat, r: nat)
    requires x == q * 60 + r
    ensures x % 2 == r % 2
  {
    var h := r / 2;
    DivMod(r, 2);
    DivModUnique(x, 2, 30 * q + h, r % 2);
  }

  lemma DayRange(second: int, q: int, t: int)
    requires second == q * 86400 + t && 0 <= t < 86400
    ensures 315532800 <= second < 4354819200 ==> 0 <= q - 3652 < 46751
  {
  }

  /** In range, unix2fat finds an existing date and time, and the moment is right to 10 ms. */
  lemma UnixToCivilMeaning(second: int, sec: int, nsec: int)
    requires 315532800 <= second < 4354819200 && sec % 2 == second % 2 && 0 <= nsec < 1000000000
    ensures var c := UnixToCivil(second, sec, nsec);
      && ValidDate(c) && ValidTime(c)
      && Moment(c) == (second - 315532800) * 100 + nsec / 10000000
  {
    ClockMeaning(second);
    CivilDateMeaning(Quot(second, 86400) - 3652);
  }

  // ----- order

  predicate CivilLess(a: Civil, b: Civil) {
    a.year < b.year || (a.year == b.year && (a.month < b.month || (a.month == b.month && (a.day < b.day
      || (a.day == b.day && (SecondOf(a) < SecondOf(b) || (SecondOf(a) == SecondOf(b) && a.cs < b.cs)))))))
  }

  lemma {:induction false} YearsMonotone(y: nat, y': nat)
    requires y <= y'
    ensures DaysBeforeYear(y) <= DaysBeforeYear(y')
  {
    if y < y' {
      YearsMonotone(y, y' - 1);
    }
  }

  lemma {:induction false} MonthsMonotone(y: nat, m: nat, m': nat)
    requires m <= m'
    ensures DaysBeforeMonth(y, m) <= DaysBeforeMonth(y, m')
  {
    if m < m' {
      MonthsMonotone(y, m, m' - 1);
    }
  }

  lemma DayNumberMonotone(a: Civil, b: Civil)
    requires ValidDate(a) && ValidDate(b)
    requires a.year < b.year || (a.year == b.year && (a.month < b.month || (a.month == b.month && a.day < b.day)))
    ensures DayNumber(a.year, a.month, a.day) < DayNumber(b.year, b.month, b.day)
  {
    DaysBeforeMonthFormula(a.year, a.month);
    if a.year < b.year {
      YearsMonotone(a.year + 1, b.year);
    } else if a.month < b.month {
      MonthsMonotone(a.year, a.month + 1, b.month);
    }
  }

  /** Dates and times are ordered as the moments they denote. */
  lemma MomentMonotone(a: Civil, b: Civil)
    requires ValidDate(a) && ValidTime(a) && ValidDate(b) && ValidTime(b) && CivilLess(a, b)
    ensures Moment(a) < Moment(b)
  {
    if (a.year, a.month, a.day) != (b.year, b.month, b.day) {
      DayNumberMonotone(a, b);
    }
  }

  lemma MomentInRange(c: Civil)
    requires ValidDate(c) && ValidTime(c)
    ensures 0 <= Moment(c) < 403928640000
  {
    DaysBeforeYearFormula(128);
    YearsMonotone(c.year + 1, 128);
    DaysBeforeMonthFormula(c.year, c.month);
    assert 0 <= DayNumber(c.year, c.month, c.day) < 46751;
  }

  lemma SameMoment(a: Civil, b: Civil)
    requires ValidDate(a) && ValidTime(a) && ValidDate(b) && ValidTime(b) && Moment(a) == Moment(b)
    ensures a == b
  {
    if CivilLess(a, b) {
      MomentMonotone(a, b);
    } else if CivilLess(b, a) {
      MomentMonotone(b, a);
    }
    assert a.cs == b.cs && SecondOf(a) == SecondOf(b);
  }

  /** Packing loses nothing and keeps the order. */
  lemma UnpackPack(c: Civil)
    requires ValidDate(c) && ValidTime(c)
    ensures Unpack(Pack(c)) == c && ValidStamp(Pack(c))
  {
    var s := Pack(c);
    assert s.date / 32 == c.year * 16 + c.month;
    assert s.time / 32 == c.hour * 64 + c.minute;
  }

  lemma PackUnpack(s: Stamp)
    requires 0 <= s.date && 0 <= s.time
    ensures Pack(Unpack(s)) == s
  {
  }

  lemma DateKeepsOrder(a: Civil, b: Civil)
    requires ValidDate(a) && ValidDate(b) && a.year * 512 + a.month * 32 + a.day < b.year * 512 + b.month * 32 + b.day
    ensures a.year < b.year || (a.year == b.year && (a.month < b.month || (a.month == b.month && a.day < b.day)))
  {
  }

  lemma SameDate(a: Civil, b: Civil)
    requires ValidDate(a) && ValidDate(b) && a.year * 512 + a.month * 32 + a.day == b.year * 512 + b.month * 32 + b.day
    ensures a.year == b.year && a.month == b.month && a.day == b.day
  {
    assert a.year == (a.year * 512 + a.month * 32 + a.day) / 512;
    assert b.year == (b.year * 512 + b.month * 32 + b.day) / 512;
  }

  lemma TimeKeepsOrder(a: Civil, b: Civil)
    requires ValidTime(a) && ValidTime(b) && a.hour * 2048 + a.minute * 32 + a.two <= b.hour * 2048 + b.minute * 32 + b.two
    ensures SecondOf(a) <= SecondOf(b)
    ensures a.hour * 2048 + a.minute * 32 + a.two < b.hour * 2048 + b.minute * 32 + b.two ==> SecondOf(a) < SecondOf(b)
  {
    if a.hour < b.hour {
    } else if a.hour == b.hour && a.minute < b.minute {
    } else {
      assert a.hour == b.hour && a.minute == b.minute;
    }
  }

  lemma PackKeepsOrder(a: Civil, b: Civil)
    requires ValidDate(a) && ValidTime(a) && ValidDate(b) && ValidTime(b) && StampLess(Pack(a), Pack(b))
    ensures CivilLess(a, b)
  {
    if Pack(a).date < Pack(b).date {
      DateKeepsOrder(a, b);
    } else {
      SameDate(a, b);
      TimeKeepsOrder(a, b);
    }
  }

  // ----- the conversions are inverse, and monotone

  ghost predicate InRange(ts: UnixTime, minutesWest: int) {
    315532800 <= ts.sec - minutesWest * 60 < 4354819200 && 0 <= ts.nsec < 1000000000
  }

  /** In range, unix2fat packs the existing date and time of that moment. */
  lemma Unix2FatMeaning(ts: UnixTime, minutesWest: int) returns (c: Civil)
    requires InRange(ts, minutesWest)
    ensures ValidDate(c) && ValidTime(c) && Unix2Fat(ts, minutesWest) == Pack(c)
    ensures Moment(c) == (ts.sec - minutesWest * 60 - 315532800) * 100 + ts.nsec / 10000000
    ensures c.cs == ts.sec % 2 * 100 + ts.nsec / 10000000
  {
    var second := ts.sec - minutesWest * 60;
    c := UnixToCivil(second, ts.sec, ts.nsec);
    UnixToCivilMeaning(second, ts.sec, ts.nsec);
  }

  /** FAT to Unix and back: every valid stamp comes back exactly, in every time zone. */
  lemma FatRoundTrip(s: Stamp, minutesWest: int)
    requires ValidStamp(s)
    ensures Unix2Fat(Fat2Unix(s, minutesWest), minutesWest) == s
  {
    var c := Unpack(s);
    CivilToUnixMeaning(c, minutesWest);
    MomentInRange(c);
    var ts := CivilToUnix(c, minutesWest);
    var d := Unix2FatMeaning(ts, minutesWest);
    SameMoment(c, d);
    PackUnpack(s);
  }

  /** Unix to FAT and back: up to 10 ms with the centisecond byte, up to 2 s without it. */
  lemma UnixRoundTrip(ts: UnixTime, minutesWest: int)
    requires InRange(ts, minutesWest)
    ensures ValidStamp(Unix2Fat(ts, minutesWest))
    ensures Fat2Unix(Unix2Fat(ts, minutesWest), minutesWest) == UnixTime(ts.sec, ts.nsec - ts.nsec % 10000000)
    ensures Fat2Unix(Unix2Fat(ts, minutesWest).(cs := 0), minutesWest) == UnixTime(ts.sec - ts.sec % 2, 0)
  {
    var c := Unix2FatMeaning(ts, minutesWest);
    var coarse := c.(cs := 0);
    UnpackPack(c);
    UnpackPack(coarse);
    CivilToUnixMeaning(c, minutesWest);
    CivilToUnixMeaning(coarse, minutesWest);
  }

  /** Later Unix times never get earlier stamps, saturation at both ends included. */
  lemma Unix2FatMonotone(a: UnixTime, b: UnixTime, minutesWest: int)
    requires 0 <= a.nsec < 1000000000 && 0 <= b.nsec < 1000000000
    requires a.sec < b.sec || (a.sec == b.sec && a.nsec <= b.nsec)
    ensures !StampLess(Unix2Fat(b, minutesWest), Unix2Fat(a, minutesWest))
  {
    if InRange(a, minutesWest) {
      var c := Unix2FatMeaning(a, minutesWest);
      PackExtremes(c);
      if InRange(b, minutesWest) {
        var d := Unix2FatMeaning(b, minutesWest);
        if StampLess(Pack(d), Pack(c)) {
          PackKeepsOrder(d, c);
          MomentMonotone(d, c);
        }
      }
    } else if InRange(b, minutesWest) {
      var d := Unix2FatMeaning(b, minutesWest);
      PackExtremes(d);
    }
  }

  /** The stamp of a time in range is that of the one date and time which is that moment. */
  lemma StampOfMoment(ts: UnixTime, minutesWest: int, c: Civil)
    requires InRange(ts, minutesWest) && ValidDate(c) && ValidTime(c)
    requires Moment(c) == (ts.sec - minutesWest * 60 - 315532800) * 100 + ts.nsec / 10000000
    ensures Unix2Fat(ts, minutesWest) == Pack(c)
  {
    var d := Unix2FatMeaning(ts, minutesWest);
    SameMoment(c, d);
  }

  lemma LastMoment() returns (c: Civil)
    ensures ValidDate(c) && ValidTime(c) && Moment(c) == (4354819199 - 315532800) * 100 + 99 && Pack(c) == LATEST
  {
    c := Civil(127, 12, 31, 23, 59, 29, 199);
    DaysBeforeYearFormula(127);
    DaysBeforeMonthFormula(127, 12);
    LeapRule(127);
    assert DayNumber(127, 12, 31) == 46750;
  }

  lemma FirstMoment() returns (c: Civil)
    ensures ValidDate(c) && ValidTime(c) && Moment(c) == 0 && Pack(c) == EARLIEST
  {
    c := FirstOf(0);
  }

  lemma FirstOf(y: nat) returns (c: Civil)
    requires y < 128
    ensures ValidDate(c) && ValidTime(c)
    ensures Moment(c) == (y * 365 + LeapDaysBefore(y)) * 8640000 && Pack(c) == Stamp(y * 512 + 33, 0, 0)
  {
    c := Civil(y, 1, 1, 0, 0, 0, 0);
    DaysBeforeYearFormula(y);
  }

  /** The stamps for times out of range are those of the first and of the last moment in range. */
  lemma ExtremesMeet(ts: UnixTime, minutesWest: int)
    ensures ts.sec - minutesWest * 60 == 315532800 && ts.nsec == 0 ==> Unix2Fat(ts, minutesWest) == EARLIEST
    ensures ts.sec - minutesWest * 60 == 4354819199 && ts.nsec == 990000000 ==> Unix2Fat(ts, minutesWest) == LATEST
  {
    if ts.sec - minutesWest * 60 == 315532800 && ts.nsec == 0 {
      var c := FirstMoment();
      StampOfMoment(ts, minutesWest, c);
    } else if ts.sec - minutesWest * 60 == 4354819199 && ts.nsec == 990000000 {
      var c := LastMoment();
      StampOfMoment(ts, minutesWest, c);
    }
  }

  lemma PackExtremes(c: Civil)
    requires ValidDate(c) && ValidTime(c)
    ensures !StampLess(Pack(c), EARLIEST) && !StampLess(LATEST, Pack(c))
  {
  }
}
