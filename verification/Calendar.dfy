// Broken-down UTC time from a count of seconds, against the Gregorian calendar counted year by year.
module Calendar {
  const LAST_DAY := 2932896       // 9999-12-31

  datatype Tm = Tm(sec: int, min: int, hour: int, mday: int, mon: int, year: int, wday: int)

  predicate Leap(y: int)
  {
    y % 4 == 0 && (y % 100 != 0 || y % 400 == 0)
  }

  // ---------- the conversion ----------

  // days from 1 March of year 0 to 1 March of year y
  function MarchDays(y: int): int
  {
    365 * y + y / 4 - y / 100 + y / 400
  }

  // the year that began on the last 1 March, and the days since then
  function MarchYear(days: int): (int, int)
  {
    var year := (days + 2) * 400 / (365 * 400 + 100 - 4 + 1);
    var yday := days - (365 * year + year / 4 - year / 100 + year / 400);
    if yday < 0 then (year - 1, 365 + (if Leap(year) then 1 else 0) + yday) else (year, yday)
  }

  // year, month and day of a day counted from 1 March of year 0
  function MarchDate(days: int): (int, int, int)
  {
    var (year, yday) := MarchYear(days);
    var mon := (yday + 31) * 10 / 306;
    var mday := yday - (367 * mon / 12 - 30) + 1;
    if yday >= 306 then (year + 1, mon - 10, mday) else (year, mon + 2, mday)
  }

  function GmTime(time: int): Tm
  {
    var t := if time < 0 then 0 else time;
    var days := if t / 86400 > LAST_DAY then LAST_DAY else t / 86400;
    var rest := if t / 86400 > LAST_DAY then 86399 else t % 86400;
    var wday := (4 + days) % 7;
    var hour := rest / 3600;
    var min := rest % 3600 / 60;
    var sec := rest % 3600 % 60;
    var (year, mon, mday) := MarchDate(days - (31 + 28) + 719527);
    Tm(sec, min, hour, mday, mon, year, wday)
  }

  // ---------- the calendar ----------

  function YearLength(y: int): int
  {
    if Leap(y) then 366 else 365
  }

  function MonthLength(y: int, m: int): int
  {
    if m == 2 then (if Leap(y) then 29 else 28)
    else if m == 4 || m == 6 || m == 9 || m == 11 then 30
    else 31
  }

  // days from 1 January 1970 to 1 January of year y
  function DaysBeforeYear(y: nat): int
    requires y >= 1970
  {
    if y == 1970 then 0 else DaysBeforeYear(y - 1) + YearLength(y - 1)
  }

  // days from 1 January to the first of month m
  function DaysBeforeMonth(y: int, m: nat): int
    requires 1 <= m <= 12
  {
    if m == 1 then 0 else DaysBeforeMonth(y, m - 1) + MonthLength(y, m - 1)
  }

  predicate ValidDate(y: int, m: int, d: int)
  {
    1970 <= y <= 9999 && 1 <= m <= 12 && 1 <= d <= MonthLength(y, m)
  }

  function DayNumber(y: int, m: int, d: int): int
    requires ValidDate(y, m, d)
  {
    DaysBeforeYear(y) + DaysBeforeMonth(y, m) + d - 1
  }

  // ---------- agreement ----------

  lemma FourHundreds(q: int)
    ensures 400 * q % 100 == 0
  {
    assert 400 * q == 100 * (4 * q) + 0;
  }

  lemma Hundreds(q: int)
    ensures 100 * q % 4 == 0
  {
    assert 100 * q == 4 * (25 * q) + 0;
  }

  lemma Multiples(y: int)
    requires y >= 1
    ensures y % 400 == 0 ==> y % 100 == 0
    ensures y % 100 == 0 ==> y % 4 == 0
  {
    if y % 400 == 0 { FourHundreds(y / 400); }
    if y % 100 == 0 { Hundreds(y / 100); }
  }

  lemma Quarter(y: int)
    requires y >= 1
    ensures y / 4 == (y - 1) / 4 + (if y % 4 == 0 then 1 else 0)
  {
  }

  lemma Century(y: int)
    requires y >= 1
    ensures y / 100 == (y - 1) / 100 + (if y % 100 == 0 then 1 else 0)
  {
  }

  lemma Cycle(y: int)
    requires y >= 1
    ensures y / 400 == (y - 1) / 400 + (if y % 400 == 0 then 1 else 0)
  {
  }

  lemma {:induction false} MarchStep(y: int)
    requires y >= 1
    ensures MarchDays(y) == MarchDays(y - 1) + YearLength(y)
  {
    Multiples(y);
    Quarter(y);
    Century(y);
    Cycle(y);
  }

  lemma {:induction false} YearsFromMarch(y: nat)
    requires y >= 1970
    ensures DaysBeforeYear(y) == MarchDays(y - 1) - MarchDays(1969)
  {
    if y > 1970 {
      YearsFromMarch(y - 1);
      MarchStep(y - 1);
    }
  }

  // the rational estimate of the year is right or one too large
  lemma YearEstimate(days: int)
    requires days >= 0
    ensures var y := (days + 2) * 400 / 146097;
      y >= 0 && MarchDays(y - 1) <= days < MarchDays(y + 1) && (y == 0 ==> MarchDays(0) <= days)
  {
    var y := (days + 2) * 400 / 146097;
    assert 146097 * y <= (days + 2) * 400 < 146097 * (y + 1);
    assert 400 * (y / 4) <= 100 * y && 400 * (y / 100) > 4 * y - 400 && 400 * (y / 400) <= y;
  }

  lemma {:induction false} MarchYearIsRight(days: int)
    requires days >= 0
    ensures var (y, yday) := MarchYear(days);
      y >= 0 && days == MarchDays(y) + yday && 0 <= yday < YearLength(y + 1)
  {
    YearEstimate(days);
    var y := (days + 2) * 400 / 146097;
    if y > 0 { MarchStep(y); }
    MarchStep(y + 1);
  }

  // month and day of a March-based day of the year
  lemma MonthOfDay(y: int, yday: int)
    requires 0 <= yday < YearLength(y + 1)
    ensures var mon := (yday + 31) * 10 / 306;
      var mday := yday - (367 * mon / 12 - 30) + 1;
      if yday >= 306 then
        1 <= mon - 10 <= 2 && 1 <= mday <= MonthLength(y + 1, mon - 10)
        && DaysBeforeMonth(y + 1, mon - 10) + mday - 1 == yday - 306
      else
        3 <= mon + 2 <= 12 && 1 <= mday <= MonthLength(y, mon + 2)
        && DaysBeforeMonth(y, mon + 2) + mday - 1 == yday + YearLength(y) - 306
  {
    DaysBeforeMonths(y);
    DaysBeforeMonths(y + 1);
  }

  lemma DaysBeforeMonths(y: int)
    ensures DaysBeforeMonth(y, 2) == 31
    ensures var f := YearLength(y) - 306;
      DaysBeforeMonth(y, 3) == f && DaysBeforeMonth(y, 4) == f + 31 && DaysBeforeMonth(y, 5) == f + 61
      && DaysBeforeMonth(y, 6) == f + 92 && DaysBeforeMonth(y, 7) == f + 122 && DaysBeforeMonth(y, 8) == f + 153
      && DaysBeforeMonth(y, 9) == f + 184 && DaysBeforeMonth(y, 10) == f + 214 && DaysBeforeMonth(y, 11) == f + 245
      && DaysBeforeMonth(y, 12) == f + 275
  {
  }

  lemma YearRange(y: int, yday: int, d: int)
    requires 0 <= d <= LAST_DAY && d + 719468 == MarchDays(y) + yday && 0 <= yday < YearLength(y + 1)
    ensures 1970 <= (if yday >= 306 then y + 1 else y) <= 9999
  {
  }

  // the time that is converted: one outside 1970 to 9999 is clamped
  function Clamp(time: int): int
  {
    if time < 0 then 0 else if time / 86400 > LAST_DAY then LAST_DAY * 86400 + 86399 else time
  }

  // the weekday counted on day by day from Thursday, 1 January 1970
  function Weekday(days: nat): int
  {
    if days == 0 then 4 else (Weekday(days - 1) + 1) % 7
  }

  lemma NextModSeven(x: int)
    ensures (x % 7 + 1) % 7 == (x + 1) % 7
  {
    var q, r := x / 7, x % 7;
    assert x + 1 == 7 * q + (r + 1);
    if r == 6 { assert x + 1 == 7 * (q + 1); }
  }

  lemma {:induction false} WeekdayOf(days: nat)
    ensures Weekday(days) == (4 + days) % 7
  {
    if days > 0 {
      WeekdayOf(days - 1);
      NextModSeven(3 + days);
    }
  }

  lemma {:induction false} YearStarts(y: nat)
    requires y >= 1970
    ensures DaysBeforeYear(y) + YearLength(y) == MarchDays(y) - 719162
  {
    YearsFromMarch(y);
    MarchStep(y);
    assert MarchDays(1969) == 719162;
  }

  lemma {:induction false} MarchDateIsRight(d: int)
    requires 0 <= d <= LAST_DAY
    ensures var (year, mon, mday) := MarchDate(d + 719468);
      ValidDate(year, mon, mday) && DayNumber(year, mon, mday) == d
  {
    MarchYearIsRight(d + 719468);
    var (y, yday) := MarchYear(d + 719468);
    YearRange(y, yday, d);
    MonthOfDay(y, yday);
    if yday < 306 {
      YearStarts(y);
    } else {
      YearsFromMarch(y + 1);
      assert MarchDays(1969) == 719162;
    }
  }

  // The date is a valid one, the day count is recovered from it, the time of day is the rest, and the
  // weekday is the one counted on day by day.
  lemma {:induction false} GmTimeIsRight(time: int)
    ensures var tm := GmTime(time);
      && ValidDate(tm.year, tm.mon, tm.mday)
      && DayNumber(tm.year, tm.mon, tm.mday) == Clamp(time) / 86400
      && 0 <= tm.sec < 60 && 0 <= tm.min < 60 && 0 <= tm.hour < 24
      && (tm.hour * 60 + tm.min) * 60 + tm.sec == Clamp(time) % 86400
      && tm.wday == Weekday(Clamp(time) / 86400)
  {
    var days, rest := Clamp(time) / 86400, Clamp(time) % 86400;
    ClampSplits(time);
    TimeOfDay(rest);
    MarchDateIsRight(days);
    WeekdayOf(days);
  }

  // the parts that the program computes are those of the clamped time
  lemma ClampSplits(time: int)
    ensures var t := if time < 0 then 0 else time;
      && 0 <= Clamp(time) / 86400 <= LAST_DAY && 0 <= Clamp(time) % 86400 < 86400
      && Clamp(time) / 86400 == (if t / 86400 > LAST_DAY then LAST_DAY else t / 86400)
      && Clamp(time) % 86400 == (if t / 86400 > LAST_DAY then 86399 else t % 86400)
  {
  }

  lemma TimeOfDay(rest: int)
    requires 0 <= rest < 86400
    ensures 0 <= rest / 3600 < 24 && 0 <= rest % 3600 / 60 < 60 && 0 <= rest % 3600 % 60 < 60
    ensures (rest / 3600 * 60 + rest % 3600 / 60) * 60 + rest % 3600 % 60 == rest
  {
  }

  // ---------- order ----------

  predicate Before(a: (int, int, int), b: (int, int, int))
  {
    a.0 < b.0 || (a.0 == b.0 && (a.1 < b.1 || (a.1 == b.1 && a.2 < b.2)))
  }

  lemma {:induction false} YearsAddUp(y: nat, z: nat)
    requires 1970 <= y < z
    ensures DaysBeforeYear(z) >= DaysBeforeYear(y) + YearLength(y)
    decreases z
  {
    if y < z - 1 { YearsAddUp(y, z - 1); }
  }

  lemma {:induction false} MonthsAddUp(y: int, m: nat, n: nat)
    requires 1 <= m < n <= 12
    ensures DaysBeforeMonth(y, n) >= DaysBeforeMonth(y, m) + MonthLength(y, m)
    decreases n
  {
    if m < n - 1 { MonthsAddUp(y, m, n - 1); }
  }

  lemma {:induction false} DayNumberOrders(a: (int, int, int), b: (int, int, int))
    requires ValidDate(a.0, a.1, a.2) && ValidDate(b.0, b.1, b.2) && Before(a, b)
    ensures DayNumber(a.0, a.1, a.2) < DayNumber(b.0, b.1, b.2)
  {
    if a.0 < b.0 {
      YearsAddUp(a.0, b.0);
      DaysBeforeMonths(a.0);
      if a.1 < 12 { MonthsAddUp(a.0, a.1, 12); }
      if b.1 > 1 { MonthsAddUp(b.0, 1, b.1); }
    } else if a.1 < b.1 {
      MonthsAddUp(a.0, a.1, b.1);
    }
  }

  // A later time never has an earlier date, nor an earlier time of day on the same date.
  lemma ClampOrders(t1: int, t2: int)
    requires t1 <= t2
    ensures Clamp(t1) / 86400 <= Clamp(t2) / 86400
    ensures Clamp(t1) / 86400 == Clamp(t2) / 86400 ==> Clamp(t1) % 86400 <= Clamp(t2) % 86400
  {
  }

  lemma TimesOrder(a: Tm, b: Tm)
    requires 0 <= a.sec < 60 && 0 <= a.min < 60 && 0 <= a.hour && 0 <= b.sec < 60 && 0 <= b.min < 60 && 0 <= b.hour
    requires (a.hour * 60 + a.min) * 60 + a.sec <= (b.hour * 60 + b.min) * 60 + b.sec
    ensures !Before((b.hour, b.min, b.sec), (a.hour, a.min, a.sec))
  {
  }

  lemma DatesOrder(d: (int, int, int), e: (int, int, int))
    requires ValidDate(d.0, d.1, d.2) && ValidDate(e.0, e.1, e.2)
    requires DayNumber(d.0, d.1, d.2) <= DayNumber(e.0, e.1, e.2)
    ensures Before(d, e) || d == e
  {
    if Before(e, d) { DayNumberOrders(e, d); }
  }

  lemma {:induction false} GmTimeIsMonotone(t1: int, t2: int)
    requires t1 <= t2
    ensures var a, b := GmTime(t1), GmTime(t2);
      var d, e := (a.year, a.mon, a.mday), (b.year, b.mon, b.mday);
      Before(d, e) || (d == e && !Before((b.hour, b.min, b.sec), (a.hour, a.min, a.sec)))
  {
    var a, b := GmTime(t1), GmTime(t2);
    var d, e := (a.year, a.mon, a.mday), (b.year, b.mon, b.mday);
    GmTimeIsRight(t1);
    GmTimeIsRight(t2);
    ClampOrders(t1, t2);
    DatesOrder(d, e);
    if d == e { TimesOrder(a, b); }
  }

  const LAST_SECOND := 253402300799

  // Times outside the range are moved to its ends, and the others are kept.
  lemma OutsideRange(time: int)
    ensures time < 0 ==> GmTime(time) == GmTime(0)
    ensures time > LAST_SECOND ==> GmTime(time) == GmTime(LAST_SECOND)
    ensures 0 <= time <= LAST_SECOND ==> Clamp(time) == time
  {
    if time > LAST_SECOND {
      DaysOf(time);
    } else if 0 <= time {
      DaysWithin(time);
    }
  }

  lemma DaysWithin(time: int)
    requires 0 <= time <= LAST_SECOND
    ensures time / 86400 <= LAST_DAY
  {
  }

  lemma DaysOf(time: int)
    requires time > LAST_SECOND
    ensures time / 86400 > LAST_DAY && LAST_SECOND / 86400 == LAST_DAY && LAST_SECOND % 86400 == 86399
  {
  }

  // the beginning, a Thursday
  lemma Epoch()
    ensures GmTime(0) == Tm(0, 0, 0, 1, 1, 1970, 4)
  {
    assert MarchYear(719468) == (1969, 306) && MarchDate(719468) == (1970, 1, 1);
  }

  // the end, a Friday
  lemma LastSecond()
    ensures GmTime(LAST_SECOND) == Tm(59, 59, 23, 31, 12, 9999, 5)
  {
    assert MarchYear(3652364) == (9999, 305) && MarchDate(3652364) == (9999, 12, 31);
  }
}
