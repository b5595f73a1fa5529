// The calendar arithmetic of drivers/rtc/rtc.c.

module Rtc {
  import opened Words

  // struct rtc_time, with the day of the year left out.
  datatype Time = Time(sec: int, min: int, hour: int, day: int, mon: int, year: int)

  predicate IsLeap(year: int) {
    year % 4 == 0 && (year % 100 != 0 || year % 400 == 0)
  }

  function MonthDays(year: int, mon: int): int {
    if mon == 2 then (if IsLeap(year) then 29 else 28)
    else if mon == 4 || mon == 6 || mon == 9 || mon == 11 then 30 else 31
  }

  // Months alternate between 31 and 30 days, from January and again from August, but for February.
  lemma MonthTable(year: int, mon: int)
    requires 1 <= mon <= 12
    ensures mon != 2 ==> MonthDays(year, mon) == 31 - (mon - 1) % 7 % 2
    ensures mon == 2 ==> MonthDays(year, mon) == if year % 400 == 0 || (year % 4 == 0 && year % 100 != 0) then 29 else 28
  {
  }

  predicate ValidTime(t: Time) {
    && t.year >= 1970 && 1 <= t.mon <= 12 && 1 <= t.day <= MonthDays(t.year, t.mon)
    && 0 <= t.hour < 24 && 0 <= t.min < 60 && 0 <= t.sec < 60
  }

  const EPOCH: Time := Time(0, 0, 0, 1, 1, 1970)

  // The reference: the calendar advanced one second at a time.
  function NextDay(t: Time): Time {
    if t.day < MonthDays(t.year, t.mon) then t.(day := t.day + 1)
    else if t.mon < 12 then t.(day := 1, mon := t.mon + 1)
    else t.(day := 1, mon := 1, year := t.year + 1)
  }

  function Tick(t: Time): Time {
    if t.sec < 59 then t.(sec := t.sec + 1)
    else if t.min < 59 then t.(sec := 0, min := t.min + 1)
    else if t.hour < 23 then t.(sec := 0, min := 0, hour := t.hour + 1)
    else NextDay(t.(sec := 0, min := 0, hour := 0))
  }

  function Ticks(n: nat): Time {
    if n == 0 then EPOCH else Tick(Ticks(n - 1))
  }

  // The day count: whole years, whole months, days.
  function DaysBeforeYear(year: int): int
    requires year >= 1970
    decreases year
  {
    if year == 1970 then 0 else DaysBeforeYear(year - 1) + (if IsLeap(year - 1) then 366 else 365)
  }

  function DaysBeforeMonth(year: int, mon: int): int
    requires 1 <= mon <= 12
    decreases mon
  {
    if mon == 1 then 0 else DaysBeforeMonth(year, mon - 1) + MonthDays(year, mon - 1)
  }

  function Seconds(t: Time): int
    requires ValidTime(t)
  {
    86400 * (DaysBeforeYear(t.year) + DaysBeforeMonth(t.year, t.mon) + t.day - 1)
    + 3600 * t.hour + 60 * t.min + t.sec
  }

  // rtc_get_yday
  method GetYday(t: Time) returns (yday: int)
    requires 1 <= t.mon <= 12
    ensures yday == DaysBeforeMonth(t.year, t.mon) + t.day - 1
  {
    MonthStarts(t.year, t.mon);
    yday := t.day - 1;
    if t.mon > 1 {
      yday := yday + 31;
    }
    if t.mon > 2 {
      if t.year % 4 == 0 && (t.year % 400 == 0 || t.year % 100 != 0) {
        yday := yday + 29;
      } else {
        yday := yday + 28;
      }
    }
    if t.mon > 3 {
      yday := yday + 31;
    }
    if t.mon > 4 {
      yday := yday + 30;
    }
    if t.mon > 5 {
      yday := yday + 31;
    }
    if t.mon > 6 {
      yday := yday + 30;
    }
    if t.mon > 7 {
      yday := yday + 31;
    }
    if t.mon > 8 {
      yday := yday + 31;
    }
    if t.mon > 9 {
      yday := yday + 30;
    }
    if t.mon > 10 {
      yday := yday + 31;
    }
    if t.mon > 11 {
      yday := yday + 30;
    }
  }

  lemma MonthStarts(year: int, mon: int)
    requires 1 <= mon <= 12
    ensures var f := if IsLeap(year) then 1 else 0;
            DaysBeforeMonth(year, mon) ==
            if mon == 1 then 0 else if mon == 2 then 31 else if mon == 3 then 59 + f else if mon == 4 then 90 + f
            else if mon == 5 then 120 + f else if mon == 6 then 151 + f else if mon == 7 then 181 + f
            else if mon == 8 then 212 + f else if mon == 9 then 243 + f else if mon == 10 then 273 + f
            else if mon == 11 then 304 + f else 334 + f
  {
    if mon > 1 {
      MonthStarts(year, mon - 1);
    }
  }

  // rtc_get_timestamp, from a time already read; every sum is taken modulo 2^32.
  method GetTimestamp(t: Time) returns (epoch: U32)
    requires ValidTime(t)
    ensures epoch == Seconds(t) % 0x1_0000_0000
  {
    hide Low, Seconds, DaysBeforeYear;
    var yday := GetYday(t);
    var year := t.year - 1900;
    LowIs(0);
    epoch := Add(0, t.sec, 0);
    epoch := Add(epoch, t.min * 60, t.sec);
    ghost var sum := t.sec + t.min * 60;
    epoch := Add(epoch, t.hour * 3600, sum);
    sum := sum + t.hour * 3600;
    epoch := Add(epoch, yday * 86400, sum);
    sum := sum + yday * 86400;
    epoch := Add(epoch, (year - 70) * 31536000, sum);
    sum := sum + (year - 70) * 31536000;
    epoch := Add(epoch, (year - 69) / 4 * 86400, sum);
    sum := sum + (year - 69) / 4 * 86400;
    epoch := Add(epoch, -((year - 1) / 100 * 86400), sum);
    sum := sum - (year - 1) / 100 * 86400;
    epoch := Add(epoch, (year + 299) / 400 * 86400, sum);
    SumOfParts(t, yday);
    LowIs(Seconds(t));
  }

  lemma SumOfParts(t: Time, yday: int)
    requires ValidTime(t) && yday == DaysBeforeMonth(t.year, t.mon) + t.day - 1
    ensures var year := t.year - 1900;
            Seconds(t) == t.sec + t.min * 60 + t.hour * 3600 + yday * 86400 + (year - 70) * 31536000
                          + (year - 69) / 4 * 86400 - (year - 1) / 100 * 86400 + (year + 299) / 400 * 86400
  {
    YearFormula(t.year);
    hide DaysBeforeYear, DaysBeforeMonth, MonthDays;
  }

  // The low 32 bits, and an unsigned addition of a signed amount.
  function Low(n: int): U32 {
    n % 0x1_0000_0000
  }

  lemma LowIs(n: int)
    ensures Low(n) == n % 0x1_0000_0000
  {
  }

  method Add(a: U32, b: int, ghost sum: int) returns (r: U32)
    requires a == Low(sum)
    ensures r == Low(sum + b)
  {
    r := (a + b) % 0x1_0000_0000;
  }

  // A quotient grows by one at each multiple of the divisor.
  lemma QuotientSteps(year: int)
    requires year > 1970
    ensures (year - 1969) / 4 == (year - 1970) / 4 + (if (year - 1) % 4 == 0 then 1 else 0)
    ensures (year - 1901) / 100 == (year - 1902) / 100 + (if (year - 1) % 100 == 0 then 1 else 0)
    ensures (year - 1601) / 400 == (year - 1602) / 400 + (if (year - 1) % 400 == 0 then 1 else 0)
  {
    Quotient4(year);
    Quotient100(year);
    Quotient400(year);
  }

  lemma Quotient4(year: int)
    requires year > 1970
    ensures (year - 1969) / 4 == (year - 1970) / 4 + (if (year - 1) % 4 == 0 then 1 else 0)
  {
  }

  lemma Quotient100(year: int)
    requires year > 1970
    ensures (year - 1901) / 100 == (year - 1902) / 100 + (if (year - 1) % 100 == 0 then 1 else 0)
  {
  }

  lemma Quotient400(year: int)
    requires year > 1970
    ensures (year - 1601) / 400 == (year - 1602) / 400 + (if (year - 1) % 400 == 0 then 1 else 0)
  {
  }

  lemma Centuries(year: int)
    ensures year % 400 == 0 ==> year % 100 == 0
    ensures year % 100 == 0 ==> year % 4 == 0
  {
  }

  // The closed form for the days of the years before a year.
  lemma {:induction false} YearFormula(year: int)
    requires year >= 1970
    ensures var y := year - 1900;
            DaysBeforeYear(year) == 365 * (y - 70) + (y - 69) / 4 - (y - 1) / 100 + (y + 299) / 400
    decreases year
  {
    if year > 1970 {
      YearFormula(year - 1);
      QuotientSteps(year);
      Centuries(year - 1);
    }
  }

  // The count is the number of ticks since the epoch: it starts at 0 and grows by one a second.
  lemma TickCounts(t: Time)
    requires ValidTime(t)
    ensures ValidTime(Tick(t)) && Seconds(Tick(t)) == Seconds(t) + 1
  {
  }

  lemma {:induction false} SecondsIsTicks(n: nat)
    ensures ValidTime(Ticks(n)) && Seconds(Ticks(n)) == n
  {
    if n > 0 {
      SecondsIsTicks(n - 1);
      TickCounts(Ticks(n - 1));
    }
  }

  // Calendar order.
  predicate Before(a: Time, b: Time) {
    a.year < b.year || (a.year == b.year &&
    (a.mon < b.mon || (a.mon == b.mon &&
    (a.day < b.day || (a.day == b.day &&
    (a.hour < b.hour || (a.hour == b.hour &&
    (a.min < b.min || (a.min == b.min && a.sec < b.sec)))))))))
  }

  lemma {:induction false} YearsGrow(a: int, b: int)
    requires 1970 <= a < b
    ensures DaysBeforeYear(a) + (if IsLeap(a) then 366 else 365) <= DaysBeforeYear(b)
    decreases b
  {
    if a + 1 < b {
      YearsGrow(a, b - 1);
    }
  }

  lemma DayInYear(t: Time)
    requires ValidTime(t)
    ensures 0 <= DaysBeforeMonth(t.year, t.mon) + t.day - 1 < (if IsLeap(t.year) then 366 else 365)
  {
    MonthStarts(t.year, t.mon);
  }

  lemma DayOrder(a: Time, b: Time)
    requires ValidTime(a) && ValidTime(b) && a.year == b.year && (a.mon < b.mon || (a.mon == b.mon && a.day < b.day))
    ensures DaysBeforeMonth(a.year, a.mon) + a.day < DaysBeforeMonth(b.year, b.mon) + b.day
  {
    MonthStarts(a.year, a.mon);
    MonthStarts(b.year, b.mon);
  }

  lemma SecondsOrdered(a: Time, b: Time)
    requires ValidTime(a) && ValidTime(b) && Before(a, b)
    ensures Seconds(a) < Seconds(b)
  {
    DayInYear(a);
    DayInYear(b);
    if a.year < b.year {
      YearsGrow(a.year, b.year);
    } else if a.mon < b.mon || (a.mon == b.mon && a.day < b.day) {
      DayOrder(a, b);
    }
  }

  // The last time a 32-bit timestamp can name.
  const LAST: Time := Time(15, 28, 6, 7, 2, 2106)

  // The timestamp is exact up to that time, and wraps for every later one.
  lemma TimestampExact(t: Time)
    requires ValidTime(t)
    ensures Seconds(t) % 0x1_0000_0000 == Seconds(t) <==> !Before(LAST, t)
  {
    LastCount();
    DayInYear(t);
    if t.year > 1970 {
      YearsGrow(1970, t.year);
    }
    if Before(LAST, t) {
      SecondsOrdered(LAST, t);
    } else if Before(t, LAST) {
      SecondsOrdered(t, LAST);
    }
  }

  lemma LastCount()
    ensures ValidTime(LAST) && Seconds(LAST) == 0xffff_ffff
  {
    YearFormula(2106);
    MonthStarts(2106, 2);
  }

  // The product (year - 70) * 31536000 is computed in a signed int, which holds it up to 2038.
  lemma ProductFitsInt(year: int)
    requires year >= 1970
    ensures (year - 1900 - 70) * 31536000 < 0x8000_0000 <==> year <= 2038
  {
  }
}
