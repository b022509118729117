/** Seconds since the epoch taken apart into calendar fields, against closed forms of the calendar. */
module Calendar {

  function TruncDiv(a: int, b: int): int
    requires b > 0
  {
    if a >= 0 then a / b else -((-a) / b)
  }

  function TruncMod(a: int, b: int): int
    requires b > 0
  {
    a - b * TruncDiv(a, b)
  }

  predicate IsLeap(year: nat) {
    if year % 4 != 0 then false else if year % 100 != 0 then true else year % 400 == 0
  }

  function DaysInYear(year: nat): nat { if IsLeap(year) then 366 else 365 }

  const MEAN_MDAYS := [31, 28, 31, 30, 31, 30, 31, 31, 30, 31, 30, 31]
  const LEAP_MDAYS := [31, 29, 31, 30, 31, 30, 31, 31, 30, 31, 30, 31]

  function MonthLengths(leap: bool): (r: seq<int>)
    ensures |r| == 12 && forall m :: 0 <= m < 12 ==> 28 <= r[m] <= 31
  {
    if leap then LEAP_MDAYS else MEAN_MDAYS
  }

  // ----- the calendar in closed form -----

  /** Days from the epoch to the first of January. */
  function DaysBeforeYear(year: nat): int
    requires year >= 1
  {
    365 * (year - 1970) + (year - 1) / 4 - (year - 1) / 100 + (year - 1) / 400 - 477
  }

  const CUMULATED := [0, 31, 59, 90, 120, 151, 181, 212, 243, 273, 304, 334, 365]

  /** Days from the first of January to the first of the month. */
  function DaysBeforeMonth(leap: bool, mon: nat): int
    requires mon <= 12
  {
    CUMULATED[mon] + if leap && mon >= 2 then 1 else 0
  }

  lemma MonthStep(leap: bool, mon: nat)
    requires mon < 12
    ensures DaysBeforeMonth(leap, mon + 1) == DaysBeforeMonth(leap, mon) + MonthLengths(leap)[mon]
  {
  }

  function DayNumber(year: nat, mon: nat, mday: int): int
    requires year >= 1 && mon < 12
  {
    DaysBeforeYear(year) + DaysBeforeMonth(IsLeap(year), mon) + mday - 1
  }

  lemma YearStep(year: nat)
    requires year >= 1
    ensures DaysBeforeYear(year + 1) == DaysBeforeYear(year) + DaysInYear(year)
  {
    Quotient(year, 4);
    Quotient(year, 100);
    Quotient(year, 400);
    Divides(year, 4, 25);
    Divides(year, 100, 4);
  }

  lemma Quotient(n: nat, k: nat)
    requires n >= 1 && k in {4, 100, 400}
    ensures n / k == (n - 1) / k + if n % k == 0 then 1 else 0
  {
  }

  lemma Divides(n: nat, a: nat, b: nat)
    requires (a == 4 && b == 25) || (a == 100 && b == 4)
    ensures n % (a * b) == 0 ==> n % a == 0
  {
  }

  /** The usual formula that counts years from the first of March agrees. */
  lemma MarchBased(year: nat, mon: nat, mday: int)
    requires year >= 1 && mon < 12
    ensures var y := if mon < 2 then year - 1 else year;
            var mp := if mon < 2 then mon + 10 else mon - 2;
            DayNumber(year, mon, mday) == 365 * y + y / 4 - y / 100 + y / 400 + (153 * mp + 2) / 5 + mday - 1 - 719468
  {
    YearStep(year);
    MonthFormula(IsLeap(year), mon);
  }

  lemma MonthFormula(leap: bool, mon: nat)
    requires mon < 12
    ensures DaysBeforeMonth(leap, mon)
         == if mon < 2 then (153 * (mon + 10) + 2) / 5 - 306
            else (153 * (mon - 2) + 2) / 5 + (if leap then 60 else 59)
  {
  }

  // ----- the program -----

  class Tm {
    var sec: int
    var min: int
    var hour: int
    var mday: int
    var mon: int
    var year: int
    var wday: int
    var yday: int
    var isdst: int

    ghost function Fields(): Civil
      reads this
    {
      Civil(year + 1900, mon, mday, hour, min, sec)
    }
  }

  datatype Civil = Civil(year: int, mon: int, mday: int, hour: int, min: int, sec: int)

  predicate InRange(c: Civil) {
    && c.year >= 1970 && 0 <= c.mon < 12 && 1 <= c.mday <= MonthLengths(IsLeap(c.year))[c.mon]
    && 0 <= c.hour < 24 && 0 <= c.min < 60 && 0 <= c.sec < 60
  }

  /** Seconds since the epoch, by the closed form. */
  function Seconds(c: Civil): int
    requires InRange(c)
  {
    DayNumber(c.year, c.mon, c.mday) * 86400 + c.hour * 3600 + c.min * 60 + c.sec
  }

  method GetLocaltimeSafe(loc: Tm, t: int, tz: int, dst: int)
    modifies loc
    ensures var shifted := t - tz + 3600 * dst;
            && loc.isdst == dst
            && (InRange(loc.Fields()) <==> shifted >= 0)
            && (shifted >= 0 ==>
                  && Seconds(loc.Fields()) == shifted
                  && loc.wday == (DayNumber(loc.year + 1900, loc.mon, loc.mday) + 4) % 7
                  && loc.yday == DaysBeforeMonth(IsLeap(loc.year + 1900), loc.mon) + loc.mday - 1)
            && (shifted < 0 ==> BeforeEpoch(loc.Fields(), loc.wday, loc.yday, -shifted))
  {
    hide DaysBeforeYear, TruncDiv, TruncMod, IsLeap;
    var shifted := t - tz;
    shifted := shifted + 3600 * dst;
    var days := TruncDiv(shifted, 86400);
    var seconds := TruncMod(shifted, 86400);
    loc.isdst := dst;
    loc.hour := TruncDiv(seconds, 3600);
    loc.min := TruncDiv(TruncMod(seconds, 3600), 60);
    loc.sec := TruncMod(TruncMod(seconds, 3600), 60);
    TimeOfDay(shifted);
    if shifted < 0 { TimeBefore(-shifted); } else { DayOfWeek(days); }
    loc.wday := TruncMod(days + 4, 7);
    days := FindYear(loc, days);
    loc.yday := days;
    days := FindMonth(loc, days);
    loc.mday := days + 1;
    loc.year := loc.year - 1900;
  }

  /** The fields for a time `ago` seconds before the epoch, with divisions that round towards zero: a day of
      January 1970 that is not positive, and a time of day that is not either. */
  predicate BeforeEpoch(c: Civil, wday: int, yday: int, ago: nat) {
    var days := ago / 86400;
    && c.year == 1970 && c.mon == 0 && c.mday == 1 - days && yday == -days
    && c.hour == -(ago % 86400 / 3600) && c.min == -(ago % 3600 / 60) && c.sec == -(ago % 60)
    && wday == if days <= 4 then 4 - days else -((days - 4) % 7)
  }

  /** The time of day is in range exactly if time does not run before the epoch within its day. */
  lemma TimeOfDay(shifted: int)
    ensures var days, seconds := TruncDiv(shifted, 86400), TruncMod(shifted, 86400);
            var hour := TruncDiv(seconds, 3600);
            var min, sec := TruncDiv(TruncMod(seconds, 3600), 60), TruncMod(TruncMod(seconds, 3600), 60);
            && days * 86400 + hour * 3600 + min * 60 + sec == shifted
            && (shifted >= 0 ==> days >= 0 && 0 <= hour < 24 && 0 <= min < 60 && 0 <= sec < 60)
            && (shifted < 0 ==> days < 0 || hour < 0 || min < 0 || sec < 0)
  {
  }

  /** The same before the epoch, part by part. */
  lemma TimeBefore(ago: nat)
    requires ago > 0
    ensures var days, seconds := TruncDiv(0 - ago, 86400), TruncMod(0 - ago, 86400);
            && days == -(ago / 86400) && TruncDiv(seconds, 3600) == -(ago % 86400 / 3600)
            && TruncDiv(TruncMod(seconds, 3600), 60) == -(ago % 3600 / 60)
            && TruncMod(TruncMod(seconds, 3600), 60) == -(ago % 60)
            && TruncMod(days + 4, 7) == if ago / 86400 <= 4 then 4 - ago / 86400 else -((ago / 86400 - 4) % 7)
  {
    hide TruncDiv, TruncMod;
    Remainders(ago);
    Before(ago, 86400);
    Before(ago % 86400, 3600);
    Before(ago % 3600, 60);
    WeekDayBefore(ago / 86400);
  }

  lemma Before(n: nat, k: nat)
    requires k in {60, 3600, 86400}
    ensures TruncDiv(0 - n, k) == 0 - n / k && TruncMod(0 - n, k) == 0 - n % k
  {
  }

  lemma Remainders(n: nat)
    ensures n % 86400 % 3600 == n % 3600 && n % 3600 % 60 == n % 60
  {
  }

  lemma WeekDayBefore(days: nat)
    ensures TruncMod(0 - days + 4, 7) == if days <= 4 then 4 - days else -((days - 4) % 7)
  {
  }

  lemma DayOfWeek(days: int)
    requires days >= 0
    ensures TruncMod(days + 4, 7) == (days + 4) % 7
  {
  }

  /** Subtract whole years. A negative number of days stays in 1970. */
  method FindYear(loc: Tm, days0: int) returns (days: int)
    modifies loc`year
    ensures loc.year >= 1970 && days0 == DaysBeforeYear(loc.year) + days && days < DaysInYear(loc.year)
    ensures days0 >= 0 ==> days >= 0
    ensures days0 <= 0 ==> days == days0 && loc.year == 1970
  {
    days := days0;
    loc.year := 1970;
    while true
      invariant loc.year >= 1970 && days0 == DaysBeforeYear(loc.year) + days
      invariant if days0 > 0 then days >= 0 else days == days0 && loc.year == 1970
      decreases days
    {
      hide DaysBeforeYear;
      var daysThisYear := 365 + if IsLeap(loc.year) then 1 else 0;
      if daysThisYear > days { break; }
      YearStep(loc.year);
      days := days - daysThisYear;
      loc.year := loc.year + 1;
    }
  }

  /** Subtract whole months; the table is not left. */
  method FindMonth(loc: Tm, yday: int) returns (days: int)
    requires loc.year >= 1970 && yday < DaysInYear(loc.year)
    modifies loc`mon
    ensures 0 <= loc.mon < 12 && yday == DaysBeforeMonth(IsLeap(loc.year), loc.mon) + days
    ensures days < MonthLengths(IsLeap(loc.year))[loc.mon]
    ensures yday >= 0 ==> days >= 0
    ensures yday <= 0 ==> days == yday && loc.mon == 0
  {
    days := yday;
    loc.mon := 0;
    var mdays := if IsLeap(loc.year) then LEAP_MDAYS else MEAN_MDAYS;
    while days >= mdays[loc.mon]
      invariant 0 <= loc.mon < 12 && yday == DaysBeforeMonth(IsLeap(loc.year), loc.mon) + days
      invariant if yday > 0 then days >= 0 else days == yday && loc.mon == 0
      decreases 12 - loc.mon
    {
      MonthStep(IsLeap(loc.year), loc.mon);
      days := days - mdays[loc.mon];
      loc.mon := loc.mon + 1;
    }
  }

  // ----- order -----

  /** Field by field, from the year down. */
  predicate Earlier(a: Civil, b: Civil) {
    a.year < b.year || (a.year == b.year && (
    a.mon < b.mon || (a.mon == b.mon && (
    a.mday < b.mday || (a.mday == b.mday && (
    a.hour < b.hour || (a.hour == b.hour && (
    a.min < b.min || (a.min == b.min && a.sec < b.sec)))))))))
  }

  lemma {:induction false} YearsGrow(y: nat, z: nat)
    requires 1970 <= y < z
    ensures DaysBeforeYear(y) + DaysInYear(y) <= DaysBeforeYear(z)
    decreases z - y
  {
    YearStep(y);
    if y + 1 < z { YearsGrow(y + 1, z); }
  }

  lemma MonthsGrow(leap: bool, m: nat, n: nat)
    requires m < n < 12
    ensures DaysBeforeMonth(leap, m) + MonthLengths(leap)[m] <= DaysBeforeMonth(leap, n)
  {
  }

  /** A day of the year is in its year. */
  lemma DayInYear(c: Civil)
    requires InRange(c)
    ensures 0 <= DayNumber(c.year, c.mon, c.mday) - DaysBeforeYear(c.year) < DaysInYear(c.year)
  {
  }

  lemma EarlierIsSmaller(a: Civil, b: Civil)
    requires InRange(a) && InRange(b) && Earlier(a, b)
    ensures Seconds(a) < Seconds(b)
  {
    hide DaysBeforeYear, DaysBeforeMonth;
    if a.year < b.year {
      YearsGrow(a.year, b.year);
      DayInYear(a);
      DayInYear(b);
    } else if a.mon < b.mon {
      MonthsGrow(IsLeap(a.year), a.mon, b.mon);
    }
  }

  /** The fields determine the time and keep its order: later times give later fields. */
  lemma OrderKept(a: Civil, b: Civil)
    requires InRange(a) && InRange(b)
    ensures Seconds(a) < Seconds(b) <==> Earlier(a, b)
    ensures Seconds(a) == Seconds(b) <==> a == b
  {
    hide Seconds, InRange;
    if Earlier(a, b) { EarlierIsSmaller(a, b); }
    else if Earlier(b, a) { EarlierIsSmaller(b, a); }
  }
}
