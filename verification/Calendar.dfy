/** The calendar arithmetic of app_iothub_client/src/stub.c: seconds since 1970-01-01 from a
    broken-down time, proved against a day count that walks the proleptic Gregorian calendar
    one year and one month at a time. Years are tm years, that is, years since 1900. */
module Calendar {

  /** The C type int. The verifier checks every operation on it for overflow. */
  newtype int32 = x: int | -0x8000_0000 <= x < 0x8000_0000

  const DAY := 86400

  // ---------- The reference calendar ----------

  predicate IsLeap(year: int) {
    var y := year + 1900;
    (y % 4 == 0 && y % 100 != 0) || y % 400 == 0
  }

  function YearLength(year: int): int {
    if IsLeap(year) then 366 else 365
  }

  /** Days from 1970-01-01 to the first day of the given year, one year at a time. */
  ghost function DaysToYear(year: int): int
    decreases if year < 70 then 70 - year else year - 70
  {
    if year == 70 then 0
    else if year > 70 then DaysToYear(year - 1) + YearLength(year - 1)
    else DaysToYear(year + 1) - YearLength(year)
  }

  function MonthLength(month: int, leap: bool): int
    requires 0 <= month < 12
  {
    if month == 1 then (if leap then 29 else 28)
    else if month == 3 || month == 5 || month == 8 || month == 10 then 30
    else 31
  }

  function DaysToMonth(month: int, leap: bool): int
    requires 0 <= month < 12
    decreases month
  {
    if month == 0 then 0 else DaysToMonth(month - 1, leap) + MonthLength(month - 1, leap)
  }

  /** Where the months begin, in closed form: from March on five months have 153 days. */
  lemma DaysToMonthClosed(month: int, leap: bool)
    requires 0 <= month < 12
    ensures DaysToMonth(month, leap) ==
            if month < 2 then 31 * month else 59 + (153 * (month - 2) + 2) / 5 + if leap then 1 else 0
  {
    if month > 0 {
      DaysToMonthClosed(month - 1, leap);
    }
  }

  /** The day number of a date whose month may lie outside its year. */
  ghost function DayNumber(year: int, month: int, mday: int): int {
    var y := year + month / 12;
    DaysToYear(y) + DaysToMonth(month % 12, IsLeap(y)) + mday - 1
  }

  // ---------- Facts about the reference calendar ----------

  /** Leap years before the given year, in closed form. */
  function LeapsBefore(year: int): int {
    var y := year + 1899;
    y / 4 - y / 100 + y / 400
  }

  lemma LeapStep(year: int)
    ensures LeapsBefore(year + 1) == LeapsBefore(year) + if IsLeap(year) then 1 else 0
  {
    var y := year + 1900;
    QuotientSteps4(y);
    QuotientSteps100(y);
    QuotientSteps400(y);
    Multiples(y);
  }

  lemma QuotientSteps4(y: int)
    ensures y / 4 == (y - 1) / 4 + if y % 4 == 0 then 1 else 0
  {
  }

  lemma QuotientSteps100(y: int)
    ensures y / 100 == (y - 1) / 100 + if y % 100 == 0 then 1 else 0
  {
  }

  lemma QuotientSteps400(y: int)
    ensures y / 400 == (y - 1) / 400 + if y % 400 == 0 then 1 else 0
  {
  }

  lemma Multiples(y: int)
    ensures (y % 400 == 0 ==> y % 100 == 0) && (y % 100 == 0 ==> y % 4 == 0)
  {
  }

  lemma {:induction false} DaysToYearClosed(year: int)
    ensures DaysToYear(year) == 365 * (year - 70) + LeapsBefore(year) - LeapsBefore(70)
    decreases if year < 70 then 70 - year else year - 70
  {
    if year > 70 {
      DaysToYearClosed(year - 1);
      LeapStep(year - 1);
    } else if year < 70 {
      DaysToYearClosed(year + 1);
      LeapStep(year);
    }
  }

  /** The date after a valid date. */
  function NextDay(year: int, month: int, mday: int): (int, int, int)
    requires 0 <= month < 12
  {
    if mday < MonthLength(month, IsLeap(year)) then (year, month, mday + 1)
    else if month < 11 then (year, month + 1, 1)
    else (year + 1, 0, 1)
  }

  /** Day numbers count calendar days: the next date has the next number. */
  lemma NextDayHasNextNumber(year: int, month: int, mday: int)
    requires 0 <= month < 12 && 1 <= mday <= MonthLength(month, IsLeap(year))
    ensures var (y, m, d) := NextDay(year, month, mday);
            DayNumber(y, m, d) == DayNumber(year, month, mday) + 1
  {
    if month == 11 && mday == 31 {
      DaysToYearClosed(year);
      DaysToYearClosed(year + 1);
      LeapStep(year);
      DecemberEnds(IsLeap(year));
    } else {
      assert month / 12 == 0 && month % 12 == month;
      if month < 11 { assert (month + 1) / 12 == 0 && (month + 1) % 12 == month + 1; }
    }
  }

  lemma DecemberEnds(leap: bool)
    ensures DaysToMonth(11, leap) + 31 == if leap then 366 else 365
  {
    var m := 0;
    while m < 11
      invariant 0 <= m <= 11
      invariant DaysToMonth(m, leap) == MonthTable(m) / DAY + if leap && m >= 2 then 1 else 0
    {
      m := m + 1;
    }
  }

  /** The days to a year, with floored divisions, before 1970 as well. */
  lemma DaysToYearFormula(year: int)
    ensures DaysToYear(year) == 365 * (year - 70) + (year - 69) / 4 - (year - 1) / 100 + (year + 299) / 400
  {
    DaysToYearClosed(year);
    var y := year + 1899;
    QuotientIs(y, 4, (year - 69) / 4 + 492);
    QuotientIs(y, 100, (year - 1) / 100 + 19);
    QuotientIs(y, 400, (year + 299) / 400 + 4);
  }

  /** From 1970 on, the day count is the formula of "Seconds Since the Epoch", section 4.16 of
      the Base Definitions volume of POSIX.1-2017, whose divisions truncate. */
  lemma AgreesWithPosix(year: int, yday: int, hour: int, min: int, sec: int)
    requires year >= 70
    ensures DAY * (DaysToYear(year) + yday) + 3600 * hour + 60 * min + sec
            == sec + min * 60 + hour * 3600 + yday * 86400 + (year - 70) * 31536000
               + ((year - 69) / 4) * 86400 - ((year - 1) / 100) * 86400 + ((year + 299) / 400) * 86400
  {
    DaysToYearFormula(year);
  }

  lemma DayNumberIs(year: int, month: int, mday: int)
    ensures var y := year + month / 12;
            DayNumber(year, month, mday) == DaysToYear(y) + DaysToMonth(month % 12, IsLeap(y)) + mday - 1
  {
  }

  /** The day number of any date, from its year, month and day alone. */
  lemma DayNumberFormula(year: int, month: int, mday: int)
    ensures var y := year + month / 12; var m := month % 12;
            DayNumber(year, month, mday) ==
              365 * (y - 70) + (y - 69) / 4 - (y - 1) / 100 + (y + 299) / 400
              + (if m < 2 then 31 * m
                 else 59 + (153 * (m - 2) + 2) / 5
                      + if ((y + 1900) % 4 == 0 && (y + 1900) % 100 != 0) || (y + 1900) % 400 == 0 then 1 else 0)
              + mday - 1
  {
    var y, m := year + month / 12, month % 12;
    DaysToYearFormula(y);
    DaysToMonthClosed(m, IsLeap(y));
  }

  // ---------- The code ----------

  /** C's division and remainder, which truncate toward zero. */
  function CDiv(a: int, b: int): int
    requires b > 0
  {
    if a >= 0 then a / b else -((-a) / b)
  }

  function CMod(a: int, b: int): int
    requires b > 0
  {
    a - b * CDiv(a, b)
  }

  /** The range of the first subtraction modulo 2^64 that selects the fast path. */
  predicate InFastPath(year: int) {
    (year - 2) % 0x1_0000_0000_0000_0000 <= 136
  }

  predicate IsInt(x: int) {
    -0x8000_0000 <= x < 0x8000_0000
  }

  /** The int sums of the 400-year-cycle path do not overflow. They leave the range for years some nine
      billion away, which the type of the parameter allows and no tm can name. */
  predicate SumsFit(year: int) {
    var s := 97 * Cycle(year) + 24 * Century(year);
    var t := s - if IsLeap(year) then 1 else 0;
    IsInt(97 * Cycle(year)) && IsInt(s) && IsInt(t) && IsInt(t + InCentury(year) / 4)
  }

  lemma TmYearFits(year: int)
    requires -0x8000_0000 - 0x1000_0000 <= year < 0x8000_0000 + 0x1000_0000
    ensures SumsFit(year)
  {
    hide IsLeap, Cycle, Century, InCentury;
    CycleParts(year);
  }

  /** The 400-year cycle since 2000 that a year is in, the century in it, and the year in that. */
  function Cycle(year: int): int {
    (year - 100) / 400
  }

  function Century(year: int): int {
    (year - 100) % 400 / 100
  }

  function InCentury(year: int): int {
    (year - 100) % 400 % 100
  }

  lemma CycleParts(year: int)
    ensures year == 100 + 400 * Cycle(year) + 100 * Century(year) + InCentury(year)
    ensures 0 <= Century(year) < 4 && 0 <= InCentury(year) < 100
    ensures IsLeap(year) <==> InCentury(year) % 4 == 0 && (InCentury(year) != 0 || Century(year) == 0)
    ensures LeapsBefore(year) == LeapsBefore(100) + 97 * Cycle(year) + 24 * Century(year) + 1 + InCentury(year) / 4
                                 - if IsLeap(year) then 1 else 0
  {
    hide IsLeap, LeapsBefore;
    CycleLeaps(year, Cycle(year), Century(year), InCentury(year));
  }

  /** Leap years before a year of the fast path. */
  lemma FastLeaps(year: int)
    requires 2 <= year <= 138
    ensures IsLeap(year) <==> (year - 68) % 4 == 0
    ensures LeapsBefore(year) == LeapsBefore(70) + (year - 68) / 4 - if IsLeap(year) then 1 else 0
  {
    if year >= 100 {
      CycleLeaps(year, 0, 0, year - 100);
    } else {
      CycleLeaps(year, -1, 3, year);
    }
    assert LeapsBefore(100) == 484 && LeapsBefore(70) == 477;
    assert (year - 68) % 4 == year % 4 && (year - 68) / 4 == year / 4 - 17;
  }

  /** The years from 1902 to 2038. */
  method YearToSecsFast(year: int) returns (t: int, isLeap: bool)
    requires 2 <= year <= 138
    ensures t == DAY * DaysToYear(year) && isLeap == IsLeap(year)
  {
    FastLeaps(year);
    DaysToYearClosed(year);
    var y := year as int32;
    var leaps: int32 := (y - 68) / 4;
    assert leaps as int == (year - 68) / 4;
    if (y - 68) % 4 == 0 {
      leaps := leaps - 1;
      isLeap := true;
    } else {
      isLeap := false;
    }
    var r: int32 := 31536000 * (y - 70) + 86400 * leaps;
    t := r as int;
  }

  /** The start of the 400-year-cycle path: floored division, from C's truncating one. */
  method CycleOf(year: int) returns (cycles: int32, rem: int32)
    requires IsInt(97 * Cycle(year))
    ensures cycles as int == Cycle(year) && rem as int == (year - 100) % 400
  {
    cycles := CDiv(year - 100, 400) as int32;
    rem := CMod(year - 100, 400) as int32;
    if rem < 0 {
      cycles := cycles - 1;
      rem := rem + 400;
    }
    QuotientIs(year - 100, 400, cycles as int);
  }

  /** The century and the leap years in it, from the year's place in its cycle. */
  method SplitCentury(year: int32) returns (centuries: int32, leaps: int32, isLeap: bool)
    requires 0 <= year < 400
    ensures centuries as int == year as int / 100 && leaps as int == year as int % 100 / 4
    ensures isLeap <==> year as int % 100 % 4 == 0 && (year as int % 100 != 0 || centuries == 0)
  {
    var rem := year;
    if rem == 0 {
      isLeap := true;
      centuries := 0;
      leaps := 0;
    } else {
      if rem >= 200 {
        if rem >= 300 {
          centuries, rem := 3, rem - 300;
        } else {
          centuries, rem := 2, rem - 200;
        }
      } else if rem >= 100 {
        centuries, rem := 1, rem - 100;
      } else {
        centuries := 0;
      }
      assert centuries as int == year as int / 100 && rem as int == year as int % 100;
      if rem == 0 {
        isLeap := false;
        leaps := 0;
      } else {
        leaps := rem / 4;
        rem := rem % 4;
        isLeap := rem == 0;
      }
    }
  }

  /** Where a year stands in its 400-year cycle, and whether it is a leap year: the middle of the
      400-year-cycle path. */
  method SplitCycle(year: int) returns (cycles: int32, centuries: int32, leaps: int32, isLeap: bool)
    requires SumsFit(year)
    ensures cycles as int == Cycle(year) && centuries as int == Century(year) && leaps as int == InCentury(year) / 4
    ensures isLeap == IsLeap(year)
  {
    hide IsLeap, LeapsBefore, Cycle;
    CycleParts(year);
    var rem;
    cycles, rem := CycleOf(year);
    centuries, leaps, isLeap := SplitCentury(rem);
  }

  /** The 400-year-cycle path. It is right for every year, those of the fast path included. */
  method YearToSecsCycles(year: int) returns (t: int, isLeap: bool)
    requires SumsFit(year)
    ensures t == DAY * DaysToYear(year) && isLeap == IsLeap(year)
  {
    hide IsLeap, Cycle, Century, InCentury, DaysToYear;
    CycleParts(year);
    var cycles: int32, centuries: int32, leaps: int32;
    cycles, centuries, leaps, isLeap := SplitCycle(year);
    leaps := leaps + (97 * cycles + 24 * centuries - if isLeap then 1 else 0);
    t := (year - 100) * 31536000 + leaps as int * 86400 + 946684800 + 86400;
    DaysToYearClosed(year);
    assert LeapsBefore(100) == 484 && LeapsBefore(70) == 477;
  }

  lemma QuotientIs(x: int, d: int, q: int)
    requires (d == 4 || d == 100 || d == 400) && q * d <= x < q * d + d
    ensures x / d == q
  {
    if d == 4 {
    } else if d == 100 {
    } else {
    }
  }

  /** Leap years before a year that is c centuries and r years into its 400-year cycle. */
  lemma CycleLeaps(year: int, cycles: int, c: int, r: int)
    requires year == 100 + 400 * cycles + 100 * c + r && 0 <= c < 4 && 0 <= r < 100
    ensures IsLeap(year) <==> r % 4 == 0 && (r != 0 || c == 0)
    ensures LeapsBefore(year) == LeapsBefore(100) + 97 * cycles + 24 * c + 1 + r / 4 - if IsLeap(year) then 1 else 0
  {
    var y := year + 1900;
    QuotientIs(y, 4, 500 + 100 * cycles + 25 * c + r / 4);
    QuotientIs(y, 100, 20 + 4 * cycles + c);
    QuotientIs(y, 400, 5 + cycles);
    assert y % 4 == r % 4 && y % 100 == r && y % 400 == 100 * c + r;
    QuotientIs(y - 1, 4, 500 + 100 * cycles + 25 * c + (r + 3) / 4 - 1);
    QuotientIs(y - 1, 100, 20 + 4 * cycles + c - if r == 0 then 1 else 0);
    QuotientIs(y - 1, 400, 5 + cycles - if c == 0 && r == 0 then 1 else 0);
  }

  method YearToSecs(year: int) returns (t: int, isLeap: bool)
    requires SumsFit(year)
    ensures t == DAY * DaysToYear(year) && isLeap == IsLeap(year)
  {
    if InFastPath(year) {
      t, isLeap := YearToSecsFast(year);
    } else {
      t, isLeap := YearToSecsCycles(year);
    }
  }

  function MonthTable(month: int): int
    requires 0 <= month < 12
  {
    [0, 31 * 86400, 59 * 86400, 90 * 86400, 120 * 86400, 151 * 86400, 181 * 86400, 212 * 86400,
     243 * 86400, 273 * 86400, 304 * 86400, 334 * 86400][month]
  }

  method MonthToSecs(month: int32, isLeap: bool) returns (t: int32)
    requires 0 <= month < 12
    ensures t as int == DAY * DaysToMonth(month as int, isLeap)
    ensures var m := month as int;
            t as int == 86400 * if m < 2 then 31 * m else 59 + (153 * (m - 2) + 2) / 5 + if isLeap then 1 else 0
  {
    DaysToMonthClosed(month as int, isLeap);
    t := MonthTable(month as int) as int32;
    if isLeap && month >= 2 {
      t := t + 86400;
    }
    MonthTableRight(month as int, isLeap);
  }

  lemma {:induction false} MonthTableRight(month: int, leap: bool)
    requires 0 <= month < 12
    ensures MonthTable(month) + (if leap && month >= 2 then DAY else 0) == DAY * DaysToMonth(month, leap)
  {
    if month > 0 {
      MonthTableRight(month - 1, leap);
    }
  }

  /** Seconds since the epoch of a broken-down time with any month, day and clock fields. */
  method TmToSecs(tmYear: int32, tmMon: int32, tmMday: int, tmHour: int, tmMin: int, tmSec: int)
    returns (t: int)
    ensures t == DAY * DayNumber(tmYear as int, tmMon as int, tmMday) + 3600 * tmHour + 60 * tmMin + tmSec
    ensures var y := tmYear as int + tmMon as int / 12; var m := tmMon as int % 12;
            t == 86400 * (365 * (y - 70) + (y - 69) / 4 - (y - 1) / 100 + (y + 299) / 400
                          + (if m < 2 then 31 * m
                             else 59 + (153 * (m - 2) + 2) / 5
                                  + if ((y + 1900) % 4 == 0 && (y + 1900) % 100 != 0) || (y + 1900) % 400 == 0 then 1 else 0)
                          + tmMday - 1)
                 + 3600 * tmHour + 60 * tmMin + tmSec
  {
    hide DayNumber, DaysToYear, DaysToMonth, IsLeap;
    DayNumberIs(tmYear as int, tmMon as int, tmMday);
    DayNumberFormula(tmYear as int, tmMon as int, tmMday);
    var year := tmYear as int;
    var month := tmMon;
    if month >= 12 || month < 0 {
      var adj := CDiv(month as int, 12) as int32;
      month := CMod(month as int, 12) as int32;
      if month < 0 {
        adj := adj - 1;
        month := month + 12;
      }
      year := year + adj as int;
      assert tmMon as int == 12 * adj as int + month as int;
    }
    assert year == tmYear as int + tmMon as int / 12 && month as int == tmMon as int % 12;
    TmYearFits(year);
    var isLeap;
    t, isLeap := YearToSecs(year);
    var m := MonthToSecs(month, isLeap);
    t := t + m as int;
    t := t + 86400 * (tmMday - 1);
    t := t + 3600 * tmHour;
    t := t + 60 * tmMin;
    t := t + tmSec;
  }
}
