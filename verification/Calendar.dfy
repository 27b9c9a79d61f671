/**
 Broken-down time to seconds since the Epoch in the boot C library, against the
 Gregorian calendar and the formula of section 4.16 of the POSIX.1-2017 Base
 Definitions. The source's integer widths are written out: `U64` is unsigned
 64-bit arithmetic, and signed overflow of an `int` is a result of its own.
 */
module Calendar {
  import opened Common

  const TWO_64: int := 0x1_0000_0000_0000_0000

  function U64(x: int): (u: nat)
    ensures u < 0x1_0000_0000_0000_0000
  {
    x % 0x1_0000_0000_0000_0000
  }

  predicate IsInt(x: int) {
    -0x8000_0000 <= x < 0x8000_0000
  }

  /** The conversion of an unsigned 64-bit value to `int`. */
  function ToInt(u: nat): (x: int)
    ensures IsInt(x)
  {
    var low := u % 0x1_0000_0000;
    if low < 0x8000_0000 then low else low - 0x1_0000_0000
  }

  /** A computation that is defined, or one that overflows an `int`. */
  datatype Checked<T> = Value(value: T) | Overflow

  /** Seconds to the start of a year, and whether the year is a leap year. */
  datatype YearStart = YearStart(secs: nat, leap: bool)

  function Flag(b: bool): int {
    if b then 1 else 0
  }

  /** The path for the years 1902 to 2038. */
  function NearYear(year: nat): YearStart
  {
    var y := ToInt(year);
    var quarters := (y - 68) / 4;
    var leap := (y - 68) % 4 == 0;
    var leaps := quarters - Flag(leap);
    YearStart(U64(31536000 * U64(y - 70) + 86400 * U64(leaps)), leap)
  }

  /** A year given by cycles of four hundred years since 2000, whole centuries and the rest. */
  function FromCycles(since: nat, cycles: int, centuries: int, rest: nat): Checked<YearStart>
  {
    var leap := if centuries == 0 && rest == 0 then true else rest != 0 && rest % 4 == 0;
    var quarters := rest / 4;
    var more := 97 * cycles + 24 * centuries - Flag(leap);
    if !IsInt(97 * cycles) || !IsInt(97 * cycles + 24 * centuries) || !IsInt(more) || !IsInt(quarters + more)
    then Overflow
    else
      Value(YearStart(U64(since * 31536000 + U64(quarters + more) * 86400 + 946684800 + 86400), leap))
  }

  /** The path for all other years. */
  function FarYear(year: nat): Checked<YearStart>
  {
    var since := U64(year - 100);
    var cycles := ToInt(since / 400);
    var rem := since % 400;
    var centuries := if rem >= 300 then 3 else if rem >= 200 then 2 else if rem >= 100 then 1 else 0;
    FromCycles(since, cycles, centuries, rem - 100 * centuries)
  }

  /** The library's `__year_to_secs`, for a year counted from 1900. */
  function YearToSecs(year: nat): Checked<YearStart> {
    if U64(year - 2) <= 136 then Value(NearYear(year)) else FarYear(year)
  }

  /** The Gregorian rule. */
  predicate IsLeap(y: int) {
    var year := y + 1900;
    year % 4 == 0 && (year % 100 != 0 || year % 400 == 0)
  }

  function YearLength(y: int): int {
    if IsLeap(y) then 366 else 365
  }

  /** Days from 1 January 1970 to the start of a year, counted one year at a time. */
  function DaysBefore(y: int): int
    decreases if y < 70 then 70 - y else y - 70
  {
    if y == 70 then 0
    else if y > 70 then DaysBefore(y - 1) + YearLength(y - 1)
    else DaysBefore(y + 1) - YearLength(y)
  }

  /** The year terms of the POSIX formula, in days. */
  function PosixDays(y: int): int {
    (y - 70) * 365 + (y - 69) / 4 - (y - 1) / 100 + (y + 299) / 400
  }

  lemma NextQuotient(x: int, m: int)
    requires m == 4 || m == 100 || m == 400
    ensures (x + 1) / m == x / m + Flag((x + 1) % m == 0)
  {
  }

  lemma Shift(x: int, m: int, q: int)
    requires m == 4 || m == 100 || m == 400
    ensures (x + m * q) % m == x % m && (x + m * q) / m == x / m + q
  {
    var r := x % m;
    assert x == m * (x / m) + r;
    Unique(x + m * q, m, x / m + q, r);
  }

  lemma Unique(x: int, m: int, q: int, r: int)
    requires m > 0 && 0 <= r < m && x == m * q + r
    ensures x / m == q && x % m == r
  {
    var q', r' := x / m, x % m;
    assert m * (q - q') == r' - r;
    if q - q' >= 1 {
      Grows(m, 1, q - q');
    } else if q - q' <= -1 {
      Grows(m, q - q', -1);
    }
  }

  lemma Hundreds(z: int)
    ensures z % 400 == 0 ==> z % 100 == 0
    ensures z % 100 == 0 ==> z % 4 == 0
  {
    if z % 400 == 0 {
      Shift(0, 100, 4 * (z / 400));
    }
    if z % 100 == 0 {
      Shift(0, 4, 25 * (z / 100));
    }
  }

  lemma Remainders(y: int)
    ensures (y - 68) % 4 == (y + 1900) % 4 == y % 4
    ensures y % 100 == (y + 1900) % 100
    ensures (y + 300) % 400 == (y + 1900) % 400
    ensures (y + 1900) % 400 == 0 ==> (y + 1900) % 100 == 0
    ensures (y + 1900) % 100 == 0 ==> (y + 1900) % 4 == 0
  {
    Shift(y - 68, 4, 492);
    Shift(y, 4, 475);
    Shift(y, 100, 19);
    Shift(y + 300, 400, 4);
    Hundreds(y + 1900);
  }

  lemma PosixYear(y: int)
    ensures PosixDays(y + 1) == PosixDays(y) + YearLength(y)
  {
    NextQuotient(y - 69, 4);
    NextQuotient(y - 1, 100);
    NextQuotient(y + 299, 400);
    Remainders(y);
  }

  /** The POSIX formula counts the days of the Gregorian calendar. */
  lemma {:induction false} PosixIsGregorian(y: int)
    ensures PosixDays(y) == DaysBefore(y)
    decreases if y < 70 then 70 - y else y - 70
  {
    if y > 70 {
      PosixIsGregorian(y - 1);
      PosixYear(y - 1);
    } else if y < 70 {
      PosixIsGregorian(y + 1);
      PosixYear(y);
    }
  }

  lemma NearDays(y: int)
    requires 2 <= y <= 138
    ensures PosixDays(y) == (y - 70) * 365 + (y - 68) / 4 - Flag((y - 68) % 4 == 0)
    ensures IsLeap(y) <==> (y - 68) % 4 == 0
  {
    NextQuotient(y - 69, 4);
    Remainders(y);
    assert (y - 1) / 100 == (y + 299) / 400 by {
      if y <= 100 {
        Unique(y - 1, 100, 0, y - 1);
        Unique(y + 299, 400, 0, y + 299);
      } else {
        Unique(y - 1, 100, 1, y - 101);
        Unique(y + 299, 400, 1, y - 101);
      }
    }
    assert y % 100 == 0 ==> y == 100;
  }

  /** A year written as cycles, centuries and years since 2000. */
  lemma FarDays(c: nat, e: nat, r: nat)
    requires e < 4 && r < 100
    ensures var y := 100 + 400 * c + 100 * e + r;
            var leap := if e == 0 && r == 0 then true else r != 0 && r % 4 == 0;
            && IsLeap(y) == leap
            && PosixDays(y) == (y - 100) * 365 + r / 4 + 97 * c + 24 * e - Flag(leap) + 10958
  {
    var y := 100 + 400 * c + 100 * e + r;
    Shift(31 + r, 4, 100 * c + 25 * e);
    Shift(99 + r, 100, 4 * c + e);
    Shift(399 + 100 * e + r, 400, c);
    FarQuotients(e, r);
    FarLeap(c, e, r);
  }

  lemma FarQuotients(e: nat, r: nat)
    requires e < 4 && r < 100
    ensures (31 + r) / 4 == 8 + r / 4 - Flag(r % 4 == 0)
    ensures (99 + r) / 100 == Flag(r > 0)
    ensures (399 + 100 * e + r) / 400 == Flag(e > 0 || r > 0)
  {
    NextQuotient(30 + r, 4);
    NextQuotient(31 + r, 4);
    Shift(r, 4, 8);
  }

  lemma FarLeap(c: nat, e: nat, r: nat)
    requires e < 4 && r < 100
    ensures IsLeap(100 + 400 * c + 100 * e + r) <==> (e == 0 && r == 0) || (r != 0 && r % 4 == 0)
  {
    var y := 100 + 400 * c + 100 * e + r;
    Remainders(y);
    Shift(r, 4, 25 + 100 * c + 25 * e);
    Unique(y, 100, 1 + 4 * c + e, r);
    Unique(y + 300, 400, 1 + c, 100 * e + r);
  }

  /** Whole turns of 64 bits do not show. */
  lemma Turns(x: int, k: int)
    ensures U64(x + TWO_64 * k) == U64(x)
  {
    Unique(x + TWO_64 * k, TWO_64, x / TWO_64 + k, x % TWO_64);
  }

  lemma U64Is(x: int)
    requires 0 <= x < TWO_64
    ensures U64(x) == x
  {
  }

  /** Reducing on the way is the same as reducing at the end. */
  lemma U64Sum(a: int, b: int, c: int, d: int, e: int)
    ensures U64(a * U64(b) + c * U64(d) + e) == U64(a * b + c * d + e)
  {
    var p, q := b / TWO_64, d / TWO_64;
    assert U64(b) == b - TWO_64 * p && U64(d) == d - TWO_64 * q;
    assert a * U64(b) + c * U64(d) + e == a * b + c * d + e + TWO_64 * (-(a * p) - c * q) by {
      assert a * (b - TWO_64 * p) == a * b - TWO_64 * (a * p);
      assert c * (d - TWO_64 * q) == c * d - TWO_64 * (c * q);
    }
    Turns(a * b + c * d + e, -(a * p) - c * q);
  }

  lemma NearYearPosix(y: int)
    requires 2 <= y <= 138
    ensures YearToSecs(y) == Value(YearStart(U64(PosixDays(y) * 86400), IsLeap(y)))
  {
    hide PosixDays, IsLeap, U64;
    NearDays(y);
    U64Is(y - 2);
    assert ToInt(y) == y;
    var leaps := (y - 68) / 4 - Flag((y - 68) % 4 == 0);
    U64Sum(31536000, y - 70, 86400, leaps, 0);
    assert 31536000 * (y - 70) + 86400 * leaps == PosixDays(y) * 86400;
  }

  lemma FromCyclesPosix(c: nat, e: nat, r: nat)
    requires c < 0x100_0000 && e < 4 && r < 100
    ensures var y := 100 + 400 * c + 100 * e + r;
            FromCycles(y - 100, c, e, r) == Value(YearStart(U64(PosixDays(y) * 86400), IsLeap(y)))
  {
    hide PosixDays, IsLeap, U64;
    var y := 100 + 400 * c + 100 * e + r;
    FarDays(c, e, r);
    var leaps := r / 4 + 97 * c + 24 * e - Flag(IsLeap(y));
    U64Sum(0, 0, 86400, leaps, (y - 100) * 31536000 + 946684800 + 86400);
    assert 86400 * leaps + (y - 100) * 31536000 + 946684800 + 86400 == PosixDays(y) * 86400;
  }

  lemma FarYearPosix(y: int)
    requires 139 <= y < 0x1_0000_0000
    ensures YearToSecs(y) == Value(YearStart(U64(PosixDays(y) * 86400), IsLeap(y)))
  {
    hide PosixDays, IsLeap, U64, FromCycles;
    U64Is(y - 2);
    U64Is(y - 100);
    var c, rem := (y - 100) / 400, (y - 100) % 400;
    var e := if rem >= 300 then 3 else if rem >= 200 then 2 else if rem >= 100 then 1 else 0;
    assert ToInt(c) == c;
    assert y == 100 + 400 * c + 100 * e + (rem - 100 * e);
    FromCyclesPosix(c, e, rem - 100 * e);
  }

  lemma WrappedCycles(y: int)
    requires -0x8000_0000 <= y < 2
    ensures ToInt((TWO_64 + y - 100) / 400) == 1030792151 + (y - 84) / 400
    ensures -5368710 <= (y - 84) / 400 <= -1
  {
    var k := (y - 84) / 400;
    Unique(TWO_64 + y - 100, 400, 46116860184273879 + k, (y - 84) % 400);
    Unique(46116860184273879 + k, 0x1_0000_0000, 10737418, 1030792151 + k);
  }

  lemma TooManyCycles(since: nat, cycles: int, centuries: int, rest: nat)
    requires cycles >= 0x200_0000
    ensures FromCycles(since, cycles, centuries, rest) == Overflow
  {
  }

  lemma U64Negative(x: int)
    requires -TWO_64 <= x < 0
    ensures U64(x) == TWO_64 + x
  {
  }

  /** Years before 1902 overflow an `int`, because the count of cycles is taken from a wrapped number. */
  lemma EarlyYearOverflows(y: int)
    requires -0x8000_0000 <= y < 2
    ensures YearToSecs(U64(y)) == Overflow
  {
    hide U64, FromCycles, ToInt;
    assert U64(U64(y) - 2) == TWO_64 + y - 2 && U64(U64(y) - 100) == TWO_64 + y - 100 by {
      U64Sum(1, y, 0, 0, -2);
      U64Sum(1, y, 0, 0, -100);
      U64Negative(y - 2);
      U64Negative(y - 100);
    }
    WrappedCycles(y);
    var since := TWO_64 + y - 100;
    var rem := since % 400;
    var e := if rem >= 300 then 3 else if rem >= 200 then 2 else if rem >= 100 then 1 else 0;
    TooManyCycles(since, ToInt(since / 400), e, rem - 100 * e);
  }

  /** The starts of years: defined exactly from 1902 on, and then the Gregorian count of days. */
  lemma YearStartExact(y: int)
    requires -0x8000_0000 <= y < 0x1_0000_0000
    ensures YearToSecs(U64(y)) == if y < 2 then Overflow else Value(YearStart(U64(DaysBefore(y) * 86400), IsLeap(y)))
  {
    PosixIsGregorian(y);
    if y < 2 {
      EarlyYearOverflows(y);
    } else {
      U64Is(y);
      if y <= 138 {
        NearYearPosix(y);
      } else {
        FarYearPosix(y);
      }
    }
  }

  /** The source's `struct tm`, fields it reads; the year counts from 1900 and the month from January. */
  datatype Tm = Tm(sec: int, min: int, hour: int, mday: int, mon: int, year: int) {
    predicate Valid() {
      IsInt(sec) && IsInt(min) && IsInt(hour) && IsInt(mday) && IsInt(mon) && IsInt(year)
    }
  }

  /** The source's table of days before a month of a common year. */
  function TableDays(month: nat): nat
    requires month < 12
  {
    [0, 31, 59, 90, 120, 151, 181, 212, 243, 273, 304, 334][month]
  }

  /** The remainder of C, which takes the sign of the dividend. */
  function TruncMod(x: int, m: int): int
    requires m > 0
  {
    if x >= 0 then x % m else -((-x) % m)
  }

  /** The year and month after the source's carry: the year as 64 bits. */
  function Carried(mon: int, year: int): (r: (nat, nat))
    ensures r.1 < 12
  {
    if 0 <= mon < 12 then (U64(year), mon)
    else
      var adj := U64(mon) / 12;
      var month := TruncMod(mon, 12);
      if month < 0 then (U64(U64(year) + U64(adj - 1)), month + 12) else (U64(U64(year) + adj), month)
  }

  /** The library's `mktime`; its `time_t` is an unsigned 64-bit number. */
  function Mktime(tm: Tm): Checked<nat>
  {
    var (year, month) := Carried(tm.mon, tm.year);
    match YearToSecs(year)
    case Overflow => Overflow
    case Value(start) =>
      if !IsInt(tm.mday - 1) then Overflow
      else
        var t := U64(start.secs + TableDays(month) * 86400);
        var t2 := if start.leap && month >= 2 then U64(t + 86400) else t;
        Value(U64(t2 + 86400 * U64(tm.mday - 1) + 3600 * U64(tm.hour) + 60 * U64(tm.min) + U64(tm.sec)))
  }

  function MonthLength(y: int, month: nat): nat
    requires month < 12
  {
    if month == 1 then (if IsLeap(y) then 29 else 28)
    else if month == 3 || month == 5 || month == 8 || month == 10 then 30 else 31
  }

  /** Days of a year before a month, counted one month at a time. */
  function DaysBeforeMonth(y: int, month: nat): nat
    requires month < 12
  {
    if month == 0 then 0 else DaysBeforeMonth(y, month - 1) + MonthLength(y, month - 1)
  }

  /** Seconds since the Epoch by the calendar: whole months carry into the year, everything else just adds. */
  function EpochSeconds(tm: Tm): int {
    var y, month := tm.year + tm.mon / 12, tm.mon % 12;
    (DaysBefore(y) + DaysBeforeMonth(y, month) + tm.mday - 1) * 86400 + tm.hour * 3600 + tm.min * 60 + tm.sec
  }

  lemma {:induction false} TableIsCalendar(y: int, month: nat)
    requires month < 12
    ensures DaysBeforeMonth(y, month) == TableDays(month) + Flag(IsLeap(y) && month >= 2)
  {
    if month > 0 {
      TableIsCalendar(y, month - 1);
    }
  }

  /** The sum that the source forms, before it is reduced to 64 bits. */
  function PlainSum(days: int, month: nat, leap: bool, tm: Tm): int
    requires month < 12
  {
    (days + TableDays(month) + Flag(leap && month >= 2) + tm.mday - 1) * 86400 + tm.hour * 3600 + tm.min * 60 + tm.sec
  }

  /** Reductions along the way leave one reduction of the plain sum. */
  lemma SumReduced(days: int, month: nat, leap: bool, tm: Tm)
    requires month < 12
    ensures var t := U64(U64(days * 86400) + TableDays(month) * 86400);
            var t2 := if leap && month >= 2 then U64(t + 86400) else t;
            U64(t2 + 86400 * U64(tm.mday - 1) + 3600 * U64(tm.hour) + 60 * U64(tm.min) + U64(tm.sec))
            == U64(PlainSum(days, month, leap, tm))
  {
    hide U64, TableDays;
    var first := days * 86400 + TableDays(month) * 86400;
    var second := first + Flag(leap && month >= 2) * 86400;
    var t := U64(U64(days * 86400) + TableDays(month) * 86400);
    U64Sum(1, days * 86400, 0, 0, TableDays(month) * 86400);
    assert t == U64(first);
    var t2 := if leap && month >= 2 then U64(t + 86400) else t;
    U64Sum(1, first, 0, 0, 86400);
    assert t2 == U64(second);
    var d, h, m := U64(tm.mday - 1), U64(tm.hour), U64(tm.min);
    U64Sum(1, second, 86400, tm.mday - 1, 3600 * h + 60 * m + U64(tm.sec));
    U64Sum(3600, tm.hour, 60, tm.min, second + 86400 * (tm.mday - 1) + U64(tm.sec));
    U64Sum(1, tm.sec, 0, 0, second + 86400 * (tm.mday - 1) + 3600 * tm.hour + 60 * tm.min);
  }

  lemma CarriedForward(mon: int, year: int)
    requires IsInt(mon) && IsInt(year) && mon >= 0
    ensures Carried(mon, year) == (U64(year + mon / 12), mon % 12)
  {
    U64Is(mon);
    U64Sum(1, year, 0, 0, mon / 12);
  }

  /** A negative month carries in the wrong direction by a twelfth of the 64-bit range. */
  lemma CarriedBack(mon: int, year: int)
    requires IsInt(mon) && IsInt(year) && mon < 0
    ensures var off := 1537228672809129301 - Flag(1 <= mon % 12 <= 7);
            Carried(mon, year) == (U64(year + mon / 12 + off), mon % 12)
  {
    var q, s := mon / 12, mon % 12;
    U64Negative(mon);
    var adj := 1537228672809129301 + q + Flag(s >= 8);
    Unique(TWO_64 + mon, 12, adj, if s >= 8 then s - 8 else s + 4);
    if s == 0 {
      Unique(-mon, 12, -q, 0);
      U64Sum(1, year, 0, 0, adj);
    } else {
      Unique(-mon, 12, -q - 1, 12 - s);
      U64Is(adj - 1);
      U64Sum(1, year, 0, 0, adj - 1);
    }
  }

  lemma DaysBounded(y: int)
    requires -0x1_0000_0000 <= y < 0x1_0000_0000
    ensures -0x200_0000_0000 <= DaysBefore(y) <= 0x200_0000_0000
    ensures -0x8000_0000 <= DaysBefore(y) - 365 * (y - 100) <= 0x8000_0000
  {
    PosixIsGregorian(y);
  }

  lemma SecondsBounded(tm: Tm)
    requires tm.Valid()
    ensures -0x8000_0000_0000_0000 <= EpochSeconds(tm) < 0x8000_0000_0000_0000
  {
    hide DaysBefore, IsLeap, DaysBeforeMonth;
    DaysBounded(tm.year + tm.mon / 12);
    MonthBounded(tm.year + tm.mon / 12, tm.mon % 12);
  }

  lemma MonthBounded(y: int, month: nat)
    requires month < 12
    ensures DaysBeforeMonth(y, month) <= 335
  {
    TableIsCalendar(y, month);
  }

  /** From 1902 on the result is the calendar's count modulo 64 bits, with any carry; before, it overflows. */
  lemma MktimeForward(tm: Tm)
    requires tm.Valid() && tm.mon >= 0 && IsInt(tm.mday - 1)
    ensures Mktime(tm) == if tm.year + tm.mon / 12 < 2 then Overflow else Value(U64(EpochSeconds(tm)))
  {
    hide U64, DaysBefore, DaysBeforeMonth, IsLeap, TableDays, YearToSecs;
    var y, month := tm.year + tm.mon / 12, tm.mon % 12;
    CarriedForward(tm.mon, tm.year);
    YearStartExact(y);
    if y >= 2 {
      SumReduced(DaysBefore(y), month, IsLeap(y), tm);
      TableIsCalendar(y, month);
      assert PlainSum(DaysBefore(y), month, IsLeap(y), tm) == EpochSeconds(tm);
    }
  }

  lemma SameResidue(x: int, d: int)
    requires U64(x + d) == U64(x) && -TWO_64 < d < TWO_64
    ensures d == 0
  {
    var p, q := (x + d) / TWO_64, x / TWO_64;
    assert x + d == TWO_64 * p + U64(x + d) && x == TWO_64 * q + U64(x);
    assert d == TWO_64 * (p - q);
  }

  /** Whatever the far path returns, it is a whole number of days with an `int` of leap days in it. */
  lemma FarShape(since: nat, cycles: int, centuries: int, rest: nat) returns (leaps: int)
    requires FromCycles(since, cycles, centuries, rest).Value?
    ensures IsInt(leaps)
    ensures FromCycles(since, cycles, centuries, rest).value.secs == U64((365 * since + leaps + 10958) * 86400)
  {
    var leap := if centuries == 0 && rest == 0 then true else rest != 0 && rest % 4 == 0;
    leaps := rest / 4 + (97 * cycles + 24 * centuries - Flag(leap));
    U64Sum(0, 0, 86400, leaps, since * 31536000 + 946684800 + 86400);
    assert 86400 * leaps + since * 31536000 + 946684800 + 86400 == (365 * since + leaps + 10958) * 86400;
  }

  lemma FarYearShape(year: nat) returns (leaps: int)
    requires 139 <= year < TWO_64
    ensures IsInt(leaps)
    ensures YearToSecs(year).Value? ==> YearToSecs(year).value.secs == U64((365 * (year - 100) + leaps + 10958) * 86400)
  {
    hide U64, FromCycles, ToInt;
    U64Is(year - 2);
    U64Is(year - 100);
    leaps := 0;
    if YearToSecs(year).Value? {
      var since := year - 100;
      var rem := since % 400;
      var centuries := if rem >= 300 then 3 else if rem >= 200 then 2 else if rem >= 100 then 1 else 0;
      leaps := FarShape(since, ToInt(since / 400), centuries, rem - 100 * centuries);
    }
  }

  /** Off by a twelfth of the range in years, the seconds are never right, not even modulo 64 bits. */
  lemma NeverRight(e: int, s: int)
    requires -0x10_0000_0000 <= s <= 0x10_0000_0000
    ensures U64(e + (365 * 1537228672809129301 + s) * 86400) != U64(e)
  {
    var d := 86400 * s - 10512000;
    assert (365 * 1537228672809129301 + s) * 86400 == d + TWO_64 * 2628000;
    Turns(e + d, 2628000);
    if U64(e + d) == U64(e) {
      SameResidue(e, d);
      assert false;
    }
  }

  /** A negative month never gives the right time, not even modulo 64 bits. */
  lemma MktimeBack(tm: Tm)
    requires tm.Valid() && tm.mon < 0
    ensures Mktime(tm) != Value(U64(EpochSeconds(tm)))
  {
    hide U64, DaysBefore, DaysBeforeMonth, IsLeap, TableDays, YearToSecs;
    var y, month, e := tm.year + tm.mon / 12, tm.mon % 12, EpochSeconds(tm);
    var off := 1537228672809129301 - Flag(1 <= month <= 7);
    CarriedBack(tm.mon, tm.year);
    U64Is(y + off);
    var leaps := FarYearShape(y + off);
    if Mktime(tm) == Value(U64(e)) {
      var leap := YearToSecs(y + off).value.leap;
      var days := 365 * (y + off - 100) + leaps + 10958;
      SumReduced(days, month, leap, tm);
      TableIsCalendar(y, month);
      DaysBounded(y);
      var s := days - DaysBefore(y) + Flag(leap && month >= 2) - Flag(IsLeap(y) && month >= 2)
               - 365 * 1537228672809129301;
      assert PlainSum(days, month, leap, tm) == e + (365 * 1537228672809129301 + s) * 86400;
      NeverRight(e, s);
      assert false;
    }
  }

  /** A count of seconds that a 64-bit word holds as it is. */
  lemma EpochWord(tm: Tm)
    requires tm.Valid()
    ensures U64(EpochSeconds(tm)) == EpochSeconds(tm) <==> EpochSeconds(tm) >= 0
  {
    hide EpochSeconds, Tm.Valid;
    SecondsBounded(tm);
    if EpochSeconds(tm) >= 0 {
      U64Is(EpochSeconds(tm));
    }
  }

  /**
   `mktime` is the calendar's count of seconds exactly for times not before 1970, given by months that are not
   negative, a normalised year from 1902 on and a day that can be decremented.
   */
  lemma MktimeExact(tm: Tm)
    requires tm.Valid()
    ensures Mktime(tm) == Value(EpochSeconds(tm))
            <==> tm.mon >= 0 && tm.year + tm.mon / 12 >= 2 && tm.mday > -0x8000_0000 && EpochSeconds(tm) >= 0
  {
    hide U64, EpochSeconds, YearToSecs, Carried;
    EpochWord(tm);
    if tm.mon < 0 {
      MktimeBack(tm);
    } else if tm.mday > -0x8000_0000 {
      MktimeForward(tm);
    }
  }

  /** A time before 1970 meets every other condition and still comes out as a number near 2^64. */
  lemma BeforeEpochWraps()
    ensures var tm := Tm(0, 0, 0, 1, 0, 69);
      && Mktime(tm) == Value(0x1_0000_0000_0000_0000 - 31536000) && EpochSeconds(tm) == -31536000
  {
    var tm := Tm(0, 0, 0, 1, 0, 69);
    assert DaysBefore(70) == 0;
    assert EpochSeconds(tm) == -31536000;
    MktimeForward(tm);
    U64Negative(EpochSeconds(tm));
  }

  /** `mktime` is the formula of the standard, on fields in their normal ranges. */
  lemma PosixFormula(tm: Tm, yday: int)
    requires tm.Valid() && tm.mday >= 1 && tm.hour >= 0 && tm.min >= 0 && tm.sec >= 0
    requires 0 <= tm.mon < 12 && tm.year >= 70
    requires yday == DaysBeforeMonth(tm.year, tm.mon) + tm.mday - 1
    ensures Mktime(tm)
            == Value(tm.sec + tm.min * 60 + tm.hour * 3600 + yday * 86400 + (tm.year - 70) * 31536000
               + ((tm.year - 69) / 4) * 86400 - ((tm.year - 1) / 100) * 86400 + ((tm.year + 299) / 400) * 86400)
  {
    hide Mktime, DaysBeforeMonth, DaysBefore;
    PosixIsGregorian(tm.year);
    PosixPositive(tm.year);
    MktimeExact(tm);
  }

  lemma PosixPositive(y: int)
    requires y >= 70
    ensures PosixDays(y) >= 0
  {
  }
}
