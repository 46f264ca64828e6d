// Conversion between 32-bit epoch seconds and civil dates.
module Civil {
  import opened MachineWords

  const SECS_PER_MIN := 60
  const SECS_PER_HOUR := 3600
  const SECS_PER_DAY := 86400

  // Years are offsets from 1970; months and days count from 1; Sunday is day 1 of the week.
  datatype TmElements = TmElements(Second: nat, Minute: nat, Hour: nat, Wday: nat, Day: nat, Month: nat, Year: nat)

  predicate LeapYear(y: nat) {
    (1970 + y) % 4 == 0 && ((1970 + y) % 100 != 0 || (1970 + y) % 400 == 0)
  }

  function YearDays(y: nat): nat {
    if LeapYear(y) then 366 else 365
  }

  function MonthDays(y: nat, m: nat): (d: nat)
    ensures d <= 31
  {
    if m == 2 then (if LeapYear(y) then 29 else 28)
    else if m == 4 || m == 6 || m == 9 || m == 11 then 30
    else 31
  }

  // Days from 1 January 1970 to 1 January of year y.
  function DaysBeforeYear(y: nat): nat {
    if y == 0 then 0 else DaysBeforeYear(y - 1) + YearDays(y - 1)
  }

  // Days of year y before the first of month m.
  function DaysBeforeMonth(y: nat, m: nat): nat {
    if m <= 1 then 0 else DaysBeforeMonth(y, m - 1) + MonthDays(y, m - 1)
  }

  predicate Valid(tm: TmElements) {
    && tm.Second < 60 && tm.Minute < 60 && tm.Hour < 24
    && 1 <= tm.Month <= 12 && 1 <= tm.Day <= MonthDays(tm.Year, tm.Month)
  }

  function DayNumber(tm: TmElements): int {
    DaysBeforeYear(tm.Year) + DaysBeforeMonth(tm.Year, tm.Month) + tm.Day - 1
  }

  // The instant the fields name, as a whole number of seconds since 1970.
  function Epoch(tm: TmElements): int {
    DayNumber(tm) * SECS_PER_DAY + tm.Hour * SECS_PER_HOUR + tm.Minute * SECS_PER_MIN + tm.Second
  }

  function WeekdayOf(t: nat): nat {
    (t / SECS_PER_DAY + 4) % 7 + 1
  }

  // The epoch began on a Thursday, day 5, and every day is followed by the next of the week.
  lemma WeekdaySteps(t: nat)
    ensures t < SECS_PER_DAY ==> WeekdayOf(t) == 5
    ensures WeekdayOf(t + 86400) == WeekdayOf(t) % 7 + 1
  {
    NextDay(t);
    NextWeekday(t / SECS_PER_DAY);
  }

  lemma NextDay(t: nat)
    ensures t < SECS_PER_DAY ==> t / SECS_PER_DAY == 0
    ensures (t + SECS_PER_DAY) / SECS_PER_DAY == t / SECS_PER_DAY + 1
  {
  }

  lemma NextWeekday(days: nat)
    ensures (days + 1 + 4) % 7 + 1 == ((days + 4) % 7 + 1) % 7 + 1
  {
  }

  // ----- Breaking a time into fields ------------------------------------------------

  function YearFrom(y: nat, days: nat): (r: nat)
    requires DaysBeforeYear(y) <= days
    ensures y <= r && DaysBeforeYear(r) <= days < DaysBeforeYear(r + 1)
    decreases days - DaysBeforeYear(y)
  {
    if days < DaysBeforeYear(y + 1) then y else YearFrom(y + 1, days)
  }

  // The month a day of the year falls in, and the day within it, both from 0.
  function MonthFrom(y: nat, m: nat, day: nat): (r: (nat, nat))
    requires m <= 12
    ensures m <= r.0 <= 12
    ensures DaysBeforeMonth(y, r.0 + 1) + r.1 == DaysBeforeMonth(y, m + 1) + day
    ensures r.0 < 12 ==> r.1 < MonthDays(y, r.0 + 1)
    decreases 12 - m
  {
    if m == 12 || day < MonthDays(y, m + 1) then (m, day) else MonthFrom(y, m + 1, day - MonthDays(y, m + 1))
  }

  function Fields(t: nat): TmElements {
    var days := t / SECS_PER_DAY;
    var year := YearFrom(0, days);
    var (month, day) := MonthFrom(year, 0, days - DaysBeforeYear(year));
    TmElements(t % 60, t / 60 % 60, t / 3600 % 24, WeekdayOf(t), day + 1, month + 1, year)
  }

  lemma {:induction false} YearIsItsMonths(y: nat)
    ensures DaysBeforeMonth(y, 13) == YearDays(y)
  {
    assert DaysBeforeMonth(y, 2) == 31;
    assert DaysBeforeMonth(y, 3) == 31 + MonthDays(y, 2);
    assert DaysBeforeMonth(y, 4) == DaysBeforeMonth(y, 3) + 31;
    assert DaysBeforeMonth(y, 6) == DaysBeforeMonth(y, 4) + 61;
    assert DaysBeforeMonth(y, 8) == DaysBeforeMonth(y, 6) + 61;
    assert DaysBeforeMonth(y, 10) == DaysBeforeMonth(y, 8) + 61;
    assert DaysBeforeMonth(y, 12) == DaysBeforeMonth(y, 10) + 61;
  }

  lemma QuotientsChain(t: nat)
    ensures t / 60 / 60 == t / 3600
    ensures t / 60 / 60 / 24 == t / SECS_PER_DAY
  {
  }

  lemma ClockSplits(t: nat)
    ensures t == (t / SECS_PER_DAY) * SECS_PER_DAY + (t / 3600 % 24) * SECS_PER_HOUR + (t / 60 % 60) * SECS_PER_MIN
            + t % 60
  {
    QuotientsChain(t);
    var m, h := t / 60, t / 3600;
    assert t == 60 * m + t % 60;
    assert m == 60 * h + m % 60;
    assert h == 24 * (h / 24) + h % 24;
  }

  lemma {:induction false} MonthIsFound(year: nat, day: nat)
    requires day < YearDays(year)
    ensures var md := MonthFrom(year, 0, day);
            md.0 < 12 && md.1 < MonthDays(year, md.0 + 1) && DaysBeforeMonth(year, md.0 + 1) + md.1 == day
  {
    YearIsItsMonths(year);
    var md := MonthFrom(year, 0, day);
    assert md.0 < 12 by {
      assert DaysBeforeMonth(year, 1) == 0;
    }
  }

  lemma FieldsDay(t: nat)
    ensures Valid(Fields(t)) && DayNumber(Fields(t)) == t / SECS_PER_DAY
  {
    var days := t / SECS_PER_DAY;
    var year := YearFrom(0, days);
    MonthIsFound(year, days - DaysBeforeYear(year));
  }

  // The fields of every instant are a valid date that names the instant.
  lemma FieldsName(t: nat)
    ensures Valid(Fields(t)) && Epoch(Fields(t)) == t
  {
    FieldsDay(t);
    ClockSplits(t);
  }

  // ----- The formula of the POSIX standard ------------------------------------------

  // "Seconds Since the Epoch", section 4.16 of POSIX.1-2017 Base Definitions, with
  // tm_year counted from 1900 and tm_yday from 0.
  function PosixSeconds(tm_sec: int, tm_min: int, tm_hour: int, tm_yday: int, tm_year: int): int {
    tm_sec + tm_min * 60 + tm_hour * 3600 + tm_yday * 86400
    + (tm_year - 70) * 31536000 + ((tm_year - 69) / 4) * 86400
    - ((tm_year - 1) / 100) * 86400 + ((tm_year + 299) / 400) * 86400
  }

  // A quotient steps up exactly at the multiples of its divisor.
  lemma QuotientSteps(a: nat)
    ensures (a + 1) / 4 == a / 4 + (if (a + 1) % 4 == 0 then 1 else 0)
    ensures (a + 1) / 100 == a / 100 + (if (a + 1) % 100 == 0 then 1 else 0)
    ensures (a + 1) / 400 == a / 400 + (if (a + 1) % 400 == 0 then 1 else 0)
  {
  }

  lemma SameRemainders(y: nat)
    ensures (1970 + y) % 4 == (y + 2) % 4
    ensures (1970 + y) % 100 == (y + 70) % 100
    ensures (1970 + y) % 400 == (y + 370) % 400
  {
    assert 1970 + y == (y + 2) + 4 * 492;
    assert 1970 + y == (y + 70) + 100 * 19;
    assert 1970 + y == (y + 370) + 400 * 4;
  }

  lemma Hundreds(x: nat, k: nat)
    requires x + 300 == 400 * k
    ensures x % 100 == 0
  {
    assert x == 100 * (4 * k - 3);
  }

  lemma Fours(x: nat, k: nat)
    requires x + 68 == 100 * k
    ensures x % 4 == 0
  {
    assert x == 4 * (25 * k - 17);
  }

  lemma Multiples(y: nat)
    ensures (y + 370) % 400 == 0 ==> (y + 70) % 100 == 0
    ensures (y + 70) % 100 == 0 ==> (y + 2) % 4 == 0
  {
    if (y + 370) % 400 == 0 { Hundreds(y + 70, (y + 370) / 400); }
    if (y + 70) % 100 == 0 { Fours(y + 2, (y + 70) / 100); }
  }

  // The leap-year rule, seen from the standard's three quotients.
  lemma LeapYearSteps(y: nat)
    ensures LeapYear(y) <==> (y + 2) % 4 == 0 && ((y + 70) % 100 != 0 || (y + 370) % 400 == 0)
    ensures (y + 370) % 400 == 0 ==> (y + 70) % 100 == 0
    ensures (y + 70) % 100 == 0 ==> (y + 2) % 4 == 0
  {
    SameRemainders(y);
    Multiples(y);
  }

  // Leap days before year y.
  function LeapDays(y: nat): int {
    (y + 1) / 4 - (y + 69) / 100 + (y + 369) / 400
  }

  lemma LeapDaysStep(y: nat)
    ensures LeapDays(y + 1) == LeapDays(y) + if LeapYear(y) then 1 else 0
  {
    LeapYearSteps(y);
    QuotientSteps(y + 1);
    QuotientSteps(y + 69);
    QuotientSteps(y + 369);
  }

  // The sum over the years has the standard's closed form.
  lemma {:induction false} DaysBeforeYearClosed(y: nat)
    ensures DaysBeforeYear(y) == 365 * y + (y + 1) / 4 - (y + 69) / 100 + (y + 369) / 400
  {
    if y > 0 {
      DaysBeforeYearClosed(y - 1);
      LeapDaysStep(y - 1);
    }
  }

  // The months of the Gregorian calendar in closed form: 30.6 days each, but for February.
  lemma {:induction false} DaysBeforeMonthClosed(y: nat, m: nat)
    requires 1 <= m <= 12
    ensures DaysBeforeMonth(y, m) == (367 * m - 362) / 12 - (if m <= 2 then 0 else if LeapYear(y) then 1 else 2)
  {
    if m > 1 {
      DaysBeforeMonthClosed(y, m - 1);
    }
  }

  lemma EpochIsPosix(tm: TmElements)
    requires Valid(tm)
    ensures Epoch(tm) == PosixSeconds(tm.Second, tm.Minute, tm.Hour,
                                      DaysBeforeMonth(tm.Year, tm.Month) + tm.Day - 1, tm.Year + 70)
  {
    DaysBeforeYearClosed(tm.Year);
  }

  // ----- Order ------------------------------------------------------------------------

  predicate Earlier(a: TmElements, b: TmElements) {
    a.Year < b.Year || (a.Year == b.Year && (
    a.Month < b.Month || (a.Month == b.Month && (
    a.Day < b.Day || (a.Day == b.Day && (
    a.Hour < b.Hour || (a.Hour == b.Hour && (
    a.Minute < b.Minute || (a.Minute == b.Minute && a.Second < b.Second)))))))))
  }

  lemma {:induction false} YearsAddUp(a: nat, b: nat)
    requires a <= b
    ensures DaysBeforeYear(a) + (b - a) * 365 <= DaysBeforeYear(b)
    decreases b - a
  {
    if a < b {
      YearsAddUp(a, b - 1);
    }
  }

  lemma {:induction false} MonthsAddUp(y: nat, a: nat, b: nat)
    requires 1 <= a <= b
    ensures DaysBeforeMonth(y, a) <= DaysBeforeMonth(y, b)
    ensures a < b ==> DaysBeforeMonth(y, a) + MonthDays(y, a) <= DaysBeforeMonth(y, b)
    decreases b - a
  {
    if a < b {
      MonthsAddUp(y, a, b - 1);
    }
  }

  lemma DayOrder(a: TmElements, b: TmElements)
    requires Valid(a) && Valid(b)
    requires a.Year < b.Year || (a.Year == b.Year && (a.Month < b.Month || (a.Month == b.Month && a.Day < b.Day)))
    ensures DayNumber(a) < DayNumber(b)
  {
    if a.Year < b.Year {
      MonthsAddUp(a.Year, a.Month, 13);
      YearIsItsMonths(a.Year);
      YearsAddUp(a.Year + 1, b.Year);
    } else if a.Month < b.Month {
      MonthsAddUp(a.Year, a.Month, b.Month);
    }
  }

  // A later date is a later instant.
  lemma EpochMonotone(a: TmElements, b: TmElements)
    requires Valid(a) && Valid(b) && Earlier(a, b)
    ensures Epoch(a) < Epoch(b)
  {
    if (a.Year, a.Month, a.Day) != (b.Year, b.Month, b.Day) {
      DayOrder(a, b);
    }
  }

  // Two valid dates that name the same instant agree in every field but the weekday.
  lemma EpochInjective(a: TmElements, b: TmElements)
    requires Valid(a) && Valid(b) && Epoch(a) == Epoch(b)
    ensures a.(Wday := 0) == b.(Wday := 0)
  {
    if Earlier(a, b) {
      EpochMonotone(a, b);
    } else if Earlier(b, a) {
      EpochMonotone(b, a);
    }
  }

  // 2106-02-07 06:28:15 is the last instant 32 bits can hold.
  const LAST: TmElements := TmElements(15, 28, 6, 1, 7, 2, 136)

  lemma LastInstant()
    ensures Valid(LAST) && Epoch(LAST) == WORD - 1
  {
    DaysBeforeYearClosed(136);
    assert DaysBeforeMonth(136, 2) == 31;
    assert DaysBeforeYear(136) == 49673;
    assert DayNumber(LAST) == 49710;
  }

  lemma FitsWord(tm: TmElements)
    requires Valid(tm)
    ensures 0 <= Epoch(tm)
    ensures Epoch(tm) < WORD <==> !Earlier(LAST, tm)
  {
    LastInstant();
    if Earlier(LAST, tm) {
      EpochMonotone(LAST, tm);
    } else if Earlier(tm, LAST) {
      EpochMonotone(tm, LAST);
    }
  }

  lemma FieldsYear(t: nat)
    requires t < WORD
    ensures Fields(t).Year <= 136
  {
    FieldsName(t);
    FitsWord(Fields(t));
  }

  // ----- Machine arithmetic ---------------------------------------------------------------

  function Byte(a: nat): (r: nat)
    ensures r < 256
    ensures a < 256 ==> r == a
  {
    a % 256
  }

  // ----- The two conversions ------------------------------------------------------------

  // `year`, `month` and `monthLength` are 8-bit, `time` and `days` 32-bit in the source.
  method BreakTime(timeInput: nat) returns (tm: TmElements)
    requires timeInput < WORD
    ensures tm == Fields(timeInput) && tm.Year <= 136
    ensures Valid(tm) && Epoch(tm) == timeInput && 1 <= tm.Wday <= 7
  {
    var time: nat := timeInput;
    var second := time % 60;
    time := time / 60;
    var minute := time % 60;
    time := time / 60;
    var hour := time % 24;
    time := time / 24;
    var wday := (time + 4) % 7 + 1;
    FieldsYear(timeInput);
    QuotientsChain(timeInput);
    var year, month, day := BreakDays(time);
    tm := TmElements(second, minute, hour, wday, day + 1, month + 1, year);
    FieldsAre(timeInput);
    FieldsName(timeInput);
  }

  lemma FieldsAre(t: nat)
    ensures var tm, days := Fields(t), t / SECS_PER_DAY;
            && tm.Year == YearFrom(0, days)
            && (tm.Month - 1, tm.Day - 1) == MonthFrom(tm.Year, 0, days - DaysBeforeYear(tm.Year))
  {
  }

  // The two loops of breakTime, over the days since 1970.
  method BreakDays(days0: nat) returns (year: nat, month: nat, day: nat)
    requires days0 < WORD / 2 && YearFrom(0, days0) <= 136
    ensures year == YearFrom(0, days0)
    ensures (month, day) == MonthFrom(year, 0, days0 - DaysBeforeYear(year))
  {
    var days: nat;
    year, days := BreakYears(days0);
    var time: nat := days0 - (days - YearDays(year));
    month, day := BreakDayOfYear(year, time);
  }

  method BreakYears(days0: nat) returns (year: nat, days: nat)
    requires days0 < WORD / 2 && YearFrom(0, days0) <= 136
    ensures year == YearFrom(0, days0) && days - YearDays(year) == DaysBeforeYear(year) <= days0
  {
    year := 0;
    days := YearDays(year);
    while days <= days0
      invariant days == DaysBeforeYear(year + 1) && DaysBeforeYear(year) <= days0
      invariant year <= YearFrom(year, days0) == YearFrom(0, days0)
      decreases days0 + 366 - days
    {
      year := Byte(year + 1);
      days := Add32(days, YearDays(year));
    }
  }

  method BreakDayOfYear(year: nat, dayOfYear: nat) returns (month: nat, day: nat)
    ensures (month, day) == MonthFrom(year, 0, dayOfYear)
  {
    var time: nat := dayOfYear;
    month := 0;
    while month < 12
      invariant month <= 12 && MonthFrom(year, month, time) == MonthFrom(year, 0, dayOfYear)
    {
      var monthLength := MonthDays(year, month + 1);
      if time >= monthLength {
        time := time - monthLength;
      } else {
        break;
      }
      month := month + 1;
    }
    day := time;
  }

  predicate Bytes(tm: TmElements) {
    && tm.Second < 256 && tm.Minute < 256 && tm.Hour < 256 && tm.Wday < 256
    && tm.Day < 256 && tm.Month < 256 && tm.Year < 256
  }

  method SecondsOfYears(year: nat) returns (seconds: nat)
    ensures seconds == Word32(DaysBeforeYear(year) * SECS_PER_DAY)
  {
    ghost var total: int := year * (SECS_PER_DAY * 365);
    seconds := Word32(year * (SECS_PER_DAY * 365));
    var i := 0;
    while i < year
      invariant i <= year && seconds == Word32(total)
      invariant total == (DaysBeforeYear(i) + (year - i) * 365) * SECS_PER_DAY
    {
      if LeapYear(i) {
        Add32Mod(total, SECS_PER_DAY);
        seconds, total := Add32(seconds, SECS_PER_DAY), total + SECS_PER_DAY;
      }
      i := i + 1;
    }
  }

  method AddMonths(seconds0: nat, year: nat, month: nat, ghost total0: nat) returns (seconds: nat)
    requires seconds0 == Word32(total0) && month <= 13
    ensures seconds == Word32(total0 + DaysBeforeMonth(year, month) * SECS_PER_DAY)
  {
    ghost var total: int := total0;
    seconds := seconds0;
    var i := 1;
    while i < month
      invariant 1 <= i && (i <= month || i == 1) && seconds == Word32(total)
      invariant total == total0 + DaysBeforeMonth(year, i) * SECS_PER_DAY
    {
      var length := SECS_PER_DAY * MonthDays(year, i);
      Add32Mod(total, length);
      seconds, total := Add32(seconds, length), total + length;
      i := i + 1;
    }
  }

  lemma ClockAdded(total: nat, d: int, h: nat, m: nat, s: nat)
    ensures Add32(Add32(Add32(Add32(Word32(total), d), h), m), s) == Word32(total + d + h + m + s)
  {
    Add32Mod(total, d);
    Add32Mod(total + d, h);
    Add32Mod(total + d + h, m);
    Add32Mod(total + d + h + m, s);
  }

  // Defined for any bytes whose month does not run past the table of month lengths.
  method MakeTime(tm: TmElements) returns (seconds: nat)
    requires Bytes(tm) && tm.Month <= 13
    ensures seconds == Word32(Epoch(tm))
  {
    seconds := SecondsOfYears(tm.Year);
    seconds := AddMonths(seconds, tm.Year, tm.Month, DaysBeforeYear(tm.Year) * SECS_PER_DAY);
    ghost var total := (DaysBeforeYear(tm.Year) + DaysBeforeMonth(tm.Year, tm.Month)) * SECS_PER_DAY;
    var d, h, m, s := (tm.Day - 1) * SECS_PER_DAY, tm.Hour * SECS_PER_HOUR, tm.Minute * SECS_PER_MIN, tm.Second;
    ClockAdded(total, d, h, m, s);
    assert total + d + h + m + s == Epoch(tm);
    seconds := Add32(Add32(Add32(Add32(seconds, d), h), m), s);
  }

  method BreakThenMake(t: nat) returns (r: nat)
    requires t < WORD
    ensures r == t
  {
    var tm := BreakTime(t);
    r := MakeTime(tm);
  }

  // Every valid date up to the last instant comes back, with its weekday filled in.
  method MakeThenBreak(tm: TmElements) returns (r: TmElements)
    requires Valid(tm) && !Earlier(LAST, tm) && tm.Wday < 256
    ensures r == tm.(Wday := WeekdayOf(Epoch(tm)))
  {
    FitsWord(tm);
    var t := MakeTime(tm);
    r := BreakTime(t);
    EpochInjective(r, tm);
  }
}
