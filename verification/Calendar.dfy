/** Calendar arithmetic (Foundation/src/DateTime.cpp).
    `double` is modelled by exact reals; the rounding of the original enters as a bounded error. */
module Calendar {

  // ------------------------------------------------------------------------------------------
  // The Gregorian calendar
  // ------------------------------------------------------------------------------------------

  datatype Date = Date(year: int, month: int, day: int)

  /** Hour, minute, second, millisecond, microsecond. */
  datatype Daytime = Daytime(hour: int, minute: int, second: int, millis: int, micros: int)

  const DAY_MICROS: int := 86400000000
  const HOUR_MICROS: int := 3600000000

  predicate IsLeapYear(year: int) {
    year % 4 == 0 && (year % 100 != 0 || year % 400 == 0)
  }

  const DAYS_OF_MONTH: seq<int> := [0, 31, 28, 31, 30, 31, 30, 31, 31, 30, 31, 30, 31]

  function DaysOfMonth(year: int, month: int): (days: int)
    requires 1 <= month <= 12
    ensures 28 <= days <= 31
  {
    if month == 2 && IsLeapYear(year) then 29 else DAYS_OF_MONTH[month]
  }

  predicate IsDate(d: Date) {
    1 <= d.month <= 12 && 1 <= d.day <= DaysOfMonth(d.year, d.month)
  }

  predicate IsDaytime(t: Daytime) {
    0 <= t.hour < 24 && 0 <= t.minute < 60 && 0 <= t.second < 60 && 0 <= t.millis < 1000 && 0 <= t.micros < 1000
  }

  function NextDay(d: Date): Date
    requires IsDate(d)
  {
    if d.day < DaysOfMonth(d.year, d.month) then d.(day := d.day + 1)
    else if d.month < 12 then Date(d.year, d.month + 1, 1)
    else Date(d.year + 1, 1, 1)
  }

  function PreviousDay(d: Date): Date
    requires IsDate(d)
  {
    if d.day > 1 then d.(day := d.day - 1)
    else if d.month > 1 then Date(d.year, d.month - 1, DaysOfMonth(d.year, d.month - 1))
    else Date(d.year - 1, 12, 31)
  }

  // ------------------------------------------------------------------------------------------
  // Day numbers
  // ------------------------------------------------------------------------------------------

  /** The table of toJulianDay: (153*month - 457)/5 for the months 3 to 14 of a year that starts in March. */
  const MONTH_OFFSET: seq<int> := [-91, -60, -30, 0, 31, 61, 92, 122, 153, 184, 214, 245, 275, 306, 337]

  /** toJulianDay as the source computes it. */
  function ToJulianDay(d: Date, t: Daytime): real
    requires 1 <= d.month <= 12
  {
    var dday := d.day as real +
      ((((t.hour * 60 + t.minute) * 60 + t.second) * 1000 + t.millis) * 1000 + t.micros) as real / 86400000000.0;
    var month := if d.month < 3 then d.month + 12 else d.month;
    var year := if d.month < 3 then d.year - 1 else d.year;
    var dyear := year as real;
    dday + MONTH_OFFSET[month] as real + (365 * year) as real
      + (dyear / 4.0).Floor as real - (dyear / 100.0).Floor as real + (dyear / 400.0).Floor as real + 1721118.5
  }

  /** Days since 29 February of year 0; the division of Dafny rounds down for a positive divisor, like the floors above. */
  function DayNumber(d: Date): int
    requires 1 <= d.month <= 12
  {
    var month := if d.month < 3 then d.month + 12 else d.month;
    var year := if d.month < 3 then d.year - 1 else d.year;
    d.day + MONTH_OFFSET[month] + 365 * year + year / 4 - year / 100 + year / 400
  }

  function MicrosOf(t: Daytime): int {
    (((t.hour * 60 + t.minute) * 60 + t.second) * 1000 + t.millis) * 1000 + t.micros
  }

  /** The fields in their units. */
  lemma Units(t: Daytime)
    ensures MicrosOf(t) == 3600000000 * t.hour + 60000000 * t.minute + 1000000 * t.second + 1000 * t.millis + t.micros
  {
  }

  function DaytimeOf(micros: int): Daytime {
    Daytime(micros / 3600000000 % 24, micros / 60000000 % 60, micros / 1000000 % 60, micros / 1000 % 1000, micros % 1000)
  }

  function NextMonth(year: int, month: int): (r: (int, int))
    requires 1 <= month <= 12
    ensures 1 <= r.1 <= 12
  {
    if month < 12 then (year, month + 1) else (year + 1, 1)
  }

  /** A day past the end of the month is a day of the next month. */
  lemma MonthEnd(year: int, month: int, day: int)
    requires 1 <= month <= 12
    ensures var (y, m) := NextMonth(year, month);
            DayNumber(Date(y, m, day - DaysOfMonth(year, month))) == DayNumber(Date(year, month, day))
  {
    LeapStep(year - 1);
  }

  /** Microseconds since the start of day number 0. */
  function Instant(d: Date, t: Daytime): int
    requires 1 <= d.month <= 12
  {
    DayNumber(d) * DAY_MICROS + MicrosOf(t)
  }

  lemma FloorOfQuotients(y: int)
    ensures (y as real / 4.0).Floor == y / 4
    ensures (y as real / 100.0).Floor == y / 100
    ensures (y as real / 400.0).Floor == y / 400
  {
    var q4, q100, q400 := y / 4, y / 100, y / 400;
    assert q4 as real <= y as real / 4.0 < q4 as real + 1.0;
    assert q100 as real <= y as real / 100.0 < q100 as real + 1.0;
    assert q400 as real <= y as real / 400.0 < q400 as real + 1.0;
  }

  /** toJulianDay counts days and fractions of a day exactly. */
  lemma JulianDayIsInstant(d: Date, t: Daytime)
    requires 1 <= d.month <= 12
    ensures (ToJulianDay(d, t) - 1721118.5) * 86400000000.0 == Instant(d, t) as real
  {
    var year := if d.month < 3 then d.year - 1 else d.year;
    FloorOfQuotients(year);
  }

  /** The day after a date has the next day number. */
  lemma NextDayNumber(d: Date)
    requires IsDate(d)
    ensures IsDate(NextDay(d)) && DayNumber(NextDay(d)) == DayNumber(d) + 1
  {
    LeapStep(d.year - 1);
  }

  /** Between two Marches lie 365 days, or 366 when the year of the second one is a leap year. */
  lemma LeapStep(y: int)
    ensures (y + 1) / 4 - (y + 1) / 100 + (y + 1) / 400 - (y / 4 - y / 100 + y / 400) == if IsLeapYear(y + 1) then 1 else 0
  {
    assert (y + 1) / 4 - y / 4 == if (y + 1) % 4 == 0 then 1 else 0;
    assert (y + 1) / 100 - y / 100 == if (y + 1) % 100 == 0 then 1 else 0;
    assert (y + 1) / 400 - y / 400 == if (y + 1) % 400 == 0 then 1 else 0;
  }

  lemma PreviousDayNumber(d: Date)
    requires IsDate(d)
    ensures IsDate(PreviousDay(d)) && NextDay(PreviousDay(d)) == d
    ensures DayNumber(PreviousDay(d)) == DayNumber(d) - 1
  {
    NextDayNumber(PreviousDay(d));
  }

  // ------------------------------------------------------------------------------------------
  // From day numbers back to dates
  // ------------------------------------------------------------------------------------------

  /** The date steps of computeGregorian in integers. */
  function DateOf(z: int): Date {
    var a := (4 * z - 1) / 146097;
    var b := a - a / 4;
    var year := (4 * (b + z) - 1) / 1461;
    var c := b + z - 1461 * year / 4;
    var month := (5 * c + 456) / 153;
    var day := c - (153 * month - 457) / 5;
    if month > 12 then Date(year + 1, month - 12, day) else Date(year, month, day)
  }

  /** computeGregorian inverts toJulianDay on every valid date. */
  lemma DateOfDayNumber(d: Date)
    requires IsDate(d)
    ensures DateOf(DayNumber(d)) == d
  {
    hide DateOf, IsLeapYear;
    var m := if d.month < 3 then d.month + 12 else d.month;
    var y := if d.month < 3 then d.year - 1 else d.year;
    var c := d.day + MONTH_OFFSET[m];
    MarchYear(d, y, m);
    CenturyStep(y, c);
    YearStep(y, c);
    MonthStep(m, d.day);
    DateSteps(c + 365 * y + y / 4 - y / 100 + y / 400, y, c, m);
  }

  /** computeGregorian finds century, year, day of the year and month one after the other. */
  lemma DateSteps(z: int, y: int, c: int, m: int)
    requires z == c + 365 * y + y / 4 - y / 100 + y / 400
    requires (4 * z - 1) / 146097 == y / 100
    requires (4 * (c + 365 * y + y / 4) - 1) / 1461 == y && 1461 * y / 4 == 365 * y + y / 4
    requires (5 * c + 456) / 153 == m
    ensures DateOf(z) == var day := c - (153 * m - 457) / 5;
                         if m > 12 then Date(y + 1, m - 12, day) else Date(y, m, day)
  {
    var a := y / 100;
    assert y / 400 == a / 4;
    assert a - a / 4 + z == c + 365 * y + y / 4;
  }

  /** The day within the year from March to February: 366 occurs only in front of a leap year's March. */
  lemma MarchYear(d: Date, y: int, m: int)
    requires IsDate(d)
    requires if d.month < 3 then m == d.month + 12 && y == d.year - 1 else m == d.month && y == d.year
    ensures 1 <= d.day + MONTH_OFFSET[m] <= 366
    ensures d.day + MONTH_OFFSET[m] == 366 ==> IsLeapYear(y + 1)
    ensures d.day <= if m == 14 then 29 else MONTH_OFFSET[m + 1] - MONTH_OFFSET[m]
  {
  }

  lemma CenturyStep(y: int, c: int)
    requires 1 <= c <= 366 && (c == 366 ==> IsLeapYear(y + 1))
    ensures (4 * (c + 365 * y + y / 4 - y / 100 + y / 400) - 1) / 146097 == y / 100
  {
    var a := y / 100;
    var k := y % 100;
    assert y / 4 == 25 * a + k / 4;
    assert y / 400 == a / 4;
    var z := c + 365 * y + y / 4 - y / 100 + y / 400;
    assert 4 * z - 1 == 146097 * a + (4 * c - 1 + 1460 * k + 4 * (k / 4) - a % 4);
    if c == 366 {
      assert k == 99 ==> (y + 1) % 100 == 0;
      assert k == 99 ==> (a + 1) % 4 == 0 by {
        if k == 99 { assert y + 1 == 100 * (a + 1); assert (100 * (a + 1)) % 400 == 0; }
      }
    }
    assert 0 <= 4 * c - 1 + 1460 * k + 4 * (k / 4) - a % 4 < 146097;
  }

  lemma YearStep(y: int, c: int)
    requires 1 <= c <= 366 && (c == 366 ==> IsLeapYear(y + 1))
    ensures (4 * (c + 365 * y + y / 4) - 1) / 1461 == y
    ensures 1461 * y / 4 == 365 * y + y / 4
  {
    assert 4 * (c + 365 * y + y / 4) - 1 == 1461 * y + (4 * c - 1 - y % 4);
    assert 0 <= 4 * c - 1 - y % 4 < 1461;
  }

  lemma MonthStep(m: int, day: int)
    requires 3 <= m <= 14
    requires 1 <= day <= if m == 14 then 29 else MONTH_OFFSET[m + 1] - MONTH_OFFSET[m]
    ensures (5 * (day + MONTH_OFFSET[m]) + 456) / 153 == m
    ensures (153 * m - 457) / 5 == MONTH_OFFSET[m]
  {
  }

  /** Every day number belongs to a date. */
  lemma {:induction false} SomeDate(z: int) returns (d: Date)
    ensures IsDate(d) && DayNumber(d) == z
    decreases if z < 1 then 1 - z else z - 1
  {
    if z == 1 {
      d := Date(0, 3, 1);
    } else if z > 1 {
      var p := SomeDate(z - 1);
      d := NextDay(p);
      NextDayNumber(p);
    } else {
      var n := SomeDate(z + 1);
      d := PreviousDay(n);
      PreviousDayNumber(n);
    }
  }

  /** Dates and day numbers are in bijection. */
  lemma DayNumberOfDate(z: int)
    ensures IsDate(DateOf(z)) && DayNumber(DateOf(z)) == z
  {
    var d := SomeDate(z);
    DateOfDayNumber(d);
  }

  lemma WholeDays(days: int, t: int)
    ensures (days * DAY_MICROS + t) / 1000 == 86400000 * days + t / 1000
    ensures (days * DAY_MICROS + t) / 1000000 == 86400 * days + t / 1000000
    ensures (days * DAY_MICROS + t) / 60000000 == 1440 * days + t / 60000000
    ensures (days * DAY_MICROS + t) / 3600000000 == 24 * days + t / 3600000000
  {
  }

  lemma WholeDaysVanish(days: int, x: int)
    ensures (days * DAY_MICROS + x) % 1000 == x % 1000
    ensures (24 * days + x) % 24 == x % 24
    ensures (1440 * days + x) % 60 == x % 60
    ensures (86400 * days + x) % 60 == x % 60
    ensures (86400000 * days + x) % 1000 == x % 1000
  {
    assert (days * DAY_MICROS + x) / 1000 == 86400000 * days + x / 1000;
    assert (24 * days + x) / 24 == days + x / 24;
    assert (1440 * days + x) / 60 == 24 * days + x / 60;
    assert (86400 * days + x) / 60 == 1440 * days + x / 60;
    assert (86400000 * days + x) / 1000 == 86400 * days + x / 1000;
  }

  /** Whole days do not show in the time of day. */
  lemma DaytimeIgnoresDays(days: int, t: int)
    ensures DaytimeOf(days * DAY_MICROS + t) == DaytimeOf(t)
  {
    WholeDays(days, t);
    WholeDaysVanish(days, t);
    WholeDaysVanish(days, t / 1000);
    WholeDaysVanish(days, t / 1000000);
    WholeDaysVanish(days, t / 60000000);
    WholeDaysVanish(days, t / 3600000000);
  }

  lemma NestedQuotients(t: int)
    ensures t / 1000000 == t / 1000 / 1000
    ensures t / 60000000 == t / 1000000 / 60
    ensures t / 3600000000 == t / 60000000 / 60
  {
  }

  /** Time of day and microseconds of the day are in bijection. */
  lemma MicrosOfDaytime(t: int)
    requires 0 <= t < DAY_MICROS
    ensures IsDaytime(DaytimeOf(t)) && MicrosOf(DaytimeOf(t)) == t
  {
    NestedQuotients(t);
  }

  lemma DaytimeOfMicros(t: Daytime)
    requires IsDaytime(t)
    ensures 0 <= MicrosOf(t) < DAY_MICROS && DaytimeOf(MicrosOf(t)) == t
  {
    var us := MicrosOf(t);
    NestedQuotients(us);
    assert us / 1000 == ((t.hour * 60 + t.minute) * 60 + t.second) * 1000 + t.millis;
    assert us / 1000 / 1000 == (t.hour * 60 + t.minute) * 60 + t.second;
    assert us / 1000000 / 60 == t.hour * 60 + t.minute;
  }

  /** Valid fields are determined by their instant. */
  lemma FieldsOfInstant(d: Date, t: Daytime, us: int)
    requires IsDate(d) && IsDaytime(t) && Instant(d, t) == us
    ensures d == DateOf(us / DAY_MICROS) && t == DaytimeOf(us)
  {
    DaytimeOfMicros(t);
    assert us / DAY_MICROS == DayNumber(d);
    DateOfDayNumber(d);
    DaytimeIgnoresDays(DayNumber(d), MicrosOf(t));
  }

  // ------------------------------------------------------------------------------------------
  // Division and conversion of the source language
  // ------------------------------------------------------------------------------------------

  /** Integer division that truncates toward zero. */
  function Quot(x: int, n: int): int
    requires n > 0
  {
    if x >= 0 then x / n else -(-x / n)
  }

  /** The remainder that goes with Quot; it has the sign of x. */
  function Rem(x: int, n: int): int
    requires n > 0
  {
    x - n * Quot(x, n)
  }

  /** Conversion of a floating-point value to an integer. */
  function Trunc(x: real): int {
    if x >= 0.0 then x.Floor else -((-x).Floor)
  }

  // ------------------------------------------------------------------------------------------
  // UTC time: ticks of 100 nanoseconds since 15 October 1582
  // ------------------------------------------------------------------------------------------

  const REFORM_DAY: int := 578042
  const DAY_TICKS: int := 864000000000

  function JulianDayOfUtc(utcTime: int): real {
    utcTime as real / 864000000000.0 + 2299160.5
  }

  function ToUtcTime(julianDay: real): int {
    Trunc((julianDay - 2299160.5) * 864000000000.0)
  }

  lemma MidnightTicks(d: Date)
    requires 1 <= d.month <= 12
    ensures ToUtcTime(ToJulianDay(d, Daytime(0, 0, 0, 0, 0))) == (DayNumber(d) - REFORM_DAY) * DAY_TICKS
  {
    hide ToJulianDay, DayNumber;
    var j := ToJulianDay(d, Daytime(0, 0, 0, 0, 0));
    JulianDayIsInstant(d, Daytime(0, 0, 0, 0, 0));
    assert (j - 2299160.5) * 864000000000.0 == ((DayNumber(d) - REFORM_DAY) * DAY_TICKS) as real;
  }

  /** Where the clocks start: UTC time with the Gregorian reform, Unix time 122192928 billion ticks later. */
  lemma Epochs()
    ensures var midnight := Daytime(0, 0, 0, 0, 0);
            ToJulianDay(Date(1582, 10, 15), midnight) == 2299160.5 && ToUtcTime(2299160.5) == 0 &&
            ToJulianDay(Date(1970, 1, 1), midnight) == 2440587.5 && ToUtcTime(2440587.5) == 0x01b21dd2_13814000 &&
            ToJulianDay(Date(2000, 1, 1), Daytime(12, 0, 0, 0, 0)) == 2451545.0 &&
            JulianDayOfUtc(0) == 2299160.5 && JulianDayOfUtc(0x01b21dd2_13814000) == 2440587.5
  {
    assert DayNumber(Date(1582, 10, 15)) == REFORM_DAY && DayNumber(Date(1970, 1, 1)) == REFORM_DAY + 141427;
    assert DayNumber(Date(2000, 1, 1)) == REFORM_DAY + 152384;
    hide DayNumber, ToJulianDay;
    JulianDayIsInstant(Date(1582, 10, 15), Daytime(0, 0, 0, 0, 0));
    JulianDayIsInstant(Date(1970, 1, 1), Daytime(0, 0, 0, 0, 0));
    JulianDayIsInstant(Date(2000, 1, 1), Daytime(12, 0, 0, 0, 0));
  }

  /** A tick is a tenth of a microsecond: both directions between UTC time and Julian day go at that rate. */
  lemma UtcOfJulianDay(utcTime: int)
    ensures ToUtcTime(JulianDayOfUtc(utcTime)) == utcTime
    ensures JulianDayOfUtc(utcTime + DAY_TICKS) == JulianDayOfUtc(utcTime) + 1.0
  {
  }

  lemma TicksOfFields(days: int, dayTicks: int, dayTime: int)
    requires dayTicks == (days - REFORM_DAY) * DAY_TICKS
    ensures (dayTicks + 10 * dayTime) % 10 == 0 && MicrosOfUtc(dayTicks + 10 * dayTime) == days * DAY_MICROS + dayTime
  {
    assert dayTicks + 10 * dayTime == 10 * ((days - REFORM_DAY) * DAY_MICROS + dayTime);
  }

  /** The microsecond a UTC time falls in, counted from day number 0. */
  function MicrosOfUtc(utcTime: int): int {
    REFORM_DAY * DAY_MICROS + utcTime / 10
  }

  /** The microsecond computeGregorian rounds a Julian day to. */
  function RoundedMicros(julianDay: real): int {
    ((julianDay - 1721118.5) * 86400000000.0 + 0.5).Floor
  }

  /** The components of a Timespan of that many microseconds. */
  function ComponentsOf(span: int): Daytime {
    Daytime(Rem(Quot(span, 3600000000), 24), Rem(Quot(span, 60000000), 60), Rem(Quot(span, 1000000), 60),
            Rem(Quot(span, 1000), 1000), Rem(span, 1000))
  }

  function SpanDaytime(utcTime: int): Daytime {
    ComponentsOf(Quot(utcTime, 10))
  }

  /** A date one day off is told from a right one by the hour: 23 against 0. */
  function RepairedDate(d: Date, computedHour: int, trueHour: int): Date
    requires IsDate(d)
  {
    if trueHour == 23 && computedHour == 0 then PreviousDay(d)
    else if trueHour == 0 && computedHour == 23 then NextDay(d)
    else d
  }

  /** At most an hour off, the repaired date is the true one. */
  lemma RepairIsExact(computed: int, exact: int)
    requires -HOUR_MICROS <= computed - exact <= HOUR_MICROS
    ensures IsDate(DateOf(computed / DAY_MICROS))
    ensures RepairedDate(DateOf(computed / DAY_MICROS), DaytimeOf(computed).hour, DaytimeOf(exact).hour)
            == DateOf(exact / DAY_MICROS)
  {
    hide DateOf, DaytimeOf, DayNumber, NextDay, PreviousDay;
    var dc, de := computed / DAY_MICROS, exact / DAY_MICROS;
    DayNumberOfDate(dc);
    DayNumberOfDate(de);
    HourOfDay(computed);
    HourOfDay(exact);
    if dc == de + 1 {
      PreviousDayNumber(DateOf(dc));
      DateOfDayNumber(PreviousDay(DateOf(dc)));
    } else if dc == de - 1 {
      NextDayNumber(DateOf(dc));
      DateOfDayNumber(NextDay(DateOf(dc)));
    } else {
      assert dc == de;
    }
  }

  lemma RoundingError(utcTime: int, error: real)
    requires -3600000000.0 <= error * 86400000000.0 + 0.5 <= 3600000000.0
    ensures -HOUR_MICROS <= RoundedMicros(JulianDayOfUtc(utcTime) + error) - MicrosOfUtc(utcTime) <= HOUR_MICROS
  {
    var ticks := utcTime % 10;
    var e := error * 86400000000.0;
    var x := (JulianDayOfUtc(utcTime) + error - 1721118.5) * 86400000000.0;
    assert x == MicrosOfUtc(utcTime) as real + ticks as real / 10.0 + e;
  }

  lemma HourOfDay(us: int)
    ensures var h := DaytimeOf(us).hour;
            0 <= h < 24 && us / DAY_MICROS * DAY_MICROS + h * HOUR_MICROS <= us < us / DAY_MICROS * DAY_MICROS + (h + 1) * HOUR_MICROS
  {
    var days, t := us / DAY_MICROS, us % DAY_MICROS;
    DaytimeIgnoresDays(days, t);
    MicrosOfDaytime(t);
  }

  lemma QuotRem(x: int, n: int)
    requires x >= 0 && n > 0
    ensures Rem(x, n) == x % n && Quot(x, n) == x / n && x / n >= 0
  {
  }

  lemma NegatedRem(x: int, n: int)
    requires x >= 0 && n > 0
    ensures Rem(-x, n) == -(x % n) && Quot(-x, n) == -(x / n) && x / n >= 0
  {
    QuotRem(x, n);
    assert n * -(x / n) == -(n * (x / n));
  }

  lemma ComponentsOfForward(span: int)
    requires span >= 0
    ensures ComponentsOf(span) == DaytimeOf(span)
  {
    QuotRem(span, 3600000000);
    QuotRem(span, 60000000);
    QuotRem(span, 1000000);
    QuotRem(span, 1000);
    QuotRem(span / 3600000000, 24);
    QuotRem(span / 60000000, 60);
    QuotRem(span / 1000000, 60);
    QuotRem(span / 1000, 1000);
  }

  lemma ComponentsOfBackward(a: int)
    requires a >= 0
    ensures var f := DaytimeOf(a); ComponentsOf(-a) == Daytime(-f.hour, -f.minute, -f.second, -f.millis, -f.micros)
  {
    NegatedRem(a, 3600000000);
    NegatedRem(a, 60000000);
    NegatedRem(a, 1000000);
    NegatedRem(a, 1000);
    NegatedRem(a / 3600000000, 24);
    NegatedRem(a / 60000000, 60);
    NegatedRem(a / 1000000, 60);
    NegatedRem(a / 1000, 1000);
  }

  /** From 15 October 1582 on the span components are the time of day. */
  lemma SpanFromReform(utcTime: int)
    requires utcTime >= 0
    ensures SpanDaytime(utcTime) == DaytimeOf(MicrosOfUtc(utcTime))
  {
    ComponentsOfForward(utcTime / 10);
    DaytimeIgnoresDays(REFORM_DAY, utcTime / 10);
  }

  /** The time of day is midnight exactly for whole days. */
  lemma MidnightIsWholeDay(us: int)
    ensures DaytimeOf(us) == Daytime(0, 0, 0, 0, 0) <==> us % DAY_MICROS == 0
    ensures IsDaytime(DaytimeOf(us))
  {
    var t := us % DAY_MICROS;
    assert us == us / DAY_MICROS * DAY_MICROS + t;
    DaytimeIgnoresDays(us / DAY_MICROS, t);
    MidnightOfDay(t);
  }

  lemma MidnightOfDay(t: int)
    requires 0 <= t < DAY_MICROS
    ensures DaytimeOf(t) == Daytime(0, 0, 0, 0, 0) <==> t == 0
    ensures IsDaytime(DaytimeOf(t))
  {
    MicrosOfDaytime(t);
    ZeroMicros(DaytimeOf(t));
  }

  lemma ZeroMicros(t: Daytime)
    requires IsDaytime(t)
    ensures t == Daytime(0, 0, 0, 0, 0) <==> MicrosOf(t) == 0
  {
  }

  /** Before that day they are negative or zero, so they are the time of day at midnight only. */
  lemma SpanBeforeReform(utcTime: int)
    requires utcTime < 0
    ensures SpanDaytime(utcTime) == DaytimeOf(MicrosOfUtc(utcTime)) <==> utcTime % DAY_TICKS == 0
  {
    var a, us := -utcTime / 10, utcTime / 10;
    ComponentsOfBackward(a);
    DaytimeIgnoresDays(REFORM_DAY, us);
    MidnightIsWholeDay(a);
    MidnightIsWholeDay(us);
    TicksAndMicros(utcTime);
    assert Quot(utcTime, 10) == -a;
    var f, g := DaytimeOf(a), DaytimeOf(us);
    assert ComponentsOf(-a) == g <==> f == Daytime(0, 0, 0, 0, 0) == g;
  }

  lemma TicksAndMicros(utcTime: int)
    ensures utcTime / 10 % DAY_MICROS == 0 && -utcTime / 10 % DAY_MICROS == 0 <==> utcTime % DAY_TICKS == 0
  {
    var a, us := -utcTime / 10, utcTime / 10;
    if us % DAY_MICROS == 0 && a % DAY_MICROS == 0 {
      WholeTicks(utcTime, us / DAY_MICROS, a / DAY_MICROS);
    }
    if utcTime % DAY_TICKS == 0 {
      TicksOfDays(utcTime / DAY_TICKS);
    }
  }

  /** Rounding down a time and its negation to microseconds can give whole days both times only if nothing is cut off. */
  lemma WholeTicks(utcTime: int, k: int, l: int)
    requires 10 * DAY_MICROS * k <= utcTime < 10 * DAY_MICROS * k + 10
    requires 10 * DAY_MICROS * l <= -utcTime < 10 * DAY_MICROS * l + 10
    ensures utcTime == DAY_TICKS * k && utcTime % DAY_TICKS == 0
  {
    assert k == -l;
  }

  lemma TicksOfDays(k: int)
    ensures DAY_TICKS * k / 10 % DAY_MICROS == 0 && -(DAY_TICKS * k) / 10 % DAY_MICROS == 0
  {
    assert DAY_TICKS * k / 10 == DAY_MICROS * k;
    assert -(DAY_TICKS * k) / 10 == DAY_MICROS * -k;
  }

  // ------------------------------------------------------------------------------------------
  // Carries
  // ------------------------------------------------------------------------------------------

  /** What checkLimit moves to the higher field. */
  function Carry(x: int, limit: int): int
    requires limit > 0
  {
    if x >= limit then x / limit else 0
  }

  function Kept(x: int, limit: int): int
    requires limit > 0
  {
    if x >= limit then x % limit else x
  }

  /** The carry chain of normalize: the new time of day, and the days carried out of it. */
  function Carried(t: Daytime): (Daytime, int) {
    var millis := t.millis + Carry(t.micros, 1000);
    var second := t.second + Carry(millis, 1000);
    var minute := t.minute + Carry(second, 60);
    var hour := t.hour + Carry(minute, 60);
    (Daytime(Kept(hour, 24), Kept(minute, 60), Kept(second, 60), Kept(millis, 1000), Kept(t.micros, 1000)), Carry(hour, 24))
  }

  predicate NonNegative(t: Daytime) {
    t.hour >= 0 && t.minute >= 0 && t.second >= 0 && t.millis >= 0 && t.micros >= 0
  }

  lemma KeptAndCarry(x: int, limit: int)
    requires limit > 0
    ensures x == limit * Carry(x, limit) + Kept(x, limit)
    ensures x >= 0 ==> 0 <= Kept(x, limit) < limit && Carry(x, limit) >= 0
  {
  }

  lemma CarryKeepsInstant(t: Daytime)
    ensures var (t', days) := Carried(t);
            MicrosOf(t) == days * DAY_MICROS + MicrosOf(t') &&
            (NonNegative(t) ==> IsDaytime(t') && days == MicrosOf(t) / DAY_MICROS)
  {
    var millis := t.millis + Carry(t.micros, 1000);
    var second := t.second + Carry(millis, 1000);
    var minute := t.minute + Carry(second, 60);
    var hour := t.hour + Carry(minute, 60);
    KeptAndCarry(t.micros, 1000);
    KeptAndCarry(millis, 1000);
    KeptAndCarry(second, 60);
    KeptAndCarry(minute, 60);
    KeptAndCarry(hour, 24);
    CarrySum(t, Carried(t).0, millis, second, minute, hour, Carried(t).1);
  }

  lemma CarrySum(t: Daytime, u: Daytime, millis: int, second: int, minute: int, hour: int, days: int)
    requires 1000 * (millis - t.millis) + u.micros == t.micros
    requires 1000 * (second - t.second) + u.millis == millis
    requires 60 * (minute - t.minute) + u.second == second
    requires 60 * (hour - t.hour) + u.minute == minute
    requires 24 * days + u.hour == hour
    ensures MicrosOf(t) == days * DAY_MICROS + MicrosOf(u)
    ensures IsDaytime(u) ==> days == MicrosOf(t) / DAY_MICROS
  {
  }

  function DaysOfTwoMonths(year: int, month: int): int
    requires 1 <= month <= 12
  {
    DaysOfMonth(year, month) + DaysOfMonth(NextMonth(year, month).0, NextMonth(year, month).1)
  }

  /** The fields that normalize leaves. */
  function Normalized(d: Date, t: Daytime): (r: (Date, Daytime))
    requires 1 <= d.month <= 12
    ensures 1 <= r.0.month <= 12
  {
    var (t', days) := Carried(t);
    var day := d.day + days;
    var d' := if day > DaysOfMonth(d.year, d.month)
              then Date(NextMonth(d.year, d.month).0, NextMonth(d.year, d.month).1, day - DaysOfMonth(d.year, d.month))
              else d.(day := day);
    (d', t')
  }

  /** normalize keeps the instant; days that fit this month and the next end up in range. */
  lemma NormalizedKeepsInstant(d: Date, t: Daytime)
    requires 1 <= d.month <= 12
    ensures Instant(Normalized(d, t).0, Normalized(d, t).1) == Instant(d, t)
    ensures NonNegative(t) && 1 <= d.day && d.day + MicrosOf(t) / DAY_MICROS <= DaysOfTwoMonths(d.year, d.month)
            ==> IsDate(Normalized(d, t).0) && IsDaytime(Normalized(d, t).1)
  {
    var days := Carried(t).1;
    CarryKeepsInstant(t);
    MonthEnd(d.year, d.month, d.day + days);
    assert DayNumber(Normalized(d, t).0) == DayNumber(d) + days;
  }

  // ------------------------------------------------------------------------------------------
  // The real arithmetic of computeGregorian
  // ------------------------------------------------------------------------------------------

  /** The date steps as the source takes them, on the whole days z and the fraction r of a day. */
  function DateInReals(z: real, r: real): Date {
    var g := z - 0.25;
    var a := (g / 36524.25).Floor as real;
    var b := a - (a / 4.0).Floor as real;
    var year := ((b + g) / 365.25).Floor;
    var c := b + z - (365.25 * year as real).Floor as real;
    var month := ((5.0 * c + 456.0) / 153.0).Floor;
    var dday := c - ((153.0 * month as real - 457.0) / 5.0).Floor as real + r;
    if month > 12 then Date(year + 1, month - 12, Trunc(dday)) else Date(year, month, Trunc(dday))
  }

  lemma CenturyInReals(z: int)
    ensures ((z as real - 0.25) / 36524.25).Floor == (4 * z - 1) / 146097
  {
    var q := (4 * z - 1) / 146097;
    assert q as real <= (z as real - 0.25) / 36524.25 < q as real + 1.0;
  }

  lemma YearInReals(b: int, z: int)
    ensures ((b as real + (z as real - 0.25)) / 365.25).Floor == (4 * (b + z) - 1) / 1461
  {
    var q := (4 * (b + z) - 1) / 1461;
    assert q as real <= (b as real + (z as real - 0.25)) / 365.25 < q as real + 1.0;
  }

  lemma YearDaysInReals(year: int)
    ensures (365.25 * year as real).Floor == 1461 * year / 4
  {
    var q := 1461 * year / 4;
    assert q as real <= 365.25 * year as real < q as real + 1.0;
  }

  lemma MonthInReals(c: int, month: int)
    ensures ((5.0 * c as real + 456.0) / 153.0).Floor == (5 * c + 456) / 153
    ensures ((153.0 * month as real - 457.0) / 5.0).Floor == (153 * month - 457) / 5
  {
    var q, p := (5 * c + 456) / 153, (153 * month - 457) / 5;
    assert q as real <= (5.0 * c as real + 456.0) / 153.0 < q as real + 1.0;
    assert p as real <= (153.0 * month as real - 457.0) / 5.0 < p as real + 1.0;
  }

  /** The floors of the source find the date of the day number. */
  lemma DateStepsInReals(z: int, r: real)
    requires 0.0 <= r < 1.0
    ensures DateInReals(z as real, r) == DateOf(z)
  {
    var a := (4 * z - 1) / 146097;
    var b := a - a / 4;
    var year := (4 * (b + z) - 1) / 1461;
    var c := b + z - 1461 * year / 4;
    var month := (5 * c + 456) / 153;
    var offset := (153 * month - 457) / 5;
    assert DateOf(z) == if month > 12 then Date(year + 1, month - 12, c - offset) else Date(year, month, c - offset);
    assert c - offset >= 1 by { DayNumberOfDate(z); }
    FloorSteps(z, a, year, c, month);
    WholePart(c - offset, r);
    DateFromSteps(z, r, a, a / 4, year, 1461 * year / 4, c, month, offset);
  }

  lemma FloorSteps(z: int, a: int, year: int, c: int, month: int)
    requires a == (4 * z - 1) / 146097 && year == (4 * (a - a / 4 + z) - 1) / 1461 && month == (5 * c + 456) / 153
    ensures ((z as real - 0.25) / 36524.25).Floor == a && (a as real / 4.0).Floor == a / 4
    ensures (((a - a / 4) as real + (z as real - 0.25)) / 365.25).Floor == year
    ensures (365.25 * year as real).Floor == 1461 * year / 4
    ensures ((5.0 * c as real + 456.0) / 153.0).Floor == month
    ensures ((153.0 * month as real - 457.0) / 5.0).Floor == (153 * month - 457) / 5
  {
    CenturyInReals(z);
    FloorOfQuotients(a);
    YearInReals(a - a / 4, z);
    YearDaysInReals(year);
    MonthInReals(c, month);
  }

  lemma DateFromSteps(z: int, r: real, a: int, a4: int, year: int, days: int, c: int, month: int, offset: int)
    requires ((z as real - 0.25) / 36524.25).Floor == a && (a as real / 4.0).Floor == a4
    requires (((a - a4) as real + (z as real - 0.25)) / 365.25).Floor == year && (365.25 * year as real).Floor == days
    requires c == a - a4 + z - days
    requires ((5.0 * c as real + 456.0) / 153.0).Floor == month && ((153.0 * month as real - 457.0) / 5.0).Floor == offset
    requires Trunc((c - offset) as real + r) == c - offset
    ensures DateInReals(z as real, r) ==
            if month > 12 then Date(year + 1, month - 12, c - offset) else Date(year, month, c - offset)
  {
    assert a as real - a4 as real == (a - a4) as real;
    assert c as real == (a - a4) as real + z as real - days as real;
    assert c as real - offset as real + r == (c - offset) as real + r;
  }

  lemma WholePart(n: int, r: real)
    requires n >= 0 && 0.0 <= r < 1.0
    ensures Trunc(n as real + r) == n
  {
  }

  /** The time fields before normalize; the microseconds are rounded and may reach 1000. */
  function DaytimeInReals(r: real): Daytime {
    var r1 := r * 24.0;
    var r2 := (r1 - r1.Floor as real) * 60.0;
    var r3 := (r2 - r2.Floor as real) * 60.0;
    var r4 := (r3 - r3.Floor as real) * 1000.0;
    var r5 := (r4 - r4.Floor as real) * 1000.0;
    Daytime(r1.Floor, r2.Floor, r3.Floor, r4.Floor, Trunc(r5 + 0.5))
  }

  /** The time fields add up to the fraction of the day, rounded to the microsecond. */
  lemma DaytimeStepsInReals(r: real)
    requires 0.0 <= r < 1.0
    ensures var t := DaytimeInReals(r);
            NonNegative(t) && MicrosOf(t) <= DAY_MICROS && MicrosOf(t) == (r * 86400000000.0 + 0.5).Floor
  {
    var t := DaytimeInReals(r);
    var r1 := r * 24.0;
    var r2 := (r1 - r1.Floor as real) * 60.0;
    var r3 := (r2 - r2.Floor as real) * 60.0;
    var r4 := (r3 - r3.Floor as real) * 1000.0;
    var r5 := (r4 - r4.Floor as real) * 1000.0;
    assert 0.0 <= r5 < 1000.0;
    var whole := ((t.hour * 60 + t.minute) * 60 + t.second) * 1000000 + t.millis * 1000;
    assert r * 86400000000.0 == whole as real + r5;
    assert (r * 86400000000.0 + 0.5).Floor == whole + (r5 + 0.5).Floor;
  }

  /** normalize turns the fields of a Julian day into those of the rounded microsecond. */
  lemma RoundedFields(julianDay: real)
    ensures var z := (julianDay - 1721118.5).Floor;
            var d := DateOf(z);
            var t := DaytimeInReals(julianDay - 1721118.5 - z as real);
            var us := RoundedMicros(julianDay);
            1 <= d.month <= 12 && Normalized(d, t) == (DateOf(us / DAY_MICROS), DaytimeOf(us))
  {
    var z := (julianDay - 1721118.5).Floor;
    var r := julianDay - 1721118.5 - z as real;
    var d, t := DateOf(z), DaytimeInReals(r);
    var us := RoundedMicros(julianDay);
    DayNumberOfDate(z);
    DaytimeStepsInReals(r);
    assert us == z * DAY_MICROS + (r * 86400000000.0 + 0.5).Floor;
    NormalizedKeepsInstant(d, t);
    assert Instant(d, t) == us;
    var (d', t') := Normalized(d, t);
    FieldsOfInstant(d', t', us);
  }

  // ------------------------------------------------------------------------------------------
  // Weekdays and weeks
  // ------------------------------------------------------------------------------------------

  /** The weekday of a day number, Sunday being 0. */
  function Weekday(z: int): int {
    (z + 1721120) % 7
  }

  lemma WeekdayShift(z: int, k: int)
    ensures Weekday(z + k) == (Weekday(z) + k) % 7
  {
    var x := z + 1721120;
    assert (x + k) / 7 == x / 7 + (x % 7 + k) / 7;
  }

  lemma SameWeekday(z: int, w: int)
    requires Weekday(z) == Weekday(w) && z < w + 7
    ensures z <= w
  {
    var q := (z + 1721120) / 7 - (w + 1721120) / 7;
    assert z - w == 7 * q;
  }

  /** The weekday goes round with the dates, and 1 January 2000 is a Saturday. */
  lemma WeekdaysGoRound(d: Date)
    requires IsDate(d)
    ensures Weekday(DayNumber(NextDay(d))) == (Weekday(DayNumber(d)) + 1) % 7
    ensures Weekday(DayNumber(Date(2000, 1, 1))) == 6
  {
    MillenniumIsSaturday();
    hide DayNumber, NextDay;
    NextDayNumber(d);
    WeekdayShift(DayNumber(d), 1);
  }

  lemma MillenniumIsSaturday()
    ensures Weekday(DayNumber(Date(2000, 1, 1))) == 6
  {
  }

  /** The number of the day a UTC time falls in. */
  function DayOfUtc(utcTime: int): int {
    MicrosOfUtc(utcTime) / DAY_MICROS
  }

  /** The floor taken of the Julian day is the day number, whatever the time of day. */
  lemma FloorIsDay(utcTime: int)
    ensures (JulianDayOfUtc(utcTime) + 1.5).Floor == DayOfUtc(utcTime) + 1721120
  {
    var days, ticks := utcTime / DAY_TICKS, utcTime % DAY_TICKS;
    assert utcTime == DAY_TICKS * days + ticks;
    assert utcTime / 10 == DAY_MICROS * days + ticks / 10;
    assert 0.0 <= ticks as real / 864000000000.0 < 1.0;
    assert JulianDayOfUtc(utcTime) + 1.5 == (days + 2299162) as real + ticks as real / 864000000000.0;
  }

  lemma RemIsModulo(x: int)
    ensures if x >= 0 then Rem(x, 7) == x % 7 else -7 < Rem(x, 7) <= 0 && Rem(x, 7) % 7 == x % 7
  {
  }

  /** The last day up to z that has the given weekday. */
  function WeekStart(z: int, firstDay: int): (start: int)
    requires 0 <= firstDay <= 6
    ensures Weekday(start) == firstDay && start <= z < start + 7
  {
    var back := (Weekday(z) - firstDay) % 7;
    WeekdayShift(z, -back);
    assert (Weekday(z) - back) % 7 == firstDay by {
      assert Weekday(z) - back == firstDay + 7 * ((Weekday(z) - firstDay) / 7);
    }
    z - back
  }

  /** The day number on which the week with 4 January starts, for weeks starting on the given weekday. */
  function FirstWeek(year: int, firstDay: int): int
    requires 0 <= firstDay <= 6
  {
    WeekStart(DayNumber(Date(year, 1, 4)), firstDay)
  }

  lemma SevenDays(year: int, firstDay: int, seen: int)
    requires 0 <= firstDay <= 6 && 1 <= seen <= 7
    requires forall b :: 1 <= b <= seen ==> Weekday(DayNumber(Date(year, 1, b))) != firstDay
    ensures seen < 7
  {
    var start := WeekStart(DayNumber(Date(year, 1, 7)), firstDay);
    var b := start - DayNumber(Date(year, 1, 1)) + 1;
    assert start == DayNumber(Date(year, 1, b));
  }

  lemma FirstWeekStart(year: int, firstDay: int, baseDay: int)
    requires 0 <= firstDay <= 6 && 1 <= baseDay <= 7 && Weekday(DayNumber(Date(year, 1, baseDay))) == firstDay
    ensures FirstWeek(year, firstDay) == DayNumber(Date(year, 1, baseDay)) - (if baseDay <= 4 then 0 else 7)
  {
    var first, base := FirstWeek(year, firstDay), DayNumber(Date(year, 1, baseDay));
    if baseDay > 4 { WeekdayShift(base, -7); }
    var start := if baseDay <= 4 then base else base - 7;
    SameWeekday(first, start);
    SameWeekday(start, first);
  }

  // ------------------------------------------------------------------------------------------
  // The class
  // ------------------------------------------------------------------------------------------

  class DateTime {
    var utcTime: int
    var year: int
    var month: int
    var day: int
    var hour: int
    var minute: int
    var second: int
    var millisecond: int
    var microsecond: int

    function GetDate(): Date
      reads this
    {
      Date(year, month, day)
    }

    function GetDaytime(): Daytime
      reads this
    {
      Daytime(hour, minute, second, millisecond, microsecond)
    }

    /** DateTime(year, ..., microsecond) and assign: the stored UTC time is the instant of the fields. */
    constructor (d: Date, t: Daytime)
      requires IsDate(d) && 0 <= d.year <= 9999 && IsDaytime(t)
      ensures GetDate() == d && GetDaytime() == t
      ensures utcTime % 10 == 0 && MicrosOfUtc(utcTime) == Instant(d, t)
    {
      hide ToJulianDay, DayNumber, ToUtcTime, MicrosOfUtc;
      MidnightTicks(d);
      var dayTime := t.hour * 3600000000 + t.minute * 60000000 + t.second * 1000000 + t.millis * 1000 + t.micros;
      var dayTicks := ToUtcTime(ToJulianDay(d, Daytime(0, 0, 0, 0, 0)));
      utcTime := dayTicks + 10 * dayTime;
      TicksOfFields(DayNumber(d), dayTicks, dayTime);
      year, month, day := d.year, d.month, d.day;
      hour, minute, second, millisecond, microsecond := t.hour, t.minute, t.second, t.millis, t.micros;
    }

    static method CheckLimit(lower: int, higher: int, limit: int) returns (lower': int, higher': int)
      requires limit > 0
      ensures lower' == Kept(lower, limit) && higher' == higher + Carry(lower, limit)
    {
      lower', higher' := lower, higher;
      if lower' >= limit {
        higher' := higher' + Quot(lower', limit);
        lower' := Rem(lower', limit);
        QuotRem(lower, limit);
      }
    }

    /** The five limit checks of normalize. */
    method CarryFields()
      modifies `day, `hour, `minute, `second, `millisecond, `microsecond
      ensures GetDaytime() == Carried(old(GetDaytime())).0 && day == old(day) + Carried(old(GetDaytime())).1
    {
      microsecond, millisecond := CheckLimit(microsecond, millisecond, 1000);
      millisecond, second := CheckLimit(millisecond, second, 1000);
      second, minute := CheckLimit(second, minute, 60);
      minute, hour := CheckLimit(minute, hour, 60);
      hour, day := CheckLimit(hour, day, 24);
    }

    method Normalize()
      requires 1 <= month <= 12
      modifies `year, `month, `day, `hour, `minute, `second, `millisecond, `microsecond
      ensures (GetDate(), GetDaytime()) == old(Normalized(GetDate(), GetDaytime()))
    {
      CarryFields();
      if day > DaysOfMonth(year, month) {
        day := day - DaysOfMonth(year, month);
        month := month + 1;
        if month > 12 {
          year := year + 1;
          month := month - 12;
        }
      }
    }

    /** The date steps of computeGregorian, on whole days and the fraction of a day. */
    method ComputeDate(z: real, r: real)
      modifies `year, `month, `day
      ensures GetDate() == DateInReals(z, r)
    {
      var g := z - 0.25;
      var a := (g / 36524.25).Floor as real;
      var b := a - (a / 4.0).Floor as real;
      year := ((b + g) / 365.25).Floor;
      var c := b + z - (365.25 * year as real).Floor as real;
      month := ((5.0 * c + 456.0) / 153.0).Floor;
      var dday := c - ((153.0 * month as real - 457.0) / 5.0).Floor as real + r;
      day := Trunc(dday);
      if month > 12 {
        year := year + 1;
        month := month - 12;
      }
    }

    /** The time steps of computeGregorian. */
    method ComputeFraction(fraction: real)
      modifies `hour, `minute, `second, `millisecond, `microsecond
      ensures GetDaytime() == DaytimeInReals(fraction)
    {
      var r := fraction * 24.0;
      hour := r.Floor;
      r := r - r.Floor as real;
      r := r * 60.0;
      minute := r.Floor;
      r := r - r.Floor as real;
      r := r * 60.0;
      second := r.Floor;
      r := r - r.Floor as real;
      r := r * 1000.0;
      millisecond := r.Floor;
      r := r - r.Floor as real;
      r := r * 1000.0;
      microsecond := Trunc(r + 0.5);
    }

    /** The date and time of day of a Julian day, rounded to the microsecond. */
    method ComputeGregorian(julianDay: real)
      modifies `year, `month, `day, `hour, `minute, `second, `millisecond, `microsecond
      ensures GetDate() == DateOf(RoundedMicros(julianDay) / DAY_MICROS)
      ensures GetDaytime() == DaytimeOf(RoundedMicros(julianDay))
    {
      var z := (julianDay - 1721118.5).Floor as real;
      var r := julianDay - 1721118.5 - z;
      ComputeDate(z, r);
      ComputeFraction(r);
      DateStepsInReals((julianDay - 1721118.5).Floor, r);
      RoundedFields(julianDay);
      Normalize();
    }

    /** The time of day from the UTC time, and the date repaired where rounding crossed midnight. */
    method ComputeDaytime()
      requires IsDate(GetDate())
      modifies `year, `month, `day, `hour, `minute, `second, `millisecond, `microsecond
      ensures GetDate() == RepairedDate(old(GetDate()), old(hour), SpanDaytime(utcTime).hour)
      ensures GetDaytime() == SpanDaytime(utcTime)
    {
      var span := Quot(utcTime, 10);
      var spanHour := Rem(Quot(span, 3600000000), 24);
      if spanHour == 23 && hour == 0 {
        day := day - 1;
        if day == 0 {
          month := month - 1;
          if month == 0 {
            month := 12;
            year := year - 1;
          }
          day := DaysOfMonth(year, month);
        }
      } else if spanHour == 0 && hour == 23 {
        day := day + 1;
        if day > DaysOfMonth(year, month) {
          month := month + 1;
          if month > 12 {
            month := 1;
            year := year + 1;
          }
          day := 1;
        }
      }
      hour := spanHour;
      minute := Rem(Quot(span, 60000000), 60);
      second := Rem(Quot(span, 1000000), 60);
      millisecond := Rem(Quot(span, 1000), 1000);
      microsecond := Rem(span, 1000);
    }

    /** Assignment of a timestamp. The Julian day handed to computeGregorian may be wrong by `error` days of rounding;
        with less than an hour of it (half a microsecond of that for the rounding of the microseconds) the fields are
        exactly those of the UTC time, for times from 15 October 1582 on and for earlier midnights, and only for those. */
    method SetUtcTime(time: int, error: real)
      requires -3600000000.0 <= error * 86400000000.0 + 0.5 <= 3600000000.0
      modifies this
      ensures utcTime == time
      ensures time >= 0 ==> GetDate() == DateOf(MicrosOfUtc(time) / DAY_MICROS)
      ensures GetDate() == DateOf(MicrosOfUtc(time) / DAY_MICROS) && GetDaytime() == DaytimeOf(MicrosOfUtc(time))
              <==> time >= 0 || time % DAY_TICKS == 0
    {
      utcTime := time;
      ComputeGregorian(JulianDayOfUtc(utcTime) + error);
      ghost var computed, exact := RoundedMicros(JulianDayOfUtc(utcTime) + error), MicrosOfUtc(time);
      RoundingError(time, error);
      DayNumberOfDate(computed / DAY_MICROS);
      RepairIsExact(computed, exact);
      ComputeDaytime();
      if time >= 0 { SpanFromReform(time); } else { SpanBeforeReform(time); }
    }

    /** The weekday of the day the UTC time falls in; before the Julian day -1.5, where the remainder of a negative number is
        taken, it comes out a week less, except for Sundays. */
    method DayOfWeek() returns (w: int)
      ensures DayOfUtc(utcTime) >= -1721120 ==> w == Weekday(DayOfUtc(utcTime))
      ensures DayOfUtc(utcTime) < -1721120 ==> -7 < w <= 0 && w % 7 == Weekday(DayOfUtc(utcTime))
    {
      FloorIsDay(utcTime);
      RemIsModulo(DayOfUtc(utcTime) + 1721120);
      return Rem((JulianDayOfUtc(utcTime) + 1.5).Floor, 7);
    }

    /** The sum of the month lengths is the distance from 1 January in day numbers. */
    method DayOfYear() returns (doy: int)
      requires IsDate(GetDate())
      ensures doy == DayNumber(GetDate()) - DayNumber(Date(year, 1, 1)) + 1
    {
      doy := 0;
      var m := 1;
      while m < month
        invariant 1 <= m <= month
        invariant doy == DayNumber(Date(year, m, 1)) - DayNumber(Date(year, 1, 1))
      {
        MonthEnd(year, m, DaysOfMonth(year, m) + 1);
        doy := doy + DaysOfMonth(year, m);
        m := m + 1;
      }
      doy := doy + day;
    }

    /** Weeks are counted from the one that contains 4 January; days in front of it are in week 0. */
    method Week(firstDayOfWeek: int) returns (week: int)
      requires IsDate(GetDate()) && 0 <= year <= 9999 && 0 <= firstDayOfWeek <= 6
      ensures week == (DayNumber(GetDate()) - FirstWeek(year, firstDayOfWeek)) / 7 + 1
    {
      var baseDay := 1;
      var w := WeekdayOfJanuary(year, baseDay);
      while w != firstDayOfWeek
        invariant 1 <= baseDay <= 7 && w == Weekday(DayNumber(Date(year, 1, baseDay)))
        invariant forall b :: 1 <= b < baseDay ==> Weekday(DayNumber(Date(year, 1, b))) != firstDayOfWeek
        decreases 7 - baseDay
      {
        SevenDays(year, firstDayOfWeek, baseDay);
        baseDay := baseDay + 1;
        w := WeekdayOfJanuary(year, baseDay);
      }
      var doy := DayOfYear();
      var offs := if baseDay <= 4 then 0 else 1;
      FirstWeekStart(year, firstDayOfWeek, baseDay);
      if doy < baseDay {
        return offs;
      } else {
        return Quot(doy - baseDay, 7) + 1 + offs;
      }
    }
  }

  /** DateTime(year, 1, day).dayOfWeek() */
  method WeekdayOfJanuary(year: int, day: int) returns (w: int)
    requires 0 <= year <= 9999 && 1 <= day <= 31
    ensures w == Weekday(DayNumber(Date(year, 1, day)))
  {
    var d := Date(year, 1, day);
    var t := new DateTime(d, Daytime(0, 0, 0, 0, 0));
    assert MicrosOfUtc(t.utcTime) == DayNumber(d) * DAY_MICROS;
    w := t.DayOfWeek();
  }
}
