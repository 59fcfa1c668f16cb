/** What printed dates look like, character by character (Foundation/src/DateTimeFormatter.cpp, DateTimeFormat.cpp), and which texts
    the parser accepts and refuses for their range (Foundation/src/DateTimeParser.cpp). */
module DateTimeShapes {
  import opened Wrappers
  import opened Ascii
  import opened Digits
  import opened DateTimeText
  import Calendar

  // ----- columns of digits -----

  function DigitOf(x: int): char { '0' + (x % 10) as char }

  /** The last n decimal digits of a number. */
  function Columns(x: nat, n: nat): (s: string)
    ensures |s| == n
  {
    if n == 0 then "" else Columns(x / 10, n - 1) + [DigitOf(x)]
  }

  function Tens(n: nat): nat { if n == 0 then 1 else 10 * Tens(n - 1) }

  lemma {:induction false} ZeroColumns(n: nat)
    ensures Columns(0, n) == Repeat('0', n)
  {
    if n > 0 {
      ZeroColumns(n - 1);
      RepeatEnds(n - 1);
    }
  }

  lemma {:induction false} RepeatEnds(n: nat)
    ensures Repeat('0', n) + "0" == "0" + Repeat('0', n)
  {
    if n > 0 { RepeatEnds(n - 1); }
  }

  lemma {:induction false} DecimalIsShort(x: nat, n: nat)
    requires x < Tens(n) && n > 0
    ensures |Decimal(x)| <= n
    decreases n
  {
    if x >= 10 {
      assert Tens(1) == 10 * Tens(0);
      DecimalIsShort(x / 10, n - 1);
    }
  }

  /** A number padded with zeros shows its last digits, if it has no more. */
  lemma {:induction false} ZeroPaddedColumns(x: nat, n: nat)
    requires x < Tens(n) && n > 0
    ensures Padded(x, n, '0') == Columns(x, n)
    decreases n
  {
    DecimalIsShort(x, n);
    if x < 10 {
      ZeroColumns(n - 1);
      assert Decimal(x) == [DigitOf(x)];
    } else {
      assert Tens(1) == 10 * Tens(0);
      ZeroPaddedColumns(x / 10, n - 1);
      DecimalIsShort(x / 10, n - 1);
      assert Decimal(x) == Decimal(x / 10) + [DigitOf(x)];
      MoreDigits(Repeat('0', n - |Decimal(x)|), Decimal(x / 10), [DigitOf(x)]);
    }
  }

  lemma MoreDigits(a: string, b: string, c: string)
    ensures a + (b + c) == a + b + c && "" + b == b
  {
  }

  lemma SmallTens()
    ensures Tens(1) == 10 && Tens(2) == 100 && Tens(3) == 1000 && Tens(4) == 10000 && Tens(6) == 1000000
  {
    assert Tens(3) == 10 * Tens(2) && Tens(4) == 10 * Tens(3) && Tens(5) == 10 * Tens(4) && Tens(6) == 10 * Tens(5);
  }

  /** Without leading zero, and with a space in its place. */
  lemma DayColumns(x: nat)
    requires x < 100
    ensures Decimal(x) == if x < 10 then Columns(x, 1) else Columns(x, 2)
    ensures Padded(x, 2, ' ') == if x < 10 then " " + Columns(x, 1) else Columns(x, 2)
  {
    assert Columns(x, 1) == [DigitOf(x)];
    assert Columns(x, 2) == [DigitOf(x / 10), DigitOf(x)];
    assert x >= 10 ==> Decimal(x / 10) == [DigitOf(x / 10)];
    assert Repeat(' ', 1) == " ";
  }

  // ----- names -----

  /** The day of the week of a moment, Sunday being 0. */
  function WeekdayOf(m: Moment): int
    requires IsMoment(m)
  {
    Calendar.Weekday(Calendar.DayNumber(m.date))
  }

  /** %W prints the English name of the weekday, %w its first three letters. */
  lemma PrintedWeekdays(m: Moment)
    requires IsMoment(m)
    ensures WeekdayOf(m) == 0 ==> Printed('W', m) == "Sunday" && Printed('w', m) == "Sun"
    ensures WeekdayOf(m) == 1 ==> Printed('W', m) == "Monday" && Printed('w', m) == "Mon"
    ensures WeekdayOf(m) == 2 ==> Printed('W', m) == "Tuesday" && Printed('w', m) == "Tue"
    ensures WeekdayOf(m) == 3 ==> Printed('W', m) == "Wednesday" && Printed('w', m) == "Wed"
    ensures WeekdayOf(m) == 4 ==> Printed('W', m) == "Thursday" && Printed('w', m) == "Thu"
    ensures WeekdayOf(m) == 5 ==> Printed('W', m) == "Friday" && Printed('w', m) == "Fri"
    ensures WeekdayOf(m) == 6 ==> Printed('W', m) == "Saturday" && Printed('w', m) == "Sat"
  {
    hide Calendar.Weekday, Calendar.DayNumber;
    assert "Sunday"[..3] == "Sun";
    assert "Monday"[..3] == "Mon";
    assert "Tuesday"[..3] == "Tue";
    assert "Wednesday"[..3] == "Wed";
    assert "Thursday"[..3] == "Thu";
    assert "Friday"[..3] == "Fri";
    assert "Saturday"[..3] == "Sat";
  }

  /** %B prints the English name of the month, %b its first three letters. */
  lemma PrintedMonths(m: Moment)
    requires IsMoment(m)
    ensures m.date.month == 1 ==> Printed('B', m) == "January" && Printed('b', m) == "Jan"
    ensures m.date.month == 2 ==> Printed('B', m) == "February" && Printed('b', m) == "Feb"
    ensures m.date.month == 3 ==> Printed('B', m) == "March" && Printed('b', m) == "Mar"
    ensures m.date.month == 4 ==> Printed('B', m) == "April" && Printed('b', m) == "Apr"
    ensures m.date.month == 5 ==> Printed('B', m) == "May" && Printed('b', m) == "May"
    ensures m.date.month == 6 ==> Printed('B', m) == "June" && Printed('b', m) == "Jun"
    ensures m.date.month == 7 ==> Printed('B', m) == "July" && Printed('b', m) == "Jul"
    ensures m.date.month == 8 ==> Printed('B', m) == "August" && Printed('b', m) == "Aug"
    ensures m.date.month == 9 ==> Printed('B', m) == "September" && Printed('b', m) == "Sep"
    ensures m.date.month == 10 ==> Printed('B', m) == "October" && Printed('b', m) == "Oct"
    ensures m.date.month == 11 ==> Printed('B', m) == "November" && Printed('b', m) == "Nov"
    ensures m.date.month == 12 ==> Printed('B', m) == "December" && Printed('b', m) == "Dec"
  {
    assert "January"[..3] == "Jan";
    assert "February"[..3] == "Feb";
    assert "March"[..3] == "Mar";
    assert "April"[..3] == "Apr";
    assert "May"[..3] == "May";
    assert "June"[..3] == "Jun";
    assert "July"[..3] == "Jul";
    assert "August"[..3] == "Aug";
    assert "September"[..3] == "Sep";
    assert "October"[..3] == "Oct";
    assert "November"[..3] == "Nov";
    assert "December"[..3] == "Dec";
  }

  // ----- directives -----

  /** The hour on a twelve-hour clock. */
  function ClockHour(hour: int): int { if hour % 12 == 0 then 12 else hour % 12 }

  /** The directives that print parts of the date as numbers. */
  lemma PrintedDates(m: Moment)
    requires IsMoment(m)
    ensures var d := m.date;
            Printed('d', m) == Columns(d.day, 2) && Printed('e', m) == Columns(d.day, if d.day < 10 then 1 else 2) &&
            Printed('f', m) == (if d.day < 10 then " " + Columns(d.day, 1) else Columns(d.day, 2)) &&
            Printed('m', m) == Columns(d.month, 2) && Printed('n', m) == Columns(d.month, if d.month < 10 then 1 else 2) &&
            Printed('o', m) == (if d.month < 10 then " " + Columns(d.month, 1) else Columns(d.month, 2)) &&
            Printed('y', m) == Columns(d.year, 2) && Printed('Y', m) == Columns(d.year, 4)
  {
    var d := m.date;
    hide Columns, Padded, Decimal, Calendar.DayNumber, Calendar.Weekday, WeekdayName, MonthName, Tens;
    SmallTens();
    DayColumns(d.day);
    DayColumns(d.month);
    ZeroPaddedColumns(d.day, 2);
    ZeroPaddedColumns(d.month, 2);
    ZeroPaddedColumns(d.year, 4);
    YearColumns(d.year);
  }

  /** The directives that print the time of day. */
  lemma PrintedTimes(m: Moment)
    requires IsMoment(m)
    ensures var t := m.time;
            Printed('H', m) == Columns(t.hour, 2) && Printed('h', m) == Columns(ClockHour(t.hour), 2) &&
            Printed('a', m) == (if t.hour <= 11 then "am" else "pm") && Printed('A', m) == (if t.hour <= 11 then "AM" else "PM") &&
            Printed('M', m) == Columns(t.minute, 2) && Printed('S', m) == Columns(t.second, 2) &&
            Printed('i', m) == Columns(t.millis, 3) && Printed('c', m) == Columns(t.millis / 100, 1) &&
            Printed('F', m) == Columns(1000 * t.millis + t.micros, 6) &&
            Printed('s', m) == Columns(t.second, 2) + "." + Columns(1000 * t.millis + t.micros, 6)
  {
    hide Columns, Padded, Decimal, Calendar.DayNumber, Calendar.Weekday, WeekdayName, MonthName, Tens, ClockHour, HourAMPM;
    ClockColumns(m.time);
    FractionColumns(m.time);
  }

  lemma YearColumns(year: nat)
    ensures Padded(year % 100, 2, '0') == Columns(year, 2)
  {
    SmallTens();
    ZeroPaddedColumns(year % 100, 2);
    TwoColumns(year);
    TwoColumns(year % 100);
    LastTwo(year);
    hide Columns, Padded, Tens;
  }

  lemma LastTwo(x: nat)
    ensures x % 100 / 10 % 10 == x / 10 % 10 && x % 100 % 10 == x % 10
  {
    var q, r := x / 100, x % 100;
    assert x / 10 == 10 * q + r / 10;
  }

  lemma TwoColumns(x: nat)
    ensures Columns(x, 2) == [DigitOf(x / 10), DigitOf(x)]
  {
    assert Columns(x, 2) == Columns(x / 10, 1) + [DigitOf(x)] && Columns(x / 10, 1) == "" + [DigitOf(x / 10)];
  }

  lemma ClockColumns(t: Calendar.Daytime)
    requires Calendar.IsDaytime(t)
    ensures TwoDigits(t.hour) == Columns(t.hour, 2) && TwoDigits(HourAMPM(t.hour)) == Columns(ClockHour(t.hour), 2)
    ensures TwoDigits(t.minute) == Columns(t.minute, 2) && TwoDigits(t.second) == Columns(t.second, 2)
  {
    SmallTens();
    assert HourAMPM(t.hour) == ClockHour(t.hour);
    hide Columns, Padded, Tens, ClockHour;
    ZeroPaddedColumns(t.hour, 2);
    ZeroPaddedColumns(HourAMPM(t.hour), 2);
    ZeroPaddedColumns(t.minute, 2);
    ZeroPaddedColumns(t.second, 2);
  }

  lemma FractionColumns(t: Calendar.Daytime)
    requires Calendar.IsDaytime(t)
    ensures Padded(t.millis, 3, '0') == Columns(t.millis, 3) && Decimal(t.millis / 100) == Columns(t.millis / 100, 1)
    ensures Padded(t.millis * 1000 + t.micros, 6, '0') == Columns(1000 * t.millis + t.micros, 6)
  {
    SmallTens();
    hide Columns, Padded, Tens, Decimal;
    ZeroPaddedColumns(t.millis, 3);
    ZeroPaddedColumns(1000 * t.millis + t.micros, 6);
    DayColumns(t.millis / 100);
  }

  /** The zone: a marker for UTC, or a sign with two columns of hours and two of minutes, with a colon between them for %z. */
  lemma PrintedZones(m: Moment)
    requires IsMoment(m) && (m.tzd == UTC || -360000 < m.tzd < 360000)
    ensures m.tzd == UTC ==> Printed('z', m) == "Z" && Printed('Z', m) == "GMT"
    ensures m.tzd != UTC ==>
              var minutes: nat := (if m.tzd < 0 then -m.tzd else m.tzd) / 60;
              var sign := if m.tzd < 0 then "-" else "+";
              Printed('z', m) == sign + Columns(minutes / 60, 2) + ":" + Columns(minutes % 60, 2) &&
              Printed('Z', m) == sign + Columns(minutes / 60, 2) + Columns(minutes % 60, 2)
  {
    SmallTens();
    hide Columns, Padded, Decimal, Calendar.DayNumber, Calendar.Weekday, WeekdayName, MonthName, Tens;
    var t := Abs(m.tzd);
    HoursAndMinutes(t);
    if m.tzd != UTC {
      ZeroPaddedColumns(t / 3600, 2);
      ZeroPaddedColumns(t % 3600 / 60, 2);
    }
    assert forall s: string :: s + "" == s;
  }

  lemma HoursAndMinutes(t: nat)
    ensures t / 3600 == t / 60 / 60 && t % 3600 / 60 == t / 60 % 60
  {
    var hours, rest := t / 3600, t % 3600;
    assert t / 60 == 60 * hours + rest / 60;
  }

  predicate IsDirective(c: char) { c in "wWbBdefmnoyYHhaAMSsicFzZ" }

  /** Any other character behind a percent sign stands for itself. */
  lemma PrintedOthers(m: Moment, c: char)
    requires IsMoment(m) && !IsDirective(c)
    ensures Printed(c, m) == [c]
  {
    hide Padded, Decimal, Calendar.DayNumber, Calendar.Weekday, WeekdayName, MonthName;
  }

  // ----- formats -----

  /** Characters of the format that belong to no directive appear as they are. */
  lemma {:induction false} LiteralsAppear(text: string, fmt: string, m: Moment)
    requires IsMoment(m) && '%' !in text
    ensures Format(text + fmt, m) == text + Format(fmt, m)
    decreases |text|
  {
    if text == "" {
      assert text + fmt == fmt;
    } else {
      hide Printed;
      assert (text + fmt)[1..] == text[1..] + fmt && (text + fmt)[0] == text[0];
      LiteralsAppear(text[1..], fmt, m);
      assert text + Format(fmt, m) == [text[0]] + (text[1..] + Format(fmt, m));
    }
  }

  /** A percent sign at the end of a format prints nothing, and reads nothing. */
  lemma LonePercent(m: Moment, s: string, p: Parts)
    requires IsMoment(m) && Natural(p)
    ensures Format("%", m) == "" && ReadAll("%", s, p) == Some(p)
  {
  }

  lemma DirectiveAppears(c: char, fmt: string, m: Moment)
    requires IsMoment(m)
    ensures Format(['%', c] + fmt, m) == Printed(c, m) + Format(fmt, m)
  {
    assert (['%', c] + fmt)[2..] == fmt;
    hide Printed;
  }

  lemma Steps(w: char, text: string, fmt: string, m: Moment)
    requires IsMoment(m) && '%' !in text
    ensures Format(['%', w] + (text + fmt), m) == Printed(w, m) + (text + Format(fmt, m))
  {
    hide Format, Printed;
    DirectiveAppears(w, text + fmt, m);
    LiteralsAppear(text, fmt, m);
  }

  /** The time of day in the standard formats. */
  function Clock(m: Moment): string
    requires IsMoment(m)
  {
    Columns(m.time.hour, 2) + ":" + Columns(m.time.minute, 2) + ":" + Columns(m.time.second, 2)
  }

  lemma ClockAppears(fmt: string, m: Moment)
    requires IsMoment(m)
    ensures Format("%H:%M:%S" + fmt, m) == Clock(m) + Format(fmt, m)
  {
    PrintedTimes(m);
    ThreeDirectives('H', ":", 'M', ":", 'S', fmt);
    assert "%H:%M:%S" == ['%', 'H'] + ":" + ['%', 'M'] + ":" + ['%', 'S'];
    hide Format, Printed, Columns;
    ThreeSteps('H', ":", 'M', ":", 'S', fmt, m);
  }

  /** Three directives with something between them, in front of the rest of a format. */
  lemma ThreeSteps(a: char, s: string, b: char, t: string, c: char, fmt: string, m: Moment)
    requires IsMoment(m) && '%' !in s && '%' !in t
    ensures Format(['%', a] + (s + (['%', b] + (t + (['%', c] + fmt)))), m) ==
            Printed(a, m) + s + Printed(b, m) + t + Printed(c, m) + Format(fmt, m)
  {
    hide Format, Printed;
    var f2 := ['%', c] + fmt;
    var f1 := ['%', b] + (t + f2);
    DirectiveAppears(c, fmt, m);
    Steps(b, t, f2, m);
    Steps(a, s, f1, m);
    Grouped(Printed(a, m), s, Printed(b, m), t, Printed(c, m), Format(fmt, m));
  }

  lemma ThreeDirectives(a: char, s: string, b: char, t: string, c: char, fmt: string)
    ensures ['%', a] + s + ['%', b] + t + ['%', c] + fmt == ['%', a] + (s + (['%', b] + (t + (['%', c] + fmt))))
  {
    Grouped(['%', a], s, ['%', b], t, ['%', c], fmt);
  }

  lemma Grouped(a: string, b: string, c: string, d: string, e: string, f: string)
    ensures a + (b + (c + (d + (e + f)))) == a + b + c + d + e + f
  {
  }

  lemma NothingPrinted(m: Moment)
    requires IsMoment(m)
    ensures Format("", m) == ""
  {
  }

  /** The date in the ISO formats. */
  function IsoDate(m: Moment): string
    requires IsMoment(m)
  {
    Columns(m.date.year, 4) + "-" + Columns(m.date.month, 2) + "-" + Columns(m.date.day, 2)
  }

  lemma IsoDateAppears(fmt: string, m: Moment)
    requires IsMoment(m)
    ensures Format("%Y-%m-%d" + fmt, m) == IsoDate(m) + Format(fmt, m)
  {
    PrintedDates(m);
    ThreeDirectives('Y', "-", 'm', "-", 'd', fmt);
    assert "%Y-%m-%d" == ['%', 'Y'] + "-" + ['%', 'm'] + "-" + ['%', 'd'];
    hide Format, Printed, Columns;
    ThreeSteps('Y', "-", 'm', "-", 'd', fmt, m);
  }

  /** 2014-02-28 23:59:59, and the same with a T, a fraction and the zone. */
  lemma IsoTexts(m: Moment)
    requires IsMoment(m)
    ensures Format(SORTABLE_FORMAT, m) == IsoDate(m) + (" " + Clock(m))
    ensures Format(ISO8601_FORMAT, m) == IsoDate(m) + ("T" + (Clock(m) + Printed('z', m)))
    ensures Format(ISO8601_FRAC_FORMAT, m) ==
            IsoDate(m) + ("T" + (Clock(m) + ("." + Columns(1000 * m.time.millis + m.time.micros, 6) + Printed('z', m))))
  {
    hide Format, Printed, Columns, IsoDate, Clock;
    ClockAppears("", m);
    NothingPrinted(m);
    ClockAppears("%z", m);
    LastDirective('z', m);
    FractionAppears(m);
    DateAndMore(" ", "%H:%M:%S" + "", m);
    DateAndMore("T", "%H:%M:%S" + "%z", m);
    DateAndMore("T", "%H:%M:%s%z", m);
    assert SORTABLE_FORMAT == "%Y-%m-%d" + (" " + ("%H:%M:%S" + ""));
    assert ISO8601_FORMAT == "%Y-%m-%d" + ("T" + ("%H:%M:%S" + "%z"));
    assert ISO8601_FRAC_FORMAT == "%Y-%m-%d" + ("T" + "%H:%M:%s%z");
    assert Clock(m) + "" == Clock(m);
  }

  lemma DateAndMore(separator: string, fmt: string, m: Moment)
    requires IsMoment(m) && '%' !in separator
    ensures Format("%Y-%m-%d" + (separator + fmt), m) == IsoDate(m) + (separator + Format(fmt, m))
  {
    hide Format, IsoDate;
    IsoDateAppears(separator + fmt, m);
    LiteralsAppear(separator, fmt, m);
  }

  lemma LastDirective(c: char, m: Moment)
    requires IsMoment(m)
    ensures Format(['%', c], m) == Printed(c, m)
  {
    DirectiveAppears(c, "", m);
    NothingPrinted(m);
    assert ['%', c] + "" == ['%', c];
    hide Format, Printed;
    assert Printed(c, m) + "" == Printed(c, m);
  }

  lemma FractionAppears(m: Moment)
    requires IsMoment(m)
    ensures Format("%H:%M:%s%z", m) == Clock(m) + ("." + Columns(1000 * m.time.millis + m.time.micros, 6) + Printed('z', m))
  {
    PrintedTimes(m);
    ThreeDirectives('H', ":", 'M', ":", 's', "%z");
    assert "%H:%M:%s%z" == ['%', 'H'] + ":" + ['%', 'M'] + ":" + ['%', 's'] + "%z";
    hide Format, Printed, Columns;
    ThreeSteps('H', ":", 'M', ":", 's', "%z", m);
    LastDirective('z', m);
    SecondsLast(Columns(m.time.hour, 2) + ":" + Columns(m.time.minute, 2) + ":", Columns(m.time.second, 2),
                Columns(1000 * m.time.millis + m.time.micros, 6), Printed('z', m));
  }

  lemma SecondsLast(a: string, s: string, f: string, z: string)
    ensures a + (s + "." + f) + z == a + s + ("." + f + z)
  {
  }

  /** Weekday, comma, day, month and year, with one space or dash between them, time and zone. */
  function MailText(weekday: string, day: string, separator: string, year: string, m: Moment): string
    requires IsMoment(m)
  {
    weekday + ", " + day + separator + Printed('b', m) + separator + year + " " + Clock(m) + " " + Printed('Z', m)
  }

  lemma MailTexts(w: char, d: char, separator: char, y: char, m: Moment)
    requires IsMoment(m) && separator != '%'
    ensures Format(MailFormat(w, d, separator, y), m) == MailText(Printed(w, m), Printed(d, m), [separator], Printed(y, m), m)
  {
    MailSteps(w, d, separator, y);
    hide Format, Printed, Clock, MailFormat;
    var time := "%H:%M:%S" + " %Z";
    ClockAppears(" %Z", m);
    LiteralsAppear(" ", "%Z", m);
    LastDirective('Z', m);
    assert " %Z" == " " + "%Z";
    var f3 := ['%', y] + (" " + time);
    var f2 := ['%', 'b'] + ([separator] + f3);
    Steps(y, " ", time, m);
    Steps('b', [separator], f3, m);
    Steps(d, [separator], f2, m);
    Steps(w, ", ", ['%', d] + ([separator] + f2), m);
    Chained(Printed(w, m), Printed(d, m), [separator], Printed('b', m), Printed(y, m), Clock(m), Printed('Z', m));
  }

  lemma MailSteps(w: char, d: char, separator: char, y: char)
    ensures var time := "%H:%M:%S" + " %Z";
            MailFormat(w, d, separator, y) ==
            ['%', w] + (", " + (['%', d] + ([separator] + (['%', 'b'] + ([separator] + (['%', y] + (" " + time)))))))
  {
    assert "%H:%M:%S %Z" == "%H:%M:%S" + " %Z";
  }

  lemma Chained(w: string, d: string, s: string, b: string, y: string, c: string, z: string)
    ensures w + (", " + (d + (s + (b + (s + (y + (" " + (c + (" " + z))))))))) == w + ", " + d + s + b + s + y + " " + c + " " + z
  {
  }

  /** The five mail formats; the parts of the date are those of PrintedWeekdays, PrintedMonths and PrintedDates. */
  lemma MailFormats(m: Moment)
    requires IsMoment(m)
    ensures var d := m.date;
            var day := Columns(d.day, if d.day < 10 then 1 else 2);
            Format(HTTP_FORMAT, m) == MailText(Printed('w', m), Columns(d.day, 2), " ", Columns(d.year, 4), m) &&
            Format(RFC1123_FORMAT, m) == MailText(Printed('w', m), day, " ", Columns(d.year, 4), m) &&
            Format(RFC822_FORMAT, m) == MailText(Printed('w', m), day, " ", Columns(d.year, 2), m) &&
            Format(RFC850_FORMAT, m) == MailText(Printed('W', m), day, "-", Columns(d.year, 2), m) &&
            Format(RFC1036_FORMAT, m) == MailText(Printed('W', m), day, " ", Columns(d.year, 2), m)
  {
    PrintedDates(m);
    MailFormatTexts();
    hide *;
    MailTexts('w', 'd', ' ', 'Y', m);
    MailTexts('w', 'e', ' ', 'Y', m);
    MailTexts('w', 'e', ' ', 'y', m);
    MailTexts('W', 'e', '-', 'y', m);
    MailTexts('W', 'e', ' ', 'y', m);
  }

  function MailFormat(w: char, d: char, separator: char, y: char): string {
    ['%', w, ',', ' ', '%', d, separator, '%', 'b', separator, '%', y, ' '] + "%H:%M:%S %Z"
  }

  lemma MailFormatTexts()
    ensures HTTP_FORMAT == MailFormat('w', 'd', ' ', 'Y') && RFC1123_FORMAT == MailFormat('w', 'e', ' ', 'Y')
    ensures RFC822_FORMAT == MailFormat('w', 'e', ' ', 'y') && RFC850_FORMAT == MailFormat('W', 'e', '-', 'y')
    ensures RFC1036_FORMAT == MailFormat('W', 'e', ' ', 'y')
  {
  }

  /** Wed Jan  1 00:00:00 2014 */
  lemma AscTimeText(m: Moment)
    requires IsMoment(m)
    ensures Format(ASCTIME_FORMAT, m) ==
            Printed('w', m) + " " + Printed('b', m) + " " + Printed('f', m) + (" " + (Clock(m) + (" " + Columns(m.date.year, 4))))
  {
    PrintedDates(m);
    AscTimeFormat();
    hide *;
    var tail := "%H:%M:%S" + (" " + "%Y");
    ThreeSteps('w', " ", 'b', " ", 'f', " " + tail, m);
    LiteralsAppear(" ", tail, m);
    ClockAppears(" " + "%Y", m);
    LiteralsAppear(" ", "%Y", m);
    LastDirective('Y', m);
  }

  lemma AscTimeFormat()
    ensures ASCTIME_FORMAT == ['%', 'w'] + (" " + (['%', 'b'] + (" " + (['%', 'f'] + (" " + ("%H:%M:%S" + (" " + "%Y")))))))
  {
    assert "%H:%M:%S" + (" " + "%Y") == "%H:%M:%S %Y";
  }

  // ----- what is accepted -----

  lemma ReadsColumns(junk: string, x: nat, n: nat, after: string)
    requires NoDigits(junk) && x < Tens(n) && n > 0
    ensures ReadAfterJunk(junk + Columns(x, n) + after, 0, n) == (x, after)
  {
    ZeroPaddedColumns(x, n);
    DecimalIsShort(x, n);
    ReadsPadded(junk, x, n, '0', after, n);
  }

  /** Any year, month and day, in columns with dashes between them, are accepted if and only if they are a date, zero standing for
      one; they are what is read. */
  lemma DateTexts(year: nat, month: nat, day: nat)
    requires year < 10000 && month < 100 && day < 100
    ensures var p := Parts(year, if month == 0 then 1 else month, if day == 0 then 1 else day, 0, 0, 0, 0, 0, 0);
            Parse("%Y-%m-%d", Columns(year, 4) + "-" + Columns(month, 2) + "-" + Columns(day, 2)) ==
            if FieldsInRange(p) then Some(p) else None
  {
    var y, m, d := Columns(year, 4), Columns(month, 2), Columns(day, 2);
    SmallTens();
    RangeIsChecked("%Y-%m-%d", y + "-" + m + "-" + d);
    hide *;
    DatePieces(y, m, d);
    ReadsColumns("", year, 4, "-" + m + ("-" + d + ""));
    ReadsColumns("-", month, 2, "-" + d + "");
    ReadsColumns("-", day, 2, "");
    DateSteps(y + "-" + m + "-" + d, "-" + m + ("-" + d + ""), "-" + d + "", year, month, day);
  }

  lemma DatePieces(y: string, m: string, d: string)
    ensures y + "-" + m + "-" + d == "" + y + ("-" + m + ("-" + d + "")) && y + "-" + m + "-" + d != ""
    ensures "-" + m + ("-" + d + "") != "" && "-" + d + "" != ""
    ensures NoDigits("") && NoDigits("-")
  {
  }

  lemma DateSteps(s: string, t: string, u: string, year: nat, month: nat, day: nat)
    requires s != "" && t != "" && u != ""
    requires ReadAfterJunk(s, 0, 4) == (year, t) && ReadAfterJunk(t, 0, 2) == (month, u) && ReadAfterJunk(u, 0, 2) == (day, "")
    ensures ReadAll("%Y-%m-%d", s, NOTHING) == Some(Parts(year, month, day, 0, 0, 0, 0, 0, 0))
  {
    hide ReadAfterJunk, ReadMonth, ReadHalfDay, ReadZone;
    var f0, f1, f2, f3, f4 := "%Y-%m-%d", "-%m-%d", "%m-%d", "-%d", "%d";
    assert f0[2..] == f1 && f1[1..] == f2 && f2[2..] == f3 && f3[1..] == f4 && f4[2..] == "";
    var p1 := NOTHING.(year := year);
    var p2 := p1.(month := month);
    assert Read('Y', s, NOTHING) == Some((p1, t)) && Read('m', t, p1) == Some((p2, u));
    assert Read('d', u, p2) == Some((p2.(day := day), ""));
    hide Read;
    assert ReadAll(f4, u, p2) == Some(p2.(day := day));
    assert ReadAll(f2, t, p1) == ReadAll(f3, u, p2) == ReadAll(f4, u, p2);
    assert ReadAll(f0, s, NOTHING) == ReadAll(f1, t, p1) == ReadAll(f2, t, p1);
  }
}
