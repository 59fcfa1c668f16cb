/** Date and time as text: what the formatter prints (Foundation/src/DateTimeFormatter.cpp, DateTimeFormat.cpp) and what the parser
    makes of a text (Foundation/src/DateTimeParser.cpp), both driven by a format string. */
module DateTimeText {
  import opened Wrappers
  import opened Ascii
  import opened Digits
  import Calendar

  /** A date and time with the time zone differential to print, in seconds. */
  datatype Moment = Moment(date: Calendar.Date, time: Calendar.Daytime, tzd: int)

  predicate IsMoment(m: Moment) {
    Calendar.IsDate(m.date) && 0 <= m.date.year <= 9999 && Calendar.IsDaytime(m.time)
  }

  /** The differential that stands for UTC. */
  const UTC := 0xFFFF

  const WEEKDAY_NAMES := ["Sunday", "Monday", "Tuesday", "Wednesday", "Thursday", "Friday", "Saturday"]

  const MONTH_NAMES := ["January", "February", "March", "April", "May", "June", "July", "August", "September", "October",
                        "November", "December"]

  const ISO8601_FORMAT := "%Y-%m-%dT%H:%M:%S%z"
  const ISO8601_FRAC_FORMAT := "%Y-%m-%dT%H:%M:%s%z"
  const RFC822_FORMAT := "%w, %e %b %y %H:%M:%S %Z"
  const RFC1123_FORMAT := "%w, %e %b %Y %H:%M:%S %Z"
  const HTTP_FORMAT := "%w, %d %b %Y %H:%M:%S %Z"
  const RFC850_FORMAT := "%W, %e-%b-%y %H:%M:%S %Z"
  const RFC1036_FORMAT := "%W, %e %b %y %H:%M:%S %Z"
  const ASCTIME_FORMAT := "%w %b %f %H:%M:%S %Y"
  const SORTABLE_FORMAT := "%Y-%m-%d %H:%M:%S"

  // ----- printing -----

  function WeekdayName(m: Moment): (name: string)
    requires IsMoment(m)
    ensures |name| >= 3
  {
    WEEKDAY_NAMES[Calendar.Weekday(Calendar.DayNumber(m.date))]
  }

  /** The names follow each other with the dates, and 1 January 2000 was a Saturday. */
  lemma WeekdayNamesFollow(m: Moment, next: Moment, i: nat)
    requires IsMoment(m) && IsMoment(next) && next.date == Calendar.NextDay(m.date)
    requires i < 7 && WeekdayName(m) == WEEKDAY_NAMES[i]
    ensures WeekdayName(next) == WEEKDAY_NAMES[(i + 1) % 7]
    ensures m.date == Calendar.Date(2000, 1, 1) ==> WeekdayName(m) == "Saturday"
  {
    Calendar.WeekdaysGoRound(m.date);
    hide Calendar.DayNumber, Calendar.NextDay;
    NamesDiffer(i, Calendar.Weekday(Calendar.DayNumber(m.date)));
  }

  lemma NamesDiffer(i: nat, j: nat)
    requires i < 7 && j < 7 && WEEKDAY_NAMES[i] == WEEKDAY_NAMES[j]
    ensures i == j
  {
    var a, b := WEEKDAY_NAMES[i], WEEKDAY_NAMES[j];
    assert a[0] == b[0] && a[1] == b[1];
  }

  function MonthName(month: int): (name: string)
    requires 1 <= month <= 12
    ensures |name| >= 3
  {
    MONTH_NAMES[month - 1]
  }

  function HourAMPM(hour: int): int {
    if hour < 1 then 12 else if hour > 12 then hour - 12 else hour
  }

  function TwoDigits(x: int): string
    requires x >= 0
  {
    Padded(x, 2, '0')
  }

  function Abs(x: int): nat { if x < 0 then -x else x }

  function ZoneDigits(tzd: int, separator: string): string {
    var t := Abs(tzd);
    [if tzd >= 0 then '+' else '-'] + TwoDigits(t / 3600) + separator + TwoDigits(t % 3600 / 60)
  }

  /** What a directive prints; a character that is no directive stands for itself. */
  function Printed(c: char, m: Moment): string
    requires IsMoment(m)
  {
    var d, t := m.date, m.time;
    match c
    case 'w' => WeekdayName(m)[..3]
    case 'W' => WeekdayName(m)
    case 'b' => MonthName(d.month)[..3]
    case 'B' => MonthName(d.month)
    case 'd' => TwoDigits(d.day)
    case 'e' => Decimal(d.day)
    case 'f' => Padded(d.day, 2, ' ')
    case 'm' => TwoDigits(d.month)
    case 'n' => Decimal(d.month)
    case 'o' => Padded(d.month, 2, ' ')
    case 'y' => TwoDigits(d.year % 100)
    case 'Y' => Padded(d.year, 4, '0')
    case 'H' => TwoDigits(t.hour)
    case 'h' => TwoDigits(HourAMPM(t.hour))
    case 'a' => if t.hour < 12 then "am" else "pm"
    case 'A' => if t.hour < 12 then "AM" else "PM"
    case 'M' => TwoDigits(t.minute)
    case 'S' => TwoDigits(t.second)
    case 's' => TwoDigits(t.second) + "." + Padded(t.millis * 1000 + t.micros, 6, '0')
    case 'i' => Padded(t.millis, 3, '0')
    case 'c' => Decimal(t.millis / 100)
    case 'F' => Padded(t.millis * 1000 + t.micros, 6, '0')
    case 'z' => if m.tzd == UTC then "Z" else ZoneDigits(m.tzd, ":")
    case 'Z' => if m.tzd == UTC then "GMT" else ZoneDigits(m.tzd, "")
    case _ => [c]
  }

  function Format(fmt: string, m: Moment): string
    requires IsMoment(m)
  {
    if fmt == "" then ""
    else if fmt[0] != '%' then [fmt[0]] + Format(fmt[1..], m)
    else if |fmt| == 1 then ""
    else Printed(fmt[1], m) + Format(fmt[2..], m)
  }

  /** The formatter's loop. */
  method Append(str: string, m: Moment, fmt: string) returns (result: string)
    requires IsMoment(m)
    ensures result == str + Format(fmt, m)
  {
    result := str;
    var it := fmt;
    while it != ""
      invariant result + Format(it, m) == str + Format(fmt, m)
      decreases |it|
    {
      FormatStep(result, it, m);
      if it[0] == '%' {
        it := it[1..];
        if it != "" {
          result := result + Printed(it[0], m);
          it := it[1..];
        }
      } else {
        result := result + [it[0]];
        it := it[1..];
      }
    }
  }

  lemma FormatStep(str: string, fmt: string, m: Moment)
    requires IsMoment(m) && fmt != ""
    ensures str + Format(fmt, m) ==
            if fmt[0] != '%' then str + [fmt[0]] + Format(fmt[1..], m)
            else if fmt[1..] == "" then str + Format(fmt[1..], m)
            else str + Printed(fmt[1..][0], m) + Format(fmt[1..][1..], m)
  {
    hide Printed;
    if fmt[0] == '%' && |fmt| > 1 { assert fmt[1..][1..] == fmt[2..]; }
  }

  // ----- reading -----

  datatype Parts = Parts(year: int, month: int, day: int, hour: int, minute: int, second: int, millis: int, micros: int, tzd: int)

  const NOTHING := Parts(0, 0, 0, 0, 0, 0, 0, 0, 0)

  predicate SpaceOrPunct(c: char) { IsSpace(c) || IsPunct(c) }

  function ToUpper(c: char): char {
    if 'a' <= c <= 'z' then c - 32 as char else c
  }

  function ToLower(c: char): char {
    if 'A' <= c <= 'Z' then c + 32 as char else c
  }

  function Upper(s: string): string {
    if s == "" then "" else [ToUpper(s[0])] + Upper(s[1..])
  }

  function Lower(s: string): string {
    if s == "" then "" else [ToLower(s[0])] + Lower(s[1..])
  }

  function Capitalized(s: string): string {
    if s == "" then "" else [ToUpper(s[0])] + Lower(s[1..])
  }

  /** The first month from i on whose name starts with the given text. */
  function FindMonth(name: string, i: nat): Option<int>
    requires i <= 12
    decreases 12 - i
  {
    if i == 12 then None
    else if name <= MONTH_NAMES[i] then Some(i + 1)
    else FindMonth(name, i + 1)
  }

  function ReadMonth(s: string): Option<(int, string)> {
    var t := Drop(s, SpaceOrPunct);
    var k := Span(t, IsAlpha);
    if k < 3 then None
    else
      match FindMonth(Capitalized(t[..k]), 0)
      case None => None
      case Some(month) => Some((month, t[k..]))
  }

  function ReadHalfDay(s: string, hour: int): Option<(int, string)> {
    var t := Drop(s, SpaceOrPunct);
    var k := Span(t, IsAlpha);
    var ampm := Upper(t[..k]);
    if ampm == "AM" then Some((if hour == 12 then 0 else hour, t[k..]))
    else if ampm == "PM" then Some((if hour < 12 then hour + 12 else hour, t[k..]))
    else None
  }

  const ZONES: map<string, int> := map[
    "Z" := 0, "UT" := 0, "GMT" := 0, "BST" := 3600, "IST" := 3600, "WET" := 0, "WEST" := 3600, "CET" := 3600, "CEST" := 7200,
    "EET" := 7200, "EEST" := 10800, "MSK" := 10800, "MSD" := 14400, "NST" := -12600, "NDT" := -9000, "AST" := -14400,
    "ADT" := -10800, "EST" := -18000, "EDT" := -14400, "CST" := -21600, "CDT" := -18000, "MST" := -25200, "MDT" := -21600,
    "PST" := -28800, "PDT" := -25200, "AKST" := -32400, "AKDT" := -28800, "HST" := -36000, "AEST" := 36000, "AEDT" := 39600,
    "ACST" := 34200, "ACDT" := 37800, "AWST" := 28800, "AWDT" := 32400]

  function ReadDesignator(s: string): (int, string) {
    var k := Min(4, Span(s, IsAlpha));
    (if s[..k] in ZONES then ZONES[s[..k]] else 0, s[k..])
  }

  predicate IsSign(c: char) { c == '+' || c == '-' }

  function ReadOffset(s: string): (int, string) {
    if !Starts(s, IsSign) then (0, s)
    else
      var (hours, t) := ReadNumber(s[1..], 0, 2);
      var (minutes, u) := ReadNumber(if StartsWith(t, ':') then t[1..] else t, 0, 2);
      ((if s[0] == '+' then 1 else -1) * (hours * 3600 + minutes * 60), u)
  }

  function ReadZone(s: string): (int, string) {
    var (tzd, t) := ReadDesignator(Drop(s, IsSpace));
    var (offset, u) := ReadOffset(t);
    (tzd + offset, u)
  }

  /** A number after any junk. */
  function ReadAfterJunk(s: string, v: int, n: nat): (int, string)
    requires v >= 0
  {
    ReadNumber(Drop(s, NotDigit), v, n)
  }

  function ReadSubSeconds(s: string, p: Parts): (Parts, string)
    requires p.millis >= 0 && p.micros >= 0
  {
    var (millis, t) := ReadFraction(s, p.millis, 3);
    var (micros, u) := ReadFraction(t, p.micros, 3);
    (p.(millis := millis, micros := micros), Drop(u, IsDigit))
  }

  /** The century of a two-digit year. */
  function FullYear(year: int): int {
    if year >= 69 then year + 1900 else year + 2000
  }

  predicate Natural(p: Parts) {
    p.year >= 0 && p.month >= 0 && p.day >= 0 && p.hour >= 0 && p.minute >= 0 && p.second >= 0 && p.millis >= 0 && p.micros >= 0
  }

  function ReadYear(s: string, v: int, c: char): (r: (int, string))
    requires v >= 0
    ensures r.0 >= 0
  {
    if c == 'Y' then ReadAfterJunk(s, v, 4)
    else
      var (year, t) := ReadAfterJunk(s, v, if c == 'y' then 2 else |s|);
      (if c == 'y' || year < 1000 then FullYear(year) else year, t)
  }

  function ReadSecond(s: string, p: Parts, c: char): (r: (Parts, string))
    requires Natural(p)
    ensures Natural(r.0)
  {
    var (second, t) := ReadAfterJunk(s, p.second, 2);
    var q := p.(second := second);
    if c == 's' && (StartsWith(t, '.') || StartsWith(t, ',')) then ReadSubSeconds(t[1..], q) else (q, t)
  }

  /** What a directive reads from the front of a text, given what has been read so far; None where the parser throws. */
  function Read(c: char, s: string, p: Parts): (r: Option<(Parts, string)>)
    requires Natural(p)
    ensures r.Some? ==> Natural(r.value.0)
  {
    match c
    case 'w' => Some((p, Drop(Drop(s, IsSpace), IsAlpha)))
    case 'W' => Some((p, Drop(Drop(s, IsSpace), IsAlpha)))
    case 'b' => (match ReadMonth(s) case None => None case Some(r) => Some((p.(month := r.0), r.1)))
    case 'B' => (match ReadMonth(s) case None => None case Some(r) => Some((p.(month := r.0), r.1)))
    case 'a' => (match ReadHalfDay(s, p.hour) case None => None case Some(r) => Some((p.(hour := r.0), r.1)))
    case 'A' => (match ReadHalfDay(s, p.hour) case None => None case Some(r) => Some((p.(hour := r.0), r.1)))
    case 'z' => var (tzd, t) := ReadZone(s); Some((p.(tzd := tzd), t))
    case 'Z' => var (tzd, t) := ReadZone(s); Some((p.(tzd := tzd), t))
    case _ => Some(ReadDigits(c, s, p))
  }

  function ReadDigits(c: char, s: string, p: Parts): (r: (Parts, string))
    requires Natural(p)
    ensures Natural(r.0)
  {
    if c == 'd' || c == 'e' || c == 'f' then var (day, t) := ReadAfterJunk(s, p.day, 2); (p.(day := day), t)
    else if c == 'm' || c == 'n' || c == 'o' then var (month, t) := ReadAfterJunk(s, p.month, 2); (p.(month := month), t)
    else if c == 'y' || c == 'Y' || c == 'r' then var (year, t) := ReadYear(s, p.year, c); (p.(year := year), t)
    else if c == 'H' || c == 'h' then var (hour, t) := ReadAfterJunk(s, p.hour, 2); (p.(hour := hour), t)
    else if c == 'M' then var (minute, t) := ReadAfterJunk(s, p.minute, 2); (p.(minute := minute), t)
    else if c == 'S' || c == 's' then ReadSecond(s, p, c)
    else if c == 'i' then var (millis, t) := ReadAfterJunk(s, p.millis, 3); (p.(millis := millis), t)
    else if c == 'c' then var (millis, t) := ReadAfterJunk(s, p.millis, 1); (p.(millis := millis * 100), t)
    else if c == 'F' then ReadSubSeconds(Drop(s, NotDigit), p)
    else (p, s)
  }

  /** The parser's walk over format and text; literal characters of the format are not compared with the text. */
  function ReadAll(fmt: string, s: string, p: Parts): Option<Parts>
    requires Natural(p)
    decreases |fmt|
  {
    if fmt == "" || s == "" then Some(p)
    else if fmt[0] != '%' then ReadAll(fmt[1..], s, p)
    else if |fmt| == 1 then Some(p)
    else
      match Read(fmt[1], s, p)
      case None => None
      case Some((q, t)) => ReadAll(fmt[2..], t, q)
  }

  predicate InRange(p: Parts) {
    Calendar.IsDate(Calendar.Date(p.year, p.month, p.day)) && 0 <= p.year <= 9999 &&
    Calendar.IsDaytime(Calendar.Daytime(p.hour, p.minute, p.second, p.millis, p.micros))
  }

  function Defaults(p: Parts): Parts {
    p.(month := if p.month == 0 then 1 else p.month, day := if p.day == 0 then 1 else p.day)
  }

  /** parse; None where it throws. */
  function Parse(fmt: string, s: string): Option<Parts> {
    if fmt == "" || s == "" then None
    else
      match ReadAll(fmt, s, NOTHING)
      case None => None
      case Some(p) => if InRange(Defaults(p)) then Some(Defaults(p)) else None
  }

  /** The ranges of DateTime::isValid, field by field. */
  predicate FieldsInRange(p: Parts) {
    0 <= p.year <= 9999 && 1 <= p.month <= 12 && 1 <= p.day <= 31
    && (p.month in {4, 6, 9, 11} ==> p.day <= 30)
    && (p.month == 2 ==> p.day <= 29 && (p.year % 4 != 0 || (p.year % 100 == 0 && p.year % 400 != 0) ==> p.day <= 28))
    && 0 <= p.hour <= 23 && 0 <= p.minute <= 59 && 0 <= p.second <= 59 && 0 <= p.millis <= 999 && 0 <= p.micros <= 999
  }

  /** What can be printed is what can be accepted. */
  lemma MomentsAreInRange(m: Moment)
    ensures IsMoment(m) <==>
            FieldsInRange(Parts(m.date.year, m.date.month, m.date.day, m.time.hour, m.time.minute, m.time.second, m.time.millis,
                                m.time.micros, m.tzd))
  {
  }

  /** A text is accepted exactly when its fields can be read and, with 1 for a missing month or day, are in range. */
  lemma RangeIsChecked(fmt: string, s: string)
    ensures Parse(fmt, s).Some? ==> FieldsInRange(Parse(fmt, s).value)
    ensures fmt != "" && s != "" && ReadAll(fmt, s, NOTHING).Some? ==>
              var p := ReadAll(fmt, s, NOTHING).value;
              var q := p.(month := if p.month == 0 then 1 else p.month, day := if p.day == 0 then 1 else p.day);
              Parse(fmt, s) == if FieldsInRange(q) then Some(q) else None
    ensures fmt == "" || s == "" || ReadAll(fmt, s, NOTHING) == None ==> Parse(fmt, s) == None
  {
    hide ReadAll;
  }
}
