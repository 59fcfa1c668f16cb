/** For which formats reading undoes printing. */
module DateTimeRoundTrip {
  import opened Ascii
  import opened Digits
  import opened DateTimeText
  import opened Wrappers
  import Calendar

  // ----- formats that can be read back -----

  /** What may stand between the reading position and the next printed piece. */
  datatype Junk = Junk(digit: bool, letter: bool, punct: bool, odd: bool)

  const CLEAN := Junk(false, false, false, false)

  function With(j: Junk, c: char): Junk {
    if IsDigit(c) then j.(digit := true)
    else if IsAlpha(c) then j.(letter := true)
    else if IsSpace(c) then j
    else if IsPunct(c) then j.(punct := true)
    else j.(odd := true)
  }

  ghost predicate Describes(j: Junk, s: string) {
    forall c :: c in s ==> With(j, c) == j
  }

  datatype Component = Year | Month | Day | Hour | HalfDay | Minute | Second | Millis | Micros | Zone

  function Components(c: char): set<Component> {
    if c == 'y' || c == 'Y' then {Year}
    else if c == 'b' || c == 'B' || c == 'm' || c == 'n' || c == 'o' then {Month}
    else if c == 'd' || c == 'e' || c == 'f' then {Day}
    else if c == 'H' || c == 'h' then {Hour}
    else if c == 'a' || c == 'A' then {HalfDay}
    else if c == 'M' then {Minute}
    else if c == 'S' then {Second}
    else if c == 's' then {Second, Millis, Micros}
    else if c == 'i' || c == 'c' then {Millis}
    else if c == 'F' then {Millis, Micros}
    else if c == 'z' || c == 'Z' then {Zone}
    else {}
  }

  predicate IsWeekday(c: char) { c == 'w' || c == 'W' }

  predicate IsMonthName(c: char) { c == 'b' || c == 'B' }

  predicate IsHalfDay(c: char) { c == 'a' || c == 'A' }

  predicate IsZone(c: char) { c == 'z' || c == 'Z' }

  predicate IsDirective(c: char) { IsWeekday(c) || Components(c) != {} }

  predicate IsNumber(c: char) { IsDirective(c) && !IsWeekday(c) && !IsMonthName(c) && !IsHalfDay(c) && !IsZone(c) }

  /** Numbers that always print as many digits as are read. */
  predicate IsFixed(c: char) {
    c == 'd' || c == 'm' || c == 'y' || c == 'Y' || c == 'H' || c == 'h' || c == 'M' || c == 'S' || c == 'i' || c == 'c'
  }

  /** What a format may print first. */
  predicate MayStart(fmt: string, p: char -> bool, directive: char -> bool) {
    fmt != "" &&
    if fmt[0] != '%' then p(fmt[0]) else |fmt| > 1 && if IsDirective(fmt[1]) then directive(fmt[1]) else p(fmt[1])
  }

  predicate PrintsLetter(c: char) { IsWeekday(c) || IsMonthName(c) || IsHalfDay(c) || IsZone(c) }

  predicate StartsDigit(fmt: string) { MayStart(fmt, IsDigit, IsNumber) }

  predicate StartsLetter(fmt: string) { MayStart(fmt, IsAlpha, PrintsLetter) }

  predicate StartsSign(fmt: string) { MayStart(fmt, IsSign, IsZone) }

  /** The format behind its leading literal letters. */
  function AfterLetters(fmt: string): (r: string)
    ensures |r| <= |fmt|
  {
    if fmt != "" && IsAlpha(fmt[0]) then AfterLetters(fmt[1..]) else fmt
  }

  /** Formats whose text can be read back: no component twice, the half of the day after the hour, and around each directive nothing
      that its reading would confuse with it. */
  predicate Readable(fmt: string, j: Junk, used: set<Component>)
    decreases |fmt|
  {
    if fmt == "" then true
    else if fmt[0] != '%' then Readable(fmt[1..], With(j, fmt[0]), used)
    else if |fmt| == 1 then true
    else
      var c, rest := fmt[1], fmt[2..];
      if !IsDirective(c) then c != 'r' && Readable(rest, With(j, c), used)
      else if IsWeekday(c) then
        var next := AfterLetters(rest);
        !StartsLetter(next) && Readable(next, if j == CLEAN then j else j.(letter := true), used)
      else
        Components(c) !! used && (Hour in Components(c) ==> HalfDay !in used) && Fits(c, j, rest) &&
        Readable(rest, CLEAN, used + Components(c))
  }

  predicate Fits(c: char, j: Junk, rest: string) {
    if IsZone(c) then j == CLEAN && !StartsLetter(rest) && !StartsSign(rest)
    else if IsMonthName(c) || IsHalfDay(c) then !j.digit && !j.letter && !j.odd && !StartsLetter(rest)
    else !j.digit && (IsFixed(c) || !StartsDigit(rest))
  }

  // ----- what is read -----

  /** A two-digit year is taken for one of 1969 to 2068. */
  function YearOfTwoDigits(year: int): int {
    FullYear(year % 100)
  }

  /** Zones are printed to the minute. */
  function ZoneToMinute(tzd: int): int {
    if tzd == UTC then 0
    else (if tzd >= 0 then 1 else -1) * (Abs(tzd) / 60 * 60)
  }

  function HourOf(hour: int, isAM: bool): int {
    if isAM then (if hour == 12 then 0 else hour) else if hour < 12 then hour + 12 else hour
  }

  /** The fields after a directive has been read. */
  function Noted(c: char, m: Moment, p: Parts): Parts {
    var d, t := m.date, m.time;
    Parts(
      if c == 'y' then YearOfTwoDigits(d.year) else if c == 'Y' then d.year else p.year,
      if IsMonthName(c) || c == 'm' || c == 'n' || c == 'o' then d.month else p.month,
      if c == 'd' || c == 'e' || c == 'f' then d.day else p.day,
      if c == 'H' then t.hour else if c == 'h' then HourAMPM(t.hour)
      else if IsHalfDay(c) then HourOf(p.hour, t.hour < 12) else p.hour,
      if c == 'M' then t.minute else p.minute,
      if c == 'S' || c == 's' then t.second else p.second,
      if c == 's' || c == 'i' || c == 'F' then t.millis else if c == 'c' then t.millis / 100 * 100 else p.millis,
      if c == 's' || c == 'F' then t.micros else p.micros,
      if IsZone(c) then ZoneToMinute(m.tzd) else p.tzd)
  }

  /** The components a format prints, over those in p. */
  function NotedAll(fmt: string, m: Moment, p: Parts): Parts
    decreases |fmt|
  {
    if fmt == "" then p
    else if fmt[0] != '%' then NotedAll(fmt[1..], m, p)
    else if |fmt| == 1 then p
    else NotedAll(fmt[2..], m, Noted(fmt[1], m, p))
  }

  /** Zones of less than a hundred hours, as two digits can say. */
  predicate InZone(m: Moment) { m.tzd == UTC || Abs(m.tzd) < 360000 }

  /** Components not used yet are still zero. */
  predicate Unread(p: Parts, used: set<Component>) {
    (Year !in used ==> p.year == 0) && (Month !in used ==> p.month == 0) && (Day !in used ==> p.day == 0) &&
    (Hour !in used && HalfDay !in used ==> p.hour == 0) && (Minute !in used ==> p.minute == 0) &&
    (Second !in used ==> p.second == 0) && (Millis !in used ==> p.millis == 0) && (Micros !in used ==> p.micros == 0)
  }

  // ----- numbers -----

  lemma CleanOfDigits(j: Junk, s: string)
    requires Describes(j, s) && !j.digit
    ensures NoDigits(s)
  {
    forall i | 0 <= i < |s| ensures !IsDigit(s[i]) { assert s[i] in s; }
  }

  lemma ReadsTwo(junk: string, x: nat, after: string)
    requires NoDigits(junk) && x < 100
    ensures ReadAfterJunk(junk + TwoDigits(x) + after, 0, 2) == (x, after)
  {
    DecimalLength(x);
    ReadsPadded(junk, x, 2, '0', after, 2);
  }

  lemma ReadsLoose(junk: string, x: nat, fill: char, width: nat, after: string)
    requires NoDigits(junk) && x < 100 && !Starts(after, IsDigit) && (fill == '0' || fill == ' ') && width <= 2
    ensures ReadAfterJunk(junk + Padded(x, width, fill) + after, 0, 2) == (x, after)
  {
    DecimalLength(x);
    ReadsPadded(junk, x, width, fill, after, 2);
  }

  lemma ReadsDate(c: char, m: Moment, junk: string, after: string, p: Parts)
    requires IsMoment(m) && Natural(p) && NoDigits(junk)
    requires c == 'd' || c == 'e' || c == 'f' || c == 'm' || c == 'n' || c == 'o' || c == 'y' || c == 'Y'
    requires IsFixed(c) || !Starts(after, IsDigit)
    requires Month in Components(c) ==> p.month == 0
    requires Day in Components(c) ==> p.day == 0
    requires Year in Components(c) ==> p.year == 0
    ensures Read(c, junk + Printed(c, m) + after, p) == Some((Noted(c, m, p), after))
  {
    hide ReadNumber, Drop, Padded, Decimal, Calendar.DayNumber, WeekdayName;
    var d := m.date;
    if c == 'd' { ReadsTwo(junk, d.day, after); }
    else if c == 'e' { DecimalIsPadded(d.day); ReadsLoose(junk, d.day, '0', 1, after); }
    else if c == 'f' { ReadsLoose(junk, d.day, ' ', 2, after); }
    else if c == 'm' { ReadsTwo(junk, d.month, after); }
    else if c == 'n' { DecimalIsPadded(d.month); ReadsLoose(junk, d.month, '0', 1, after); }
    else if c == 'o' { ReadsLoose(junk, d.month, ' ', 2, after); }
    else if c == 'y' { ReadsTwo(junk, d.year % 100, after); }
    else { DecimalLength(d.year); ReadsPadded(junk, d.year, 4, '0', after, 4); }
  }

  lemma DecimalIsPadded(x: nat)
    ensures Decimal(x) == Padded(x, 1, '0')
  {
  }

  lemma ReadsTime(c: char, m: Moment, junk: string, after: string, p: Parts)
    requires IsMoment(m) && Natural(p) && NoDigits(junk)
    requires c == 'H' || c == 'h' || c == 'M' || c == 'S' || c == 'i' || c == 'c'
    requires Hour in Components(c) ==> p.hour == 0
    requires Minute in Components(c) ==> p.minute == 0
    requires Second in Components(c) ==> p.second == 0
    requires Millis in Components(c) ==> p.millis == 0
    ensures Read(c, junk + Printed(c, m) + after, p) == Some((Noted(c, m, p), after))
  {
    hide ReadNumber, Drop, Padded, Decimal, Calendar.DayNumber, WeekdayName;
    var t := m.time;
    if c == 'H' { ReadsTwo(junk, t.hour, after); }
    else if c == 'h' { ReadsTwo(junk, HourAMPM(t.hour), after); }
    else if c == 'M' { ReadsTwo(junk, t.minute, after); }
    else if c == 'S' { ReadsTwo(junk, t.second, after); }
    else if c == 'i' { DecimalLength(t.millis); ReadsPadded(junk, t.millis, 3, '0', after, 3); }
    else {
      DecimalIsPadded(t.millis / 100);
      DecimalLength(t.millis / 100);
      ReadsPadded(junk, t.millis / 100, 1, '0', after, 1);
    }
  }

  lemma ReadsMicros(m: Moment, after: string, p: Parts)
    requires IsMoment(m) && p.millis == 0 && p.micros == 0 && !Starts(after, IsDigit)
    ensures ReadSubSeconds(Padded(m.time.millis * 1000 + m.time.micros, 6, '0') + after, p)
            == (p.(millis := m.time.millis, micros := m.time.micros), after)
  {
    hide ReadFraction, Padded;
    ReadsFraction(m.time.millis, m.time.micros, after);
    SpanAll("", after, IsDigit);
    assert "" + after == after;
  }

  lemma ReadsFractional(c: char, m: Moment, junk: string, after: string, p: Parts)
    requires IsMoment(m) && Natural(p) && NoDigits(junk) && (c == 's' || c == 'F') && !Starts(after, IsDigit)
    requires p.millis == 0 && p.micros == 0 && (c == 's' ==> p.second == 0)
    ensures Read(c, junk + Printed(c, m) + after, p) == Some((Noted(c, m, p), after))
  {
    hide ReadNumber, ReadSubSeconds, Drop, Padded, Decimal, Calendar.DayNumber, WeekdayName;
    var fraction := Padded(m.time.millis * 1000 + m.time.micros, 6, '0');
    ReadsMicros(m, after, if c == 's' then p.(second := m.time.second) else p);
    if c == 'F' {
      DecimalLength(m.time.millis * 1000 + m.time.micros);
      ZeroPadded(m.time.millis * 1000 + m.time.micros, 6);
      SkipsJunk(junk, fraction, after);
    } else {
      var rest := "." + fraction + after;
      assert junk + Printed(c, m) + after == junk + TwoDigits(m.time.second) + rest;
      ReadsTwo(junk, m.time.second, rest);
      assert rest[1..] == fraction + after;
    }
  }

  // ----- names -----

  predicate AllLetters(s: string) { forall i :: 0 <= i < |s| ==> IsAlpha(s[i]) }

  lemma CleanOfInk(j: Junk, s: string)
    requires Describes(j, s) && !j.digit && !j.letter && !j.odd
    ensures forall i :: 0 <= i < |s| ==> SpaceOrPunct(s[i])
  {
    forall i | 0 <= i < |s| ensures SpaceOrPunct(s[i]) { assert s[i] in s; }
  }

  lemma CleanOfAll(s: string)
    requires Describes(CLEAN, s)
    ensures forall i :: 0 <= i < |s| ==> IsSpace(s[i])
  {
    forall i | 0 <= i < |s| ensures IsSpace(s[i]) { assert s[i] in s; }
  }

  /** A word behind junk of another kind is found whole. */
  lemma FindsWord(junk: string, word: string, after: string, p: char -> bool)
    requires (forall i :: 0 <= i < |junk| ==> p(junk[i])) && word != "" && AllLetters(word) && !p(word[0]) && !Starts(after, IsAlpha)
    ensures var t := Drop(junk + word + after, p);
            t == word + after && Span(t, IsAlpha) == |word| && t[..|word|] == word && t[|word|..] == after
  {
    assert junk + word + after == junk + (word + after);
    SpanAll(junk, word + after, p);
    SpanAll(word, after, IsAlpha);
  }

  predicate IsName(s: string) {
    s != "" && 'A' <= s[0] <= 'Z' && forall i :: 1 <= i < |s| ==> 'a' <= s[i] <= 'z'
  }

  lemma {:induction false} LowerKeeps(s: string)
    requires forall i :: 0 <= i < |s| ==> 'a' <= s[i] <= 'z'
    ensures Lower(s) == s
  {
    if s != "" { LowerKeeps(s[1..]); }
  }

  lemma NameKeeps(s: string)
    requires IsName(s)
    ensures Capitalized(s) == s && AllLetters(s)
  {
    LowerKeeps(s[1..]);
  }

  lemma MonthNamesAreNames(month: int)
    requires 1 <= month <= 12
    ensures IsName(MonthName(month)) && IsName(MonthName(month)[..3])
  {
  }

  lemma WeekdayNamesAreNames(m: Moment)
    requires IsMoment(m)
    ensures IsName(WeekdayName(m))
  {
  }

  /** The first three letters tell the months apart. */
  lemma {:induction false} MonthIsFound(month: int, name: string, i: nat)
    requires 1 <= month <= 12 && i <= month - 1 && |name| >= 3 && name <= MonthName(month)
    ensures FindMonth(name, i) == Some(month)
    decreases month - i
  {
    if i < month - 1 {
      MonthsDiffer(month, i);
      assert !(name <= MONTH_NAMES[i]);
      MonthIsFound(month, name, i + 1);
    }
  }

  lemma MonthsDiffer(month: int, i: nat)
    requires 1 <= month <= 12 && i < month - 1
    ensures MONTH_NAMES[i][..3] != MonthName(month)[..3]
  {
    var a, b := MONTH_NAMES[i], MonthName(month);
    assert a[..3][0] == a[0] && a[..3][1] == a[1] && a[..3][2] == a[2];
    assert b[..3][0] == b[0] && b[..3][1] == b[1] && b[..3][2] == b[2];
    assert a[0] != b[0] || a[1] != b[1] || a[2] != b[2];
  }

  lemma ReadsMonth(month: int, name: string, junk: string, after: string)
    requires 1 <= month <= 12 && (name == MonthName(month) || name == MonthName(month)[..3])
    requires (forall i :: 0 <= i < |junk| ==> SpaceOrPunct(junk[i])) && !Starts(after, IsAlpha)
    ensures ReadMonth(junk + name + after) == Some((month, after))
  {
    hide Span, FindMonth, Capitalized, Drop;
    MonthNamesAreNames(month);
    NameKeeps(name);
    assert name <= MonthName(month);
    hide MonthName;
    FindsWord(junk, name, after, SpaceOrPunct);
    MonthIsFound(month, name, 0);
  }

  lemma ReadsHalfDay(isAM: bool, word: string, junk: string, after: string, hour: int)
    requires word == (if isAM then "am" else "pm") || word == (if isAM then "AM" else "PM")
    requires (forall i :: 0 <= i < |junk| ==> SpaceOrPunct(junk[i])) && !Starts(after, IsAlpha)
    ensures ReadHalfDay(junk + word + after, hour) == Some((HourOf(hour, isAM), after))
  {
    UpperHalf(word);
    hide Span, Upper, Drop;
    FindsWord(junk, word, after, SpaceOrPunct);
  }

  lemma UpperHalf(word: string)
    ensures word == "am" || word == "AM" ==> Upper(word) == "AM"
    ensures word == "pm" || word == "PM" ==> Upper(word) == "PM"
  {
    if |word| == 2 { assert Upper(word) == [ToUpper(word[0])] + ([ToUpper(word[1])] + Upper(word[1..][1..])); }
  }

  lemma ReadsName(c: char, m: Moment, junk: string, after: string, p: Parts)
    requires IsMoment(m) && Natural(p) && (IsMonthName(c) || IsHalfDay(c))
    requires (forall i :: 0 <= i < |junk| ==> SpaceOrPunct(junk[i])) && !Starts(after, IsAlpha)
    ensures Read(c, junk + Printed(c, m) + after, p) == Some((Noted(c, m, p), after))
  {
    hide ReadMonth, ReadHalfDay, MonthName, HourOf, Calendar.DayNumber, WeekdayName;
    if IsMonthName(c) {
      ReadsMonth(m.date.month, Printed(c, m), junk, after);
    } else {
      ReadsHalfDay(m.time.hour < 12, Printed(c, m), junk, after, p.hour);
    }
  }

  // ----- zones -----

  lemma ReadsUtc(word: string, junk: string, after: string)
    requires word == "Z" || word == "GMT"
    requires (forall i :: 0 <= i < |junk| ==> IsSpace(junk[i])) && !Starts(after, IsAlpha) && !Starts(after, IsSign)
    ensures ReadZone(junk + word + after) == (0, after)
  {
    assert AllLetters(word) && word in ZONES && ZONES[word] == 0;
    FindsWord(junk, word, after, IsSpace);
    hide Span, Drop;
    assert ReadDesignator(word + after) == (0, after);
  }

  lemma ReadsOffset(tzd: int, separator: string, after: string)
    requires tzd != UTC && Abs(tzd) < 360000 && (separator == ":" || separator == "")
    ensures ReadOffset(ZoneDigits(tzd, separator) + after) == (ZoneToMinute(tzd), after)
  {
    hide ReadNumber, Padded;
    var t := Abs(tzd);
    var s := ZoneDigits(tzd, separator) + after;
    var minutes := TwoDigits(t % 3600 / 60);
    var rest := separator + minutes + after;
    assert s[1..] == TwoDigits(t / 3600) + rest;
    TwoAtFront(t / 3600, rest);
    TwoAtFront(t % 3600 / 60, after);
    assert separator == ":" ==> rest[1..] == minutes + after;
    assert separator == "" ==> rest == minutes + after;
    HoursAndMinutes(t);
  }

  lemma TwoAtFront(x: nat, after: string)
    requires x < 100
    ensures ReadNumber(TwoDigits(x) + after, 0, 2) == (x, after) && Starts(TwoDigits(x) + after, IsDigit)
  {
    DecimalLength(x);
    ZeroPadded(x, 2);
    TakesAll(TwoDigits(x), after, 2);
  }

  lemma HoursAndMinutes(t: nat)
    ensures t / 3600 * 3600 + t % 3600 / 60 * 60 == t / 60 * 60
  {
    Sixties(t, t / 3600, t % 3600 / 60, t % 3600 % 60);
  }

  lemma Sixties(t: nat, hours: nat, minutes: nat, seconds: nat)
    requires t == 60 * (60 * hours + minutes) + seconds && seconds < 60
    ensures t / 60 == 60 * hours + minutes
  {
  }

  lemma ReadsZone(c: char, m: Moment, junk: string, after: string, p: Parts)
    requires IsMoment(m) && Natural(p) && InZone(m) && IsZone(c)
    requires (forall i :: 0 <= i < |junk| ==> IsSpace(junk[i])) && !Starts(after, IsAlpha) && !Starts(after, IsSign)
    ensures Read(c, junk + Printed(c, m) + after, p) == Some((Noted(c, m, p), after))
  {
    hide ReadZone, ZoneDigits, Calendar.DayNumber, WeekdayName;
    if m.tzd == UTC {
      ReadsUtc(Printed(c, m), junk, after);
    } else {
      ReadsNumericZone(m.tzd, if c == 'z' then ":" else "", junk, after);
    }
  }

  lemma ReadsNumericZone(tzd: int, separator: string, junk: string, after: string)
    requires tzd != UTC && Abs(tzd) < 360000 && (separator == ":" || separator == "")
    requires forall i :: 0 <= i < |junk| ==> IsSpace(junk[i])
    ensures ReadZone(junk + ZoneDigits(tzd, separator) + after) == (ZoneToMinute(tzd), after)
  {
    hide ReadOffset, ZoneDigits, ZoneToMinute, Drop, Span;
    var text := ZoneDigits(tzd, separator);
    ZoneSign(tzd, separator);
    ReadsOffset(tzd, separator, after);
    assert junk + text + after == junk + (text + after);
    DropsJunk(junk, text + after, IsSpace);
    NoDesignator(text + after);
    hide ReadDesignator;
  }

  lemma ZoneSign(tzd: int, separator: string)
    ensures Starts(ZoneDigits(tzd, separator), IsSign)
  {
    hide TwoDigits;
  }

  lemma DropsJunk(junk: string, rest: string, p: char -> bool)
    requires (forall i :: 0 <= i < |junk| ==> p(junk[i])) && !Starts(rest, p)
    ensures Drop(junk + rest, p) == rest
  {
    SpanAll(junk, rest, p);
  }

  lemma NoDesignator(s: string)
    requires Starts(s, IsSign)
    ensures ReadDesignator(s) == (0, s)
  {
    NoEmptyDesignator();
    assert s[..0] == "";
  }

  lemma NoEmptyDesignator()
    ensures "" !in ZONES
  {
  }

  // ----- what is printed first -----

  lemma FirstPrinted(c: char, m: Moment)
    requires IsMoment(m) && IsDirective(c)
    ensures var s := Printed(c, m);
            s != "" && (IsNumber(c) ==> IsDigit(s[0]) || s[0] == ' ') && (!IsNumber(c) ==> IsAlpha(s[0]) || (IsZone(c) && IsSign(s[0])))
  {
    hide Decimal, Padded, Calendar.DayNumber, WeekdayName, MonthName;
    var d, t := m.date, m.time;
    if IsNumber(c) {
      FirstDigit(d.day, 2, '0'); FirstDigit(d.day, 2, ' '); FirstDigit(d.day, 1, '0');
      FirstDigit(d.month, 2, '0'); FirstDigit(d.month, 2, ' '); FirstDigit(d.month, 1, '0');
      DecimalIsPadded(d.day); DecimalIsPadded(d.month); DecimalIsPadded(t.millis / 100);
      FirstDigit(d.year % 100, 2, '0'); FirstDigit(d.year, 4, '0'); FirstDigit(t.hour, 2, '0');
      FirstDigit(HourAMPM(t.hour), 2, '0'); FirstDigit(t.minute, 2, '0'); FirstDigit(t.second, 2, '0');
      FirstDigit(t.millis, 3, '0'); FirstDigit(t.millis / 100, 1, '0'); FirstDigit(t.millis * 1000 + t.micros, 6, '0');
    } else {
      WeekdayNamesAreNames(m);
      MonthNamesAreNames(d.month);
    }
  }

  lemma FirstDigit(x: nat, width: nat, fill: char)
    requires fill == '0' || fill == ' '
    ensures var s := Padded(x, width, fill); s != "" && (IsDigit(s[0]) || s[0] == fill)
  {
    ValueOfDecimal(x);
  }

  lemma StartsRight(fmt: string, m: Moment)
    requires IsMoment(m)
    ensures Starts(Format(fmt, m), IsDigit) ==> StartsDigit(fmt)
    ensures Starts(Format(fmt, m), IsAlpha) ==> StartsLetter(fmt)
    ensures Starts(Format(fmt, m), IsSign) ==> StartsSign(fmt)
  {
    hide Printed;
    if fmt != "" && fmt[0] == '%' && |fmt| > 1 {
      if IsDirective(fmt[1]) { FirstPrinted(fmt[1], m); } else { PrintsItself(fmt[1], m); }
    }
  }

  lemma PrintsItself(c: char, m: Moment)
    requires IsMoment(m) && !IsDirective(c)
    ensures Printed(c, m) == [c]
  {
    hide Decimal, Padded, Calendar.DayNumber, WeekdayName, MonthName, ZoneDigits;
  }

  // ----- one directive -----

  /** Reading a directive takes it from behind the junk and leaves the rest, with the component noted. */
  lemma ReadsDirective(c: char, m: Moment, j: Junk, junk: string, rest: string, used: set<Component>, p: Parts)
    requires IsMoment(m) && InZone(m) && Natural(p) && Unread(p, used) && Describes(j, junk)
    requires IsDirective(c) && !IsWeekday(c) && Fits(c, j, rest) && Components(c) !! used
    requires Hour in Components(c) ==> HalfDay !in used
    ensures Read(c, junk + Printed(c, m) + Format(rest, m), p) == Some((Noted(c, m, p), Format(rest, m)))
  {
    StartsRight(rest, m);
    hide Read, Printed, Format, Noted, MayStart;
    if IsZone(c) {
      CleanOfAll(junk);
      ReadsZone(c, m, junk, Format(rest, m), p);
    } else if IsMonthName(c) || IsHalfDay(c) {
      CleanOfInk(j, junk);
      ReadsName(c, m, junk, Format(rest, m), p);
    } else {
      CleanOfDigits(j, junk);
      if c == 's' || c == 'F' {
        ReadsFractional(c, m, junk, Format(rest, m), p);
      } else if c == 'H' || c == 'h' || c == 'M' || c == 'S' || c == 'i' || c == 'c' {
        ReadsTime(c, m, junk, Format(rest, m), p);
      } else {
        ReadsDate(c, m, junk, Format(rest, m), p);
      }
    }
  }

  lemma NotedKeeps(c: char, m: Moment, used: set<Component>, p: Parts)
    requires IsMoment(m) && Natural(p) && Unread(p, used)
    ensures Natural(Noted(c, m, p)) && Unread(Noted(c, m, p), used + Components(c))
  {
  }

  // ----- weekday names -----

  lemma {:induction false} SpanAtMost(s: string, p: char -> bool, n: nat)
    requires n < |s| && !p(s[n])
    ensures Span(s, p) <= n
  {
    if n > 0 && p(s[0]) { SpanAtMost(s[1..], p, n - 1); }
  }

  lemma DropConcat(a: string, b: string, k: nat)
    requires k <= |a|
    ensures (a + b)[k..] == a[k..] + b
  {
  }

  /** A run that cannot reach past a ends within it. */
  lemma DropsWithin(a: string, b: string, p: char -> bool) returns (k: nat)
    requires !Starts(b, p) || exists i :: 0 <= i < |a| && !p(a[i])
    ensures k <= |a| && Drop(a + b, p) == a[k..] + b
    ensures forall i :: 0 <= i < k ==> p(a[i])
    ensures k < |a| ==> !p(a[k])
  {
    var s := a + b;
    k := Span(s, p);
    SpanStops(s, p);
    if i :| 0 <= i < |a| && !p(a[i]) {
      assert s[i] == a[i];
    }
    assert b != "" ==> s[|a|] == b[0];
    DropConcat(a, b, k);
    assert forall i :: 0 <= i < k ==> s[i] == a[i];
  }

  /** Skipping space and letters stops, at the latest, where the letters after the junk end. */
  lemma SkipsWord(junk: string, word: string, after: string) returns (left: nat)
    requires word != "" && AllLetters(word) && !Starts(after, IsAlpha)
    ensures left <= |junk + word|
    ensures Drop(Drop(junk + word + after, IsSpace), IsAlpha) == (junk + word)[left..] + after
    ensures (forall i :: 0 <= i < |junk| ==> IsSpace(junk[i])) ==> left == |junk + word|
  {
    hide Drop;
    var x := junk + word;
    assert x[|junk|] == word[0];
    var k := DropsWithin(x, after, IsSpace);
    var l := DropsWithin(x[k..], after, IsAlpha);
    left := k + l;
    assert x[k..][l..] == x[left..];
    if forall i :: 0 <= i < |junk| ==> IsSpace(junk[i]) {
      assert k == |junk|;
      assert x[k..] == word;
    }
  }

  /** The literal letters at the front of a format. */
  lemma {:induction false} LeadingLetters(fmt: string, m: Moment) returns (letters: string)
    requires IsMoment(m)
    ensures AllLetters(letters) && Format(fmt, m) == letters + Format(AfterLetters(fmt), m)
    ensures forall s: string, p: Parts :: Natural(p) ==> ReadAll(fmt, s, p) == ReadAll(AfterLetters(fmt), s, p)
    ensures forall p: Parts :: NotedAll(fmt, m, p) == NotedAll(AfterLetters(fmt), m, p)
  {
    hide Printed, Read, Noted;
    letters := "";
    if fmt != "" && IsAlpha(fmt[0]) {
      var others := LeadingLetters(fmt[1..], m);
      letters := [fmt[0]] + others;
    } else {
      assert letters + Format(fmt, m) == Format(fmt, m);
    }
  }

  // ----- the whole format -----

  /** Reading undoes printing for every readable format, wherever the reading position is within the junk before it. */
  lemma {:induction false} ReadsAll(fmt: string, m: Moment, j: Junk, junk: string, used: set<Component>, p: Parts)
    requires IsMoment(m) && InZone(m) && Natural(p)
    requires Readable(fmt, j, used) && Describes(j, junk) && Unread(p, used)
    ensures ReadAll(fmt, junk + Format(fmt, m), p) == Some(NotedAll(fmt, m, p))
    decreases |fmt|
  {
    hide Printed, Read, Noted, Fits, MayStart, Describes, Unread, AfterLetters;
    if fmt == "" {
    } else if fmt[0] != '%' {
      LiteralJunk(j, junk, fmt[0]);
      assert junk + Format(fmt, m) == junk + [fmt[0]] + Format(fmt[1..], m);
      ReadsAll(fmt[1..], m, With(j, fmt[0]), junk + [fmt[0]], used, p);
    } else if |fmt| > 1 {
      var c, rest := fmt[1], fmt[2..];
      assert junk + Format(fmt, m) == junk + Printed(c, m) + Format(rest, m);
      if !IsDirective(c) {
        PrintsItself(c, m);
        LiteralJunk(j, junk, c);
        NotRead(c, junk + [c] + Format(rest, m), m, p);
        ReadsAll(rest, m, With(j, c), junk + [c], used, p);
      } else if IsWeekday(c) {
        ReadsWeekday(fmt, m, j, junk, used, p);
      } else {
        FirstPrinted(c, m);
        ReadsDirective(c, m, j, junk, rest, used, p);
        NotedKeeps(c, m, used, p);
        NoJunk();
        assert "" + Format(rest, m) == Format(rest, m);
        ReadsAll(rest, m, CLEAN, "", used + Components(c), Noted(c, m, p));
      }
    }
  }

  lemma ReadsWeekday(fmt: string, m: Moment, j: Junk, junk: string, used: set<Component>, p: Parts)
    requires IsMoment(m) && InZone(m) && Natural(p)
    requires Readable(fmt, j, used) && Describes(j, junk) && Unread(p, used)
    requires |fmt| > 1 && fmt[0] == '%' && IsWeekday(fmt[1])
    ensures ReadAll(fmt, junk + Format(fmt, m), p) == Some(NotedAll(fmt, m, p))
    decreases |fmt|, 0
  {
    hide *;
    var c, rest := fmt[1], fmt[2..];
    var next := AfterLetters(rest);
    var letters := LeadingLetters(rest, m);
    var after := Format(next, m);
    WeekdayUnfolded(fmt, m, j, used, p);
    StartsRight(next, m);
    var word := Printed(c, m) + letters;
    WeekdayLetters(c, m, letters);
    var left := SkipsWord(junk, word, after);
    var y := (junk + word)[left..];
    assert junk + Format(fmt, m) == junk + word + after;
    WeekdayRead(fmt, junk + word + after, p);
    WeekdayJunk(j, junk, word, left);
    ReadsAll(next, m, if j == CLEAN then j else j.(letter := true), y, used, p);
  }

  lemma WeekdayUnfolded(fmt: string, m: Moment, j: Junk, used: set<Component>, p: Parts)
    requires IsMoment(m) && Natural(p) && |fmt| > 1 && fmt[0] == '%' && IsWeekday(fmt[1]) && Readable(fmt, j, used)
    ensures var next := AfterLetters(fmt[2..]);
            |next| < |fmt| && !StartsLetter(next) && Readable(next, if j == CLEAN then j else j.(letter := true), used)
    ensures Format(fmt, m) == Printed(fmt[1], m) + Format(fmt[2..], m)
    ensures NotedAll(fmt, m, p) == NotedAll(fmt[2..], m, p)
  {
    hide Printed, MayStart;
  }

  lemma WeekdayLetters(c: char, m: Moment, letters: string)
    requires IsMoment(m) && IsWeekday(c) && AllLetters(letters)
    ensures Printed(c, m) + letters != "" && AllLetters(Printed(c, m) + letters)
  {
    WeekdayNamesAreNames(m);
    hide WeekdayName;
  }

  lemma WeekdayRead(fmt: string, s: string, p: Parts)
    requires Natural(p) && |fmt| > 1 && fmt[0] == '%' && IsWeekday(fmt[1]) && s != ""
    ensures ReadAll(fmt, s, p) == ReadAll(fmt[2..], Drop(Drop(s, IsSpace), IsAlpha), p)
  {
    hide Drop;
  }

  lemma WeekdayJunk(j: Junk, junk: string, word: string, left: nat)
    requires Describes(j, junk) && AllLetters(word) && left <= |junk + word|
    requires (forall i :: 0 <= i < |junk| ==> IsSpace(junk[i])) ==> left == |junk + word|
    ensures Describes(if j == CLEAN then j else j.(letter := true), (junk + word)[left..])
  {
    var y := (junk + word)[left..];
    if j == CLEAN {
      CleanOfAll(junk);
      assert y == "";
    } else {
      forall c | c in y ensures With(j.(letter := true), c) == j.(letter := true) {
        assert c in junk || c in word;
      }
    }
  }

  lemma NoJunk()
    ensures Describes(CLEAN, "")
  {
  }

  lemma LiteralJunk(j: Junk, junk: string, c: char)
    requires Describes(j, junk)
    ensures Describes(With(j, c), junk + [c])
  {
  }

  lemma NotRead(c: char, s: string, m: Moment, p: Parts)
    requires IsMoment(m) && Natural(p) && !IsDirective(c) && c != 'r'
    ensures Read(c, s, p) == Some((p, s)) && Noted(c, m, p) == p
  {
    hide ReadAfterJunk, ReadSecond, ReadSubSeconds, ReadYear, ReadMonth, ReadHalfDay, ReadZone;
  }

  // ----- the parsed date and time -----

  predicate PlausibleYear(year: int, m: Moment) {
    year == 0 || year == m.date.year || year == YearOfTwoDigits(m.date.year)
  }

  predicate Below(x: int, limit: int) { 0 <= x < limit }

  /** Every field is unset or a possible one. */
  predicate Plausible(p: Parts, m: Moment) {
    PlausibleYear(p.year, m) && (p.month == 0 || p.month == m.date.month) && (p.day == 0 || p.day == m.date.day) &&
    Below(p.hour, 24) && Below(p.minute, 60) && Below(p.second, 60) && Below(p.millis, 1000) && Below(p.micros, 1000)
  }

  lemma {:induction false} NotedIsPlausible(fmt: string, m: Moment, p: Parts)
    requires IsMoment(m) && Plausible(p, m)
    ensures Plausible(NotedAll(fmt, m, p), m)
    decreases |fmt|
  {
    hide Plausible, Noted;
    if fmt == "" {
    } else if fmt[0] != '%' {
      NotedIsPlausible(fmt[1..], m, p);
    } else if |fmt| > 1 {
      OneIsPlausible(fmt[1], m, p);
      NotedIsPlausible(fmt[2..], m, Noted(fmt[1], m, p));
    }
  }

  lemma OneIsPlausible(c: char, m: Moment, p: Parts)
    requires IsMoment(m) && Plausible(p, m)
    ensures Plausible(Noted(c, m, p), m)
  {
    Bounds(m, p);
    hide Below, PlausibleYear, HourAMPM, HourOf, YearOfTwoDigits, ZoneToMinute;
  }

  lemma Bounds(m: Moment, p: Parts)
    requires IsMoment(m) && Below(p.hour, 24)
    ensures var t := m.time;
      Below(t.hour, 24) && Below(HourAMPM(t.hour), 24) && Below(HourOf(p.hour, t.hour < 12), 24) && Below(t.minute, 60) &&
      Below(t.second, 60) && Below(t.millis, 1000) && Below(t.millis / 100 * 100, 1000) && Below(t.micros, 1000)
    ensures PlausibleYear(m.date.year, m) && PlausibleYear(YearOfTwoDigits(m.date.year), m)
  {
    var t := m.time;
    assert 0 <= t.millis / 100 * 100 <= t.millis;
  }

  /** With the defaults for what is missing, a plausible date exists. */
  lemma PlausibleIsInRange(p: Parts, m: Moment)
    requires IsMoment(m) && Plausible(p, m)
    ensures InRange(Defaults(p))
  {
    var y, z := m.date.year, YearOfTwoDigits(m.date.year);
    SameLeapYears(y);
    assert Calendar.IsLeapYear(0);
    if p.month != 0 && p.day != 0 {
      assert m.date.day <= Calendar.DaysOfMonth(y, m.date.month) <= Calendar.DaysOfMonth(0, m.date.month);
    }
  }

  lemma SameLeapYears(y: int)
    requires 0 <= y <= 9999
    ensures Calendar.IsLeapYear(y) ==> Calendar.IsLeapYear(YearOfTwoDigits(y))
    ensures 1969 <= YearOfTwoDigits(y) <= 2068
    ensures YearOfTwoDigits(y) == y <==> 1969 <= y <= 2068
  {
    var k, r := y / 100, y % 100;
    assert y == 100 * k + r;
    if y % 4 == 0 {
      assert r % 4 == (100 * k + r) % 4;
    }
  }

  /** parse gives back what append printed, for every readable format. */
  lemma ParsesBack(fmt: string, m: Moment)
    requires IsMoment(m) && InZone(m) && Readable(fmt, CLEAN, {}) && Format(fmt, m) != ""
    ensures Parse(fmt, Format(fmt, m)) == Some(Defaults(NotedAll(fmt, m, NOTHING)))
  {
    assert fmt != "";
    hide Readable, ReadAll, NotedAll, Format, Plausible, InRange;
    NoJunk();
    assert "" + Format(fmt, m) == Format(fmt, m);
    NothingIsUnread(m);
    ReadsAll(fmt, m, CLEAN, "", {}, NOTHING);
    NotedIsPlausible(fmt, m, NOTHING);
    PlausibleIsInRange(NotedAll(fmt, m, NOTHING), m);
  }

  lemma NothingIsUnread(m: Moment)
    requires IsMoment(m)
    ensures Unread(NOTHING, {}) && Natural(NOTHING) && Plausible(NOTHING, m)
  {
  }

  // ----- component by component -----

  function Directives(fmt: string): set<char>
    decreases |fmt|
  {
    if fmt == "" then {}
    else if fmt[0] != '%' then Directives(fmt[1..])
    else if |fmt| == 1 then {}
    else {fmt[1]} + Directives(fmt[2..])
  }

  ghost predicate Prints(fmt: string, x: Component) {
    exists c :: c in Directives(fmt) && x in Components(c)
  }

  function Field(p: Parts, x: Component): int {
    match x
    case Year => p.year
    case Month => p.month
    case Day => p.day
    case Hour => p.hour
    case HalfDay => p.hour
    case Minute => p.minute
    case Second => p.second
    case Millis => p.millis
    case Micros => p.micros
    case Zone => p.tzd
  }

  /** What a printed component comes back as. */
  function Recovered(x: Component, directives: set<char>, m: Moment): int {
    match x
    case Year => if 'y' in directives then YearOfTwoDigits(m.date.year) else m.date.year
    case Month => m.date.month
    case Day => m.date.day
    case Hour => m.time.hour
    case HalfDay => m.time.hour
    case Minute => m.time.minute
    case Second => m.time.second
    case Millis => if 'c' in directives then m.time.millis / 100 * 100 else m.time.millis
    case Micros => m.time.micros
    case Zone => ZoneToMinute(m.tzd)
  }

  lemma {:induction false} LettersPrintNothing(fmt: string)
    ensures Directives(AfterLetters(fmt)) == Directives(fmt)
    ensures forall m, p :: NotedAll(AfterLetters(fmt), m, p) == NotedAll(fmt, m, p)
  {
    hide Noted;
    if fmt != "" && IsAlpha(fmt[0]) { LettersPrintNothing(fmt[1..]); }
  }

  lemma PrintsStep(fmt: string, x: Component)
    requires |fmt| > 1 && fmt[0] == '%'
    ensures Prints(fmt, x) <==> x in Components(fmt[1]) || Prints(fmt[2..], x)
  {
    hide Components;
    assert Directives(fmt) == {fmt[1]} + Directives(fmt[2..]);
    if x in Components(fmt[1]) { assert fmt[1] in Directives(fmt); }
    if c :| c in Directives(fmt[2..]) && x in Components(c) { assert c in Directives(fmt); }
  }

  /** What readability of a format means for the part behind its first directive. */
  lemma ReadableStep(fmt: string, j: Junk, used: set<Component>) returns (j': Junk, rest: string)
    requires Readable(fmt, j, used) && |fmt| > 1 && fmt[0] == '%'
    ensures |rest| < |fmt| && Readable(rest, j', used + Components(fmt[1])) && Components(fmt[1]) !! used
    ensures Hour in Components(fmt[1]) ==> HalfDay !in used
    ensures Directives(rest) == Directives(fmt[2..]) && forall m, p :: NotedAll(rest, m, p) == NotedAll(fmt[2..], m, p)
  {
    hide Fits, MayStart, Noted;
    var c := fmt[1];
    rest := fmt[2..];
    assert used + {} == used;
    if !IsDirective(c) {
      j' := With(j, c);
    } else if IsWeekday(c) {
      LettersPrintNothing(rest);
      rest, j' := AfterLetters(rest), if j == CLEAN then j else j.(letter := true);
    } else {
      j' := CLEAN;
    }
  }

  /** A format prints no component that is used already. */
  lemma {:induction false} NothingTwice(fmt: string, j: Junk, used: set<Component>, x: Component)
    requires Readable(fmt, j, used)
    ensures x in used ==> !Prints(fmt, x)
    ensures HalfDay in used && x == Hour ==> !Prints(fmt, x)
    decreases |fmt|
  {
    if fmt == "" {
    } else if fmt[0] != '%' {
      NothingTwice(fmt[1..], With(j, fmt[0]), used, x);
    } else if |fmt| > 1 {
      PrintsStep(fmt, x);
      var j', rest := ReadableStep(fmt, j, used);
      hide Readable, Components, Directives;
      NothingTwice(rest, j', used + Components(fmt[1]), x);
    }
  }

  predicate IsHour(x: Component) { x == Hour || x == HalfDay }

  lemma OneRecovered(c: char, directives: set<char>, m: Moment, p: Parts, x: Component)
    requires !IsHour(x) && (x in Components(c) ==> forall d :: d in directives ==> x !in Components(d))
    ensures x in Components(c) ==> Field(Noted(c, m, p), x) == Recovered(x, {c} + directives, m)
    ensures x !in Components(c) ==> Field(Noted(c, m, p), x) == Field(p, x)
    ensures x !in Components(c) ==> Recovered(x, {c} + directives, m) == Recovered(x, directives, m)
  {
    if x == Year && 'y' in directives { assert Year in Components('y'); }
    if x == Millis && 'c' in directives { assert Millis in Components('c'); }
    hide HourAMPM, HourOf, YearOfTwoDigits, ZoneToMinute;
  }

  /** Every printed component but the hour comes back, and nothing else is touched. */
  lemma {:induction false} ComponentComesBack(fmt: string, j: Junk, used: set<Component>, m: Moment, p: Parts, x: Component)
    requires Readable(fmt, j, used) && !IsHour(x)
    ensures Field(NotedAll(fmt, m, p), x) == if Prints(fmt, x) then Recovered(x, Directives(fmt), m) else Field(p, x)
    decreases |fmt|
  {
    hide Components, Noted, Field, Recovered, Prints;
    if fmt == "" || fmt == "%" {
      NoDirectives(fmt, x);
    } else if fmt[0] != '%' {
      PrintsNoLiteral(fmt, x);
      ComponentComesBack(fmt[1..], With(j, fmt[0]), used, m, p, x);
    } else {
      PrintsStep(fmt, x);
      var j', rest := ReadableStep(fmt, j, used);
      ComponentComesBack(rest, j', used + Components(fmt[1]), m, Noted(fmt[1], m, p), x);
      NothingTwice(rest, j', used + Components(fmt[1]), x);
      SamePrints(rest, fmt[2..], x);
      OneRecovered(fmt[1], Directives(rest), m, p, x);
    }
  }

  lemma NoDirectives(fmt: string, x: Component)
    requires fmt == "" || fmt == "%"
    ensures !Prints(fmt, x)
  {
  }

  lemma PrintsNoLiteral(fmt: string, x: Component)
    requires fmt != "" && fmt[0] != '%'
    ensures Prints(fmt, x) <==> Prints(fmt[1..], x)
  {
  }

  lemma SamePrints(a: string, b: string, x: Component)
    requires Directives(a) == Directives(b)
    ensures Prints(a, x) <==> Prints(b, x)
    ensures !Prints(a, x) ==> forall d :: d in Directives(a) ==> x !in Components(d)
  {
  }

  /** The hour as the hour directive leaves it. */
  function HourRead(directives: set<char>, hour: int): int {
    if 'h' in directives then HourAMPM(hour) else hour
  }

  /** The hour comes back from %H, and from %h together with the half of the day. */
  lemma {:induction false} HourComesBack(fmt: string, j: Junk, used: set<Component>, m: Moment, p: Parts)
    requires IsMoment(m) && Readable(fmt, j, used)
    ensures var e := NotedAll(fmt, m, p).hour;
            var h := if Prints(fmt, Hour) then HourRead(Directives(fmt), m.time.hour) else p.hour;
            e == if Prints(fmt, HalfDay) then HourOf(h, m.time.hour < 12) else h
    decreases |fmt|
  {
    hide Components, Noted, Prints, HourOf, HourRead;
    if fmt == "" || fmt == "%" {
      NoDirectives(fmt, Hour);
      NoDirectives(fmt, HalfDay);
    } else if fmt[0] != '%' {
      PrintsNoLiteral(fmt, Hour);
      PrintsNoLiteral(fmt, HalfDay);
      HourComesBack(fmt[1..], With(j, fmt[0]), used, m, p);
    } else {
      PrintsStep(fmt, Hour);
      PrintsStep(fmt, HalfDay);
      var j', rest := ReadableStep(fmt, j, used);
      var q, used' := Noted(fmt[1], m, p), used + Components(fmt[1]);
      HourComesBack(rest, j', used', m, q);
      NothingTwice(rest, j', used', Hour);
      NothingTwice(rest, j', used', HalfDay);
      SamePrints(rest, fmt[2..], Hour);
      SamePrints(rest, fmt[2..], HalfDay);
      OneHour(fmt[1], Directives(rest), m, p);
    }
  }

  lemma OneHour(c: char, directives: set<char>, m: Moment, p: Parts)
    requires Hour in Components(c) ==> forall d :: d in directives ==> Hour !in Components(d)
    ensures Hour !in Components(c) || HalfDay !in Components(c)
    ensures Hour in Components(c) ==> Noted(c, m, p).hour == HourRead({c} + directives, m.time.hour)
    ensures HalfDay in Components(c) ==> Noted(c, m, p).hour == HourOf(p.hour, m.time.hour < 12)
    ensures Hour !in Components(c) && HalfDay !in Components(c) ==> Noted(c, m, p).hour == p.hour
    ensures Hour !in Components(c) ==> HourRead({c} + directives, m.time.hour) == HourRead(directives, m.time.hour)
  {
    if 'h' in directives { assert Hour in Components('h'); }
  }

  lemma HalvesOfTheDay(hour: int)
    requires 0 <= hour < 24
    ensures HourOf(hour, hour < 12) == hour && HourOf(HourAMPM(hour), hour < 12) == hour
  {
  }

  /** The main result: a text printed with a readable format parses to a date and time with every printed component as it was, a
      two-digit year as one of 1969 to 2068, a tenth of a second as whole hundreds of milliseconds and a zone to the minute. */
  lemma FormatParsesBack(fmt: string, m: Moment)
    requires IsMoment(m) && InZone(m) && Readable(fmt, CLEAN, {}) && Format(fmt, m) != ""
    ensures var r := Parse(fmt, Format(fmt, m));
            r.Some? &&
            (forall x :: Prints(fmt, x) && !IsHour(x) ==> Field(r.value, x) == Recovered(x, Directives(fmt), m)) &&
            (Prints(fmt, Hour) && (Prints(fmt, HalfDay) || 'h' !in Directives(fmt)) ==> r.value.hour == m.time.hour)
  {
    hide Readable, Directives, NotedAll, Format, Parse;
    ParsesBack(fmt, m);
    var e := NotedAll(fmt, m, NOTHING);
    forall x | Prints(fmt, x) && !IsHour(x) ensures Field(Defaults(e), x) == Recovered(x, Directives(fmt), m) {
      ComponentComesBack(fmt, CLEAN, {}, m, NOTHING, x);
    }
    HourComesBack(fmt, CLEAN, {}, m, NOTHING);
    HalvesOfTheDay(m.time.hour);
  }

  // ----- the standard formats -----

  lemma DirectiveStep(c: char, rest: string, j: Junk, used: set<Component>)
    requires IsDirective(c) && !IsWeekday(c) && Components(c) !! used && (Hour in Components(c) ==> HalfDay !in used)
    requires Fits(c, j, rest) && Readable(rest, CLEAN, used + Components(c))
    ensures Readable(['%', c] + rest, j, used) && Directives(['%', c] + rest) == {c} + Directives(rest)
  {
    hide Fits;
    assert (['%', c] + rest)[2..] == rest;
  }

  lemma LiteralStep(c: char, rest: string, j: Junk, used: set<Component>)
    requires c != '%' && Readable(rest, With(j, c), used)
    ensures Readable([c] + rest, j, used) && Directives([c] + rest) == Directives(rest)
  {
    assert ([c] + rest)[1..] == rest;
  }

  lemma WeekdayStep(c: char, rest: string)
    requires IsWeekday(c) && rest != "" && rest[0] != '%' && !IsAlpha(rest[0]) && Readable(rest, CLEAN, {})
    ensures Readable(['%', c] + rest, CLEAN, {}) && Directives(['%', c] + rest) == {c} + Directives(rest)
  {
    assert (['%', c] + rest)[2..] == rest;
  }

  /** A separator and a directive. */
  lemma GapStep(separator: char, c: char, rest: string, used: set<Component>)
    requires (separator == ' ' || separator == '-' || separator == ':') && IsDirective(c) && !IsWeekday(c) && Components(c) !! used
    requires Hour in Components(c) ==> HalfDay !in used
    requires Fits(c, With(CLEAN, separator), rest) && Readable(rest, CLEAN, used + Components(c))
    ensures Readable([separator] + (['%', c] + rest), CLEAN, used)
    ensures Directives([separator] + (['%', c] + rest)) == {c} + Directives(rest)
  {
    hide Readable, Fits, Directives;
    DirectiveStep(c, rest, With(CLEAN, separator), used);
    LiteralStep(separator, ['%', c] + rest, CLEAN, used);
  }

  lemma ClockIsReadable(rest: string, j: Junk, used: set<Component>)
    requires !j.digit && used !! {Hour, HalfDay, Minute, Second} && Readable(rest, CLEAN, used + {Hour, Minute, Second})
    ensures Readable("%H:%M:%S" + rest, j, used) && Directives("%H:%M:%S" + rest) == {'H', 'M', 'S'} + Directives(rest)
  {
    hide Readable, Directives;
    assert used + {Hour} + {Minute} + {Second} == used + {Hour, Minute, Second};
    GapStep(':', 'S', rest, used + {Hour} + {Minute});
    var s := [':'] + (['%', 'S'] + rest);
    GapStep(':', 'M', s, used + {Hour});
    var t := [':'] + (['%', 'M'] + s);
    DirectiveStep('H', t, j, used);
    assert "%H:%M:%S" + rest == ['%', 'H'] + t;
  }

  lemma IsoDateIsReadable(rest: string)
    requires Readable(rest, CLEAN, {Year, Month, Day})
    ensures Readable("%Y-%m-%d" + rest, CLEAN, {}) && Directives("%Y-%m-%d" + rest) == {'Y', 'm', 'd'} + Directives(rest)
  {
    hide Readable, Directives;
    assert {} + {Year} + {Month} + {Day} == {Year, Month, Day};
    GapStep('-', 'd', rest, {} + {Year} + {Month});
    var s := ['-'] + (['%', 'd'] + rest);
    GapStep('-', 'm', s, {} + {Year});
    var t := ['-'] + (['%', 'm'] + s);
    DirectiveStep('Y', t, CLEAN, {});
    assert "%Y-%m-%d" + rest == ['%', 'Y'] + t;
  }

  /** The date of the mail formats, up to the space before the time. */
  function MailDate(w: char, d: char, separator: char, y: char): string {
    ['%', w, ',', ' ', '%', d, separator, '%', 'b', separator, '%', y, ' ']
  }

  lemma MailDateIsReadable(w: char, d: char, separator: char, y: char, rest: string)
    requires IsWeekday(w) && (d == 'd' || d == 'e') && (y == 'y' || y == 'Y') && (separator == ' ' || separator == '-')
    requires Readable(rest, CLEAN, {Day} + {Month} + {Year})
    ensures Readable(MailDate(w, d, separator, y) + rest, CLEAN, {})
    ensures Directives(MailDate(w, d, separator, y) + rest) == {w} + ({d} + ({'b'} + ({y} + Directives(rest))))
  {
    hide Readable, Directives, MailDate;
    assert {} + {Day} == {Day};
    LiteralStep(' ', rest, CLEAN, {Day} + {Month} + {Year});
    var s := " " + rest;
    GapStep(separator, y, s, {Day} + {Month});
    var t := [separator] + (['%', y] + s);
    GapStep(separator, 'b', t, {Day});
    var u := [separator] + (['%', 'b'] + t);
    MailDay(w, d, u);
    MailDateText(w, d, separator, y, rest);
  }

  lemma MailDay(w: char, d: char, rest: string)
    requires IsWeekday(w) && (d == 'd' || d == 'e') && rest != "" && (rest[0] == ' ' || rest[0] == '-')
    requires Readable(rest, CLEAN, {Day})
    ensures var s := ['%', w] + ("," + (" " + (['%', d] + rest)));
            Readable(s, CLEAN, {}) && Directives(s) == {w} + ({d} + Directives(rest))
  {
    hide Readable, Directives;
    assert {} + {Day} == {Day};
    var comma := With(CLEAN, ',');
    DirectiveStep(d, rest, comma, {});
    LiteralStep(' ', ['%', d] + rest, comma, {});
    LiteralStep(',', " " + (['%', d] + rest), CLEAN, {});
    WeekdayStep(w, "," + (" " + (['%', d] + rest)));
  }

  lemma MailDateText(w: char, d: char, separator: char, y: char, rest: string)
    ensures MailDate(w, d, separator, y) + rest ==
            ['%', w] + ("," + (" " + (['%', d] + ([separator] + (['%', 'b'] + ([separator] + (['%', y] + (" " + rest))))))))
  {
  }

  lemma LastDirective(c: char, used: set<Component>)
    requires IsDirective(c) && !IsWeekday(c) && Components(c) !! used && (Hour in Components(c) ==> HalfDay !in used)
    ensures Readable(['%', c], CLEAN, used) && Directives(['%', c]) == {c}
    ensures Readable([' ', '%', c], CLEAN, used) && Directives([' ', '%', c]) == {c}
  {
    DirectiveStep(c, "", CLEAN, used);
    assert ['%', c] + "" == ['%', c];
    hide Readable;
    LiteralStep(' ', ['%', c], CLEAN, used);
    assert [' '] + ['%', c] == [' ', '%', c];
  }

  lemma MailFormatIsReadable(w: char, d: char, separator: char, y: char)
    requires IsWeekday(w) && (d == 'd' || d == 'e') && (y == 'y' || y == 'Y') && (separator == ' ' || separator == '-')
    ensures var fmt := MailDate(w, d, separator, y) + "%H:%M:%S %Z";
            Readable(fmt, CLEAN, {}) && Directives(fmt) == {w} + ({d} + ({'b'} + ({y} + ({'H', 'M', 'S'} + {'Z'}))))
  {
    hide Readable, Directives, MailDate;
    var date := {Day} + {Month} + {Year};
    LastDirective('Z', date + {Hour, Minute, Second});
    ClockIsReadable(" %Z", CLEAN, date);
    assert "%H:%M:%S" + " %Z" == "%H:%M:%S %Z";
    MailDateIsReadable(w, d, separator, y, "%H:%M:%S %Z");
  }

  lemma MailFormats()
    ensures RFC822_FORMAT == MailDate('w', 'e', ' ', 'y') + "%H:%M:%S %Z"
    ensures RFC1123_FORMAT == MailDate('w', 'e', ' ', 'Y') + "%H:%M:%S %Z"
    ensures HTTP_FORMAT == MailDate('w', 'd', ' ', 'Y') + "%H:%M:%S %Z"
    ensures RFC850_FORMAT == MailDate('W', 'e', '-', 'y') + "%H:%M:%S %Z"
    ensures RFC1036_FORMAT == MailDate('W', 'e', ' ', 'y') + "%H:%M:%S %Z"
  {
  }

  lemma IsoFormatIsReadable()
    ensures Readable(ISO8601_FORMAT, CLEAN, {}) && Directives(ISO8601_FORMAT) == {'Y', 'm', 'd'} + ({'H', 'M', 'S'} + {'z'})
  {
    hide Readable, Directives;
    var date: set<Component> := {Year, Month, Day};
    LastDirective('z', date + {Hour, Minute, Second});
    ClockIsReadable("%z", With(CLEAN, 'T'), date);
    LiteralStep('T', "%H:%M:%S" + "%z", CLEAN, date);
    IsoDateIsReadable("T" + ("%H:%M:%S" + "%z"));
    assert ISO8601_FORMAT == "%Y-%m-%d" + ("T" + ("%H:%M:%S" + "%z"));
  }

  lemma SortableFormatIsReadable()
    ensures Readable(SORTABLE_FORMAT, CLEAN, {}) && Directives(SORTABLE_FORMAT) == {'Y', 'm', 'd'} + ({'H', 'M', 'S'} + {})
  {
    var date: set<Component> := {Year, Month, Day};
    NothingIsReadable(date + {Hour, Minute, Second});
    hide Readable, Directives;
    ClockIsReadable("", CLEAN, date);
    LiteralStep(' ', "%H:%M:%S" + "", CLEAN, date);
    IsoDateIsReadable(" " + ("%H:%M:%S" + ""));
    assert SORTABLE_FORMAT == "%Y-%m-%d" + (" " + ("%H:%M:%S" + ""));
  }

  lemma NothingIsReadable(used: set<Component>)
    ensures Readable("", CLEAN, used) && Directives("") == {}
  {
  }

  lemma IsoFracFormatIsReadable()
    ensures Readable(ISO8601_FRAC_FORMAT, CLEAN, {})
    ensures Directives(ISO8601_FRAC_FORMAT) == {'Y', 'm', 'd'} + ({'H'} + ({'M'} + ({'s'} + {'z'})))
  {
    hide Readable, Directives;
    var used: set<Component> := {Year, Month, Day};
    LastDirective('z', used + {Hour} + {Minute} + {Second, Millis, Micros});
    GapStep(':', 's', "%z", used + {Hour} + {Minute});
    var s := [':'] + (['%', 's'] + "%z");
    GapStep(':', 'M', s, used + {Hour});
    var t := [':'] + (['%', 'M'] + s);
    DirectiveStep('H', t, With(CLEAN, 'T'), used);
    LiteralStep('T', ['%', 'H'] + t, CLEAN, used);
    IsoDateIsReadable("T" + (['%', 'H'] + t));
    IsoFracText();
  }

  lemma IsoFracText()
    ensures ISO8601_FRAC_FORMAT == "%Y-%m-%d" + ("T" + (['%', 'H'] + ([':'] + (['%', 'M'] + ([':'] + (['%', 's'] + "%z"))))))
  {
  }

  lemma AscTimeFormatIsReadable()
    ensures Readable(ASCTIME_FORMAT, CLEAN, {})
    ensures Directives(ASCTIME_FORMAT) == {'w'} + ({'b'} + ({'f'} + ({'H', 'M', 'S'} + {'Y'})))
  {
    hide Readable, Directives;
    var used: set<Component> := {Month} + {Day};
    assert {} + {Month} == {Month};
    LastDirective('Y', used + {Hour, Minute, Second});
    ClockIsReadable(" %Y", CLEAN, used);
    var s := "%H:%M:%S" + " %Y";
    LiteralStep(' ', s, CLEAN, used);
    GapStep(' ', 'f', " " + s, {Month});
    var t := [' '] + (['%', 'f'] + (" " + s));
    GapStep(' ', 'b', t, {});
    var u := [' '] + (['%', 'b'] + t);
    WeekdayStep('w', u);
    AscTimeText();
  }

  lemma AscTimeText()
    ensures ASCTIME_FORMAT ==
            ['%', 'w'] + ([' '] + (['%', 'b'] + ([' '] + (['%', 'f'] + (" " + ("%H:%M:%S" + " %Y"))))))
  {
  }

  ghost predicate IsStandard(fmt: string) {
    fmt == ISO8601_FORMAT || fmt == ISO8601_FRAC_FORMAT || fmt == SORTABLE_FORMAT || fmt == ASCTIME_FORMAT || fmt == RFC1123_FORMAT ||
    fmt == HTTP_FORMAT || HasTwoDigitYear(fmt)
  }

  ghost predicate HasTwoDigitYear(fmt: string) {
    fmt == RFC822_FORMAT || fmt == RFC850_FORMAT || fmt == RFC1036_FORMAT
  }

  /** What a full format tells: date, time of day and zone, the year within its century only from two digits. */
  ghost predicate ComesBack(fmt: string, m: Moment, r: Option<Parts>) {
    r.Some? && r.value.month == m.date.month && r.value.day == m.date.day && r.value.hour == m.time.hour &&
    r.value.minute == m.time.minute && r.value.second == m.time.second &&
    (r.value.year == m.date.year <==> 'y' !in Directives(fmt) || 1969 <= m.date.year <= 2068) &&
    (Prints(fmt, Zone) ==> r.value.tzd == ZoneToMinute(m.tzd)) &&
    (Prints(fmt, Micros) ==> r.value.millis == m.time.millis && r.value.micros == m.time.micros)
  }

  lemma PrintsIt(fmt: string, c: char, x: Component)
    requires c in Directives(fmt) && x in Components(c)
    ensures Prints(fmt, x)
  {
  }

  lemma FullFormatComesBack(fmt: string, m: Moment, day: char, month: char, year: char, second: char)
    requires IsMoment(m) && InZone(m) && Readable(fmt, CLEAN, {}) && |fmt| > 1 && fmt[0] == '%' && IsDirective(fmt[1])
    requires day in Directives(fmt) && month in Directives(fmt) && year in Directives(fmt) && second in Directives(fmt)
    requires 'H' in Directives(fmt) && 'M' in Directives(fmt) && 'h' !in Directives(fmt) && 'c' !in Directives(fmt)
    requires Day in Components(day) && Month in Components(month) && Year in Components(year) && Second in Components(second)
    ensures ComesBack(fmt, m, Parse(fmt, Format(fmt, m)))
  {
    FirstPrinted(fmt[1], m);
    assert Format(fmt, m) != "";
    SameLeapYears(m.date.year);
    hide *;
    HourOfFull(fmt, m);
    FieldComesBack(fmt, m, 'M', Minute);
    FieldComesBack(fmt, m, day, Day);
    FieldComesBack(fmt, m, month, Month);
    FieldComesBack(fmt, m, year, Year);
    FieldComesBack(fmt, m, second, Second);
    ZoneAndMicros(fmt, m);
    FieldsAreFull(fmt, m, Parse(fmt, Format(fmt, m)));
  }

  lemma FieldsAreFull(fmt: string, m: Moment, r: Option<Parts>)
    requires IsMoment(m) && r.Some? && r.value.hour == m.time.hour
    requires forall x :: x == Minute || x == Day || x == Month || x == Year || x == Second ==>
                           Field(r.value, x) == Recovered(x, Directives(fmt), m)
    requires YearOfTwoDigits(m.date.year) == m.date.year <==> 1969 <= m.date.year <= 2068
    requires Prints(fmt, Zone) ==> r.value.tzd == ZoneToMinute(m.tzd)
    requires Prints(fmt, Micros) ==> r.value.millis == m.time.millis && r.value.micros == m.time.micros
    ensures ComesBack(fmt, m, r)
  {
    hide Prints, Directives, YearOfTwoDigits, ZoneToMinute, IsMoment;
    assert Field(r.value, Minute) == m.time.minute && Field(r.value, Second) == m.time.second;
    assert Field(r.value, Day) == m.date.day && Field(r.value, Month) == m.date.month;
    assert Field(r.value, Year) == Recovered(Year, Directives(fmt), m);
  }

  lemma FieldComesBack(fmt: string, m: Moment, c: char, x: Component)
    requires IsMoment(m) && InZone(m) && Readable(fmt, CLEAN, {}) && Format(fmt, m) != ""
    requires c in Directives(fmt) && x in Components(c) && !IsHour(x)
    ensures var r := Parse(fmt, Format(fmt, m)); r.Some? && Field(r.value, x) == Recovered(x, Directives(fmt), m)
  {
    PrintsIt(fmt, c, x);
    hide *;
    FormatParsesBack(fmt, m);
  }

  lemma HourOfFull(fmt: string, m: Moment)
    requires IsMoment(m) && InZone(m) && Readable(fmt, CLEAN, {}) && Format(fmt, m) != ""
    requires 'H' in Directives(fmt) && 'h' !in Directives(fmt)
    ensures var r := Parse(fmt, Format(fmt, m)); r.Some? && r.value.hour == m.time.hour
  {
    PrintsIt(fmt, 'H', Hour);
    hide *;
    FormatParsesBack(fmt, m);
  }

  lemma ZoneAndMicros(fmt: string, m: Moment)
    requires IsMoment(m) && InZone(m) && Readable(fmt, CLEAN, {}) && Format(fmt, m) != "" && 'c' !in Directives(fmt)
    ensures var r := Parse(fmt, Format(fmt, m));
            r.Some? && (Prints(fmt, Zone) ==> r.value.tzd == ZoneToMinute(m.tzd)) &&
            (Prints(fmt, Micros) ==> r.value.millis == m.time.millis && r.value.micros == m.time.micros)
  {
    hide Readable, Directives, Format, Parse, Prints, Components, IsMoment;
    FormatParsesBack(fmt, m);
    var r := Parse(fmt, Format(fmt, m)).value;
    if Prints(fmt, Zone) { assert Field(r, Zone) == ZoneToMinute(m.tzd); }
    if Prints(fmt, Micros) {
      MicrosWithMillis(fmt);
      assert Field(r, Micros) == m.time.micros && Field(r, Millis) == m.time.millis;
    }
  }

  lemma MicrosWithMillis(fmt: string)
    requires Prints(fmt, Micros)
    ensures Prints(fmt, Millis)
  {
    var c :| c in Directives(fmt) && Micros in Components(c);
    assert Millis in Components(c);
  }

  lemma MailFormatComesBack(w: char, d: char, separator: char, y: char, fmt: string, m: Moment)
    requires IsWeekday(w) && (d == 'd' || d == 'e') && (y == 'y' || y == 'Y') && (separator == ' ' || separator == '-')
    requires IsMoment(m) && InZone(m) && fmt == MailDate(w, d, separator, y) + "%H:%M:%S %Z"
    ensures ComesBack(fmt, m, Parse(fmt, Format(fmt, m))) && ('y' in Directives(fmt) <==> y == 'y')
  {
    hide Readable, Directives, Format, Parse, ComesBack;
    MailFormatIsReadable(w, d, separator, y);
    assert fmt[0] == '%' && fmt[1] == w;
    FullFormatComesBack(fmt, m, d, 'b', y, 'S');
  }

  lemma IsoFormatsComeBack(m: Moment)
    requires IsMoment(m) && InZone(m)
    ensures ComesBack(ISO8601_FORMAT, m, Parse(ISO8601_FORMAT, Format(ISO8601_FORMAT, m))) && 'y' !in Directives(ISO8601_FORMAT)
    ensures ComesBack(SORTABLE_FORMAT, m, Parse(SORTABLE_FORMAT, Format(SORTABLE_FORMAT, m))) && 'y' !in Directives(SORTABLE_FORMAT)
  {
    hide Readable, Directives, Format, Parse, ComesBack;
    IsoFormatIsReadable();
    FullFormatComesBack(ISO8601_FORMAT, m, 'd', 'm', 'Y', 'S');
    SortableFormatIsReadable();
    FullFormatComesBack(SORTABLE_FORMAT, m, 'd', 'm', 'Y', 'S');
  }

  lemma IsoFracFormatComesBack(m: Moment)
    requires IsMoment(m) && InZone(m)
    ensures ComesBack(ISO8601_FRAC_FORMAT, m, Parse(ISO8601_FRAC_FORMAT, Format(ISO8601_FRAC_FORMAT, m)))
    ensures 'y' !in Directives(ISO8601_FRAC_FORMAT)
  {
    hide Readable, Directives, Format, Parse, ComesBack;
    IsoFracFormatIsReadable();
    FullFormatComesBack(ISO8601_FRAC_FORMAT, m, 'd', 'm', 'Y', 's');
  }

  lemma AscTimeFormatComesBack(m: Moment)
    requires IsMoment(m) && InZone(m)
    ensures ComesBack(ASCTIME_FORMAT, m, Parse(ASCTIME_FORMAT, Format(ASCTIME_FORMAT, m))) && 'y' !in Directives(ASCTIME_FORMAT)
  {
    hide Readable, Directives, Format, Parse, ComesBack;
    AscTimeFormatIsReadable();
    FullFormatComesBack(ASCTIME_FORMAT, m, 'f', 'b', 'Y', 'S');
  }

  /** A zone survives exactly when it is whole minutes; the one that stands for UTC comes back as zero. */
  lemma ZonesToTheMinute(tzd: int)
    ensures ZoneToMinute(tzd) == tzd <==> tzd != UTC && Abs(tzd) % 60 == 0
  {
    assert Abs(tzd) == Abs(tzd) / 60 * 60 + Abs(tzd) % 60;
  }

  /** Every format constant parses back what it prints. */
  lemma StandardFormatsParseBack(fmt: string, m: Moment)
    requires IsMoment(m) && InZone(m) && IsStandard(fmt)
    ensures ComesBack(fmt, m, Parse(fmt, Format(fmt, m)))
    ensures HasTwoDigitYear(fmt) ==> 'y' in Directives(fmt)
  {
    hide Readable, Directives, Format, Parse, ComesBack, MailDate;
    MailFormats();
    IsoFormatsComeBack(m);
    IsoFracFormatComesBack(m);
    AscTimeFormatComesBack(m);
    MailFormatComesBack('w', 'e', ' ', 'y', RFC822_FORMAT, m);
    MailFormatComesBack('w', 'e', ' ', 'Y', RFC1123_FORMAT, m);
    MailFormatComesBack('w', 'd', ' ', 'Y', HTTP_FORMAT, m);
    MailFormatComesBack('W', 'e', '-', 'y', RFC850_FORMAT, m);
    MailFormatComesBack('W', 'e', ' ', 'y', RFC1036_FORMAT, m);
  }

  // ----- formats that do not read back -----

  /** A number printed without its leading zero comes back exactly when it has both digits or no digit follows it. */
  lemma LooseNumbersExactly(junk: string, x: nat, fill: char, width: nat, after: string)
    requires NoDigits(junk) && x < 100 && (width <= 1 || (fill == ' ' && width == 2)) && (fill == '0' || fill == ' ')
    ensures ReadAfterJunk(junk + Padded(x, width, fill) + after, 0, 2) == (x, after) <==> x >= 10 || !Starts(after, IsDigit)
  {
    DecimalLength(x);
    if x >= 10 || !Starts(after, IsDigit) {
      ReadsPadded(junk, x, width, fill, after, 2);
    } else {
      var pad := Repeat(' ', if width == 2 then 1 else 0);
      Spaces(|pad|);
      assert junk + Padded(x, width, fill) + after == (junk + pad) + ([Digit(x), after[0]] + after[1..]);
      assert junk + Padded(x, width, fill) + after == (junk + pad) + [Digit(x), after[0]] + after[1..];
      SkipsJunk(junk + pad, [Digit(x), after[0]], after[1..]);
      TakesAll([Digit(x), after[0]], after[1..], 2);
      assert |after[1..]| < |after|;
    }
  }

  /** What may stand before a numeric zone: a word of up to four letters, which is then taken for its designator, but for none
      with a differential of its own. */
  predicate Neutral(word: string) {
    AllLetters(word) && |word| <= 4 && (word in ZONES ==> ZONES[word] == 0)
  }

  lemma {:induction false} SpanEndsAt(a: string, b: string, p: char -> bool)
    requires !Starts(b, p)
    ensures Span(a + b, p) == Span(a, p) && (a + b)[Span(a, p)..] == Drop(a, p) + b
  {
    if a == "" {
      assert a + b == b;
    } else {
      assert (a + b)[1..] == a[1..] + b;
      if p(a[0]) { SpanEndsAt(a[1..], b, p); }
    }
  }

  /** Digits are not taken from behind a sign. */
  lemma NumberBefore(a: string, rest: string)
    requires Starts(rest, IsSign)
    ensures |ReadNumber(a + rest, 0, 2).1| >= |rest|
    ensures StartsWith(ReadNumber(a + rest, 0, 2).1, ':') ==> |ReadNumber(a + rest, 0, 2).1| > |rest|
  {
    SpanEndsAt(a, rest, IsDigit);
  }

  /** An offset ends before the next sign. */
  lemma OffsetBefore(a: string, rest: string)
    requires Starts(rest, IsSign) && a != ""
    ensures |ReadOffset(a + rest).1| >= |rest|
  {
    if Starts(a, IsSign) {
      assert (a + rest)[1..] == a[1..] + rest;
      NumberBefore(a[1..], rest);
      var t := ReadNumber(a[1..] + rest, 0, 2).1;
      var u := if StartsWith(t, ':') then t[1..] else t;
      NumberLeaves(a[1..], rest);
      assert u == u[..|u| - |rest|] + rest;
      NumberBefore(u[..|u| - |rest|], rest);
    }
  }

  lemma NumberLeaves(a: string, rest: string)
    requires Starts(rest, IsSign)
    ensures var t := ReadNumber(a + rest, 0, 2).1; |t| >= |rest| && t[|t| - |rest|..] == rest
  {
    NumberBefore(a, rest);
    var t := ReadNumber(a + rest, 0, 2).1;
    assert t == (a + rest)[|a + rest| - |t|..];
  }

  lemma ZoneIsDesignatorAndOffset(junk: string, rest: string)
    requires Starts(rest, IsSign)
    ensures var word := Drop(junk, IsSpace);
            var k := Min(4, Span(word, IsAlpha));
            var (offset, u) := ReadOffset(word[k..] + rest);
            ReadZone(junk + rest) == ((if word[..k] in ZONES then ZONES[word[..k]] else 0) + offset, u)
  {
    hide ReadOffset, Span;
    var word := Drop(junk, IsSpace);
    SpanEndsAt(junk, rest, IsSpace);
    SpanEndsAt(word, rest, IsAlpha);
    var k := Min(4, Span(word, IsAlpha));
    assert (word + rest)[..k] == word[..k] && (word + rest)[k..] == word[k..] + rest;
  }

  /** A numeric zone comes back, whatever stands before it, if and only if that is space and then possibly a designator that
      stands for no differential, or for nothing. */
  lemma ZoneBehindJunk(junk: string, tzd: int, separator: string, after: string)
    requires tzd != UTC && Abs(tzd) < 360000 && (separator == ":" || separator == "")
    ensures ReadZone(junk + ZoneDigits(tzd, separator) + after) == (ZoneToMinute(tzd), after) <==> Neutral(Drop(junk, IsSpace))
  {
    hide ZoneDigits, ZoneToMinute, ReadOffset, ReadZone;
    var text, word := ZoneDigits(tzd, separator), Drop(junk, IsSpace);
    ZoneSign(tzd, separator);
    ReadsOffset(tzd, separator, after);
    assert junk + text + after == junk + (text + after);
    ZoneIsDesignatorAndOffset(junk, text + after);
    LettersSpan(word);
    var k := Min(4, Span(word, IsAlpha));
    if k == |word| {
      assert word[..k] == word && word[k..] + (text + after) == text + after;
    } else {
      OffsetBefore(word[k..], text + after);
    }
  }

  lemma {:induction false} LettersSpan(s: string)
    ensures AllLetters(s) <==> Span(s, IsAlpha) == |s|
  {
    if s != "" {
      if IsAlpha(s[0]) { LettersSpan(s[1..]); }
      assert s == [s[0]] + s[1..];
    }
  }

  /** A mark other than a letter before a zone hides it. */
  lemma MarkHidesZone(space: string, mark: char, tzd: int, separator: string, after: string)
    requires tzd != UTC && Abs(tzd) < 360000 && (separator == ":" || separator == "")
    requires (forall i :: 0 <= i < |space| ==> IsSpace(space[i])) && !IsSpace(mark) && !IsAlpha(mark)
    ensures ReadZone(space + [mark] + ZoneDigits(tzd, separator) + after) != (ZoneToMinute(tzd), after)
  {
    hide ReadZone, ZoneDigits, ZoneToMinute;
    DropsJunk(space, [mark], IsSpace);
    ZoneBehindJunk(space + [mark], tzd, separator, after);
    assert Drop(space + [mark], IsSpace)[0] == mark;
  }

  lemma OffsetConsumes(s: string)
    ensures |ReadOffset(s).1| <= |s| && (Starts(s, IsSign) ==> |ReadOffset(s).1| < |s|)
  {
  }

  /** The UTC marker comes back, and takes nothing of what follows, if and only if no letter and no sign follows it. */
  lemma UtcExactly(junk: string, word: string, after: string)
    requires (word == "Z" || word == "GMT") && forall i :: 0 <= i < |junk| ==> IsSpace(junk[i])
    ensures ReadZone(junk + word + after) == (0, after) <==> !Starts(after, IsAlpha) && !Starts(after, IsSign)
  {
    hide ReadOffset;
    if !Starts(after, IsAlpha) && !Starts(after, IsSign) {
      ReadsUtc(word, junk, after);
    } else {
      var t := word + after;
      assert junk + word + after == junk + t;
      DropsJunk(junk, t, IsSpace);
      var k := Min(4, Span(t, IsAlpha));
      SpanPrefix(word, after, IsAlpha);
      OffsetConsumes(t[k..]);
      assert k == |word| ==> t[k..] == after;
    }
  }

  lemma {:induction false} SpanPrefix(a: string, b: string, p: char -> bool)
    requires forall i :: 0 <= i < |a| ==> p(a[i])
    ensures Span(a + b, p) == |a| + Span(b, p)
  {
    if a == "" {
      assert a + b == b;
    } else {
      assert (a + b)[1..] == a[1..] + b;
      SpanPrefix(a[1..], b, p);
    }
  }

  /** A dash and two digits behind UTC are taken for the differential. */
  lemma DashBehindUtc(x: nat)
    requires 0 < x < 100
    ensures ReadZone("Z-" + TwoDigits(x)) == (-3600 * x, "")
  {
    var s := "-" + TwoDigits(x);
    assert "Z-" + TwoDigits(x) == "Z" + s && "" + "Z" + s == "Z" + s;
    assert AllLetters("Z") && "Z" in ZONES && ZONES["Z"] == 0;
    FindsWord("", "Z", s, IsSpace);
    DashRead(x);
    hide Span, Drop, ReadOffset, TwoDigits;
    assert ReadDesignator("Z" + s) == (0, s);
  }

  lemma DashRead(x: nat)
    requires x < 100
    ensures ReadOffset("-" + TwoDigits(x)) == (-3600 * x, "")
  {
    hide ReadNumber, TwoDigits;
    var s := "-" + TwoDigits(x);
    TwoAtFront(x, "");
    assert TwoDigits(x) + "" == TwoDigits(x) && s[1..] == TwoDigits(x);
    NothingMore();
  }

  lemma NothingMore()
    ensures ReadNumber("", 0, 2) == (0, "")
  {
    SpanAll("", "", IsDigit);
  }
}
