/** What the parser makes of texts the formatter need not have written (Foundation/src/DateTimeParser.cpp): names in any case, years
    of any length, designators of zones, words that are skipped. */
module DateTimeReading {
  import opened Wrappers
  import opened Ascii
  import opened Digits
  import opened DateTimeText
  import DateTimeRoundTrip
  import DateTimeShapes

  // ----- words -----

  /** The same, or the same letter in the other case. */
  predicate SameLetter(a: char, b: char) {
    a == b || (IsAlpha(a) && IsAlpha(b) && (a as int == b as int + 32 || b as int == a as int + 32))
  }

  predicate SameWord(a: string, b: string) {
    |a| == |b| && forall i :: 0 <= i < |a| ==> SameLetter(a[i], b[i])
  }

  lemma {:induction false} LowerIsSame(a: string, b: string)
    requires DateTimeRoundTrip.AllLetters(a) && forall i :: 0 <= i < |b| ==> 'a' <= b[i] <= 'z'
    ensures Lower(a) == b <==> SameWord(a, b)
  {
    if a != "" && b != "" {
      LowerIsSame(a[1..], b[1..]);
      assert b == [b[0]] + b[1..];
    }
  }

  lemma CapitalizedIsSame(a: string, b: string)
    requires DateTimeRoundTrip.AllLetters(a) && DateTimeRoundTrip.IsName(b)
    ensures Capitalized(a) == b <==> SameWord(a, b)
  {
    if a != "" {
      LowerIsSame(a[1..], b[1..]);
      assert b == [b[0]] + b[1..];
    }
  }

  lemma UpperIsSame(a: string, b: string)
    requires DateTimeRoundTrip.AllLetters(a) && (b == "AM" || b == "PM")
    ensures Upper(a) == b <==> SameWord(a, b)
  {
    if |a| == 2 {
      assert Upper(a) == [ToUpper(a[0])] + ([ToUpper(a[1])] + Upper(a[1..][1..]));
    } else {
      UpperLength(a);
    }
  }

  lemma {:induction false} UpperLength(s: string)
    ensures |Upper(s)| == |s|
  {
    if s != "" { UpperLength(s[1..]); }
  }

  lemma {:induction false} FoundMonth(name: string, i: nat)
    requires i <= 12
    ensures var m := FindMonth(name, i); m.Some? ==> 1 <= m.value <= 12 && name <= MonthName(m.value)
    decreases 12 - i
  {
    if i < 12 { FoundMonth(name, i + 1); }
  }

  /** A word names a month if and only if it is at least its first three letters, in any case. */
  lemma MonthWords(junk: string, word: string, after: string, month: int)
    requires (forall i :: 0 <= i < |junk| ==> SpaceOrPunct(junk[i])) && !Starts(after, IsAlpha)
    requires word != "" && DateTimeRoundTrip.AllLetters(word)
    ensures ReadMonth(junk + word + after) == Some((month, after)) <==>
            1 <= month <= 12 && 3 <= |word| <= |MonthName(month)| && SameWord(word, MonthName(month)[..|word|])
    ensures ReadMonth(junk + word + after).Some? ==>
              ReadMonth(junk + word + after).value.1 == after && 1 <= ReadMonth(junk + word + after).value.0 <= 12
  {
    DateTimeRoundTrip.FindsWord(junk, word, after, SpaceOrPunct);
    hide Span, Drop, FindMonth, Capitalized;
    FoundMonth(Capitalized(word), 0);
    if |word| >= 3 && 1 <= month <= 12 {
      CapitalizedLength(word);
      PrefixOfMonth(word, month);
      if Capitalized(word) <= MonthName(month) { DateTimeRoundTrip.MonthIsFound(month, Capitalized(word), 0); }
    }
  }

  lemma PrefixOfMonth(word: string, month: int)
    requires DateTimeRoundTrip.AllLetters(word) && |word| >= 3 && 1 <= month <= 12
    ensures Capitalized(word) <= MonthName(month) <==> |word| <= |MonthName(month)| && SameWord(word, MonthName(month)[..|word|])
  {
    CapitalizedLength(word);
    DateTimeRoundTrip.MonthNamesAreNames(month);
    hide MonthName, Capitalized;
    if |word| <= |MonthName(month)| {
      CapitalizedIsSame(word, MonthName(month)[..|word|]);
    }
  }

  lemma {:induction false} LowerLength(s: string)
    ensures |Lower(s)| == |s|
  {
    if s != "" { LowerLength(s[1..]); }
  }

  lemma CapitalizedLength(s: string)
    ensures |Capitalized(s)| == |s|
  {
    if s != "" { LowerLength(s[1..]); }
  }

  /** AM and PM, in any case, put an hour of the twelve-hour clock into the first or second half of the day; an hour that is
      none on that clock stays, but for 0 PM, which is noon. Any other word is refused. */
  lemma HalfDayWords(junk: string, word: string, after: string, hour: int)
    requires (forall i :: 0 <= i < |junk| ==> SpaceOrPunct(junk[i])) && !Starts(after, IsAlpha)
    requires word != "" && DateTimeRoundTrip.AllLetters(word) && hour >= 0
    ensures 1 <= hour <= 12 && SameWord(word, "AM") ==> ReadHalfDay(junk + word + after, hour) == Some((hour % 12, after))
    ensures 1 <= hour <= 12 && SameWord(word, "PM") ==> ReadHalfDay(junk + word + after, hour) == Some((12 + hour % 12, after))
    ensures (hour > 12 && (SameWord(word, "AM") || SameWord(word, "PM"))) || (hour == 0 && SameWord(word, "AM")) ==>
              ReadHalfDay(junk + word + after, hour) == Some((hour, after))
    ensures hour == 0 && SameWord(word, "PM") ==> ReadHalfDay(junk + word + after, hour) == Some((12, after))
    ensures !SameWord(word, "AM") && !SameWord(word, "PM") ==> ReadHalfDay(junk + word + after, hour) == None
  {
    DateTimeRoundTrip.FindsWord(junk, word, after, SpaceOrPunct);
    UpperIsSame(word, "AM");
    UpperIsSame(word, "PM");
    hide Span, Drop, Upper, SameWord;
  }

  /** A word for the weekday is skipped, whichever it is. */
  lemma WeekdayWords(c: char, space: string, word: string, after: string, p: Parts)
    requires (c == 'w' || c == 'W') && Natural(p) && (forall i :: 0 <= i < |space| ==> IsSpace(space[i])) && !Starts(after, IsAlpha)
    requires word != "" && DateTimeRoundTrip.AllLetters(word)
    ensures Read(c, space + word + after, p) == Some((p, after))
  {
    DateTimeRoundTrip.FindsWord(space, word, after, IsSpace);
    hide Span;
  }

  /** A character that is no directive reads nothing, and r is one to the parser only. */
  lemma OtherCharacters(c: char, s: string, p: Parts)
    requires Natural(p) && !DateTimeShapes.IsDirective(c) && c != 'r'
    ensures Read(c, s, p) == Some((p, s))
  {
    hide ReadMonth, ReadHalfDay, ReadZone, ReadSecond, ReadSubSeconds, ReadYear, ReadAfterJunk;
  }

  /** Characters of the format that belong to no directive ask nothing of the text. */
  lemma {:induction false} LiteralsAreSkipped(text: string, fmt: string, s: string, p: Parts)
    requires Natural(p) && '%' !in text
    ensures ReadAll(text + fmt, s, p) == if s == "" then Some(p) else ReadAll(fmt, s, p)
    decreases |text|
  {
    if text == "" {
      assert text + fmt == fmt;
    } else {
      assert (text + fmt)[1..] == text[1..] + fmt && (text + fmt)[0] == text[0];
      hide Read;
      LiteralsAreSkipped(text[1..], fmt, s, p);
    }
  }

  // ----- years -----

  lemma ReadsColumns(junk: string, x: nat, n: nat, after: string, limit: nat)
    requires NoDigits(junk) && x < DateTimeShapes.Tens(n) && 0 < n <= limit && (n == limit || !Starts(after, IsDigit))
    ensures ReadAfterJunk(junk + DateTimeShapes.Columns(x, n) + after, 0, limit) == (x, after)
  {
    DateTimeShapes.ZeroPaddedColumns(x, n);
    DateTimeShapes.DecimalIsShort(x, n);
    ReadsPadded(junk, x, n, '0', after, limit);
  }

  /** Y takes up to four digits as they are, y up to two, and r as many as there are; two digits stand for a year from 1969 to 2068,
      and r takes three digits for a year after 1900. */
  lemma YearTexts(junk: string, x: nat, n: nat, after: string)
    requires NoDigits(junk) && x < DateTimeShapes.Tens(n) && n > 0 && !Starts(after, IsDigit)
    ensures var s := junk + DateTimeShapes.Columns(x, n) + after;
            (n <= 4 ==> ReadYear(s, 0, 'Y') == (x, after)) &&
            (n <= 2 ==>
               var (year, rest) := ReadYear(s, 0, 'y');
               1969 <= year <= 2068 && (year - x) % 100 == 0 && rest == after) &&
            ReadYear(s, 0, 'r') == (if x <= 68 then 2000 + x else if x <= 999 then 1900 + x else x, after)
  {
    var s := junk + DateTimeShapes.Columns(x, n) + after;
    if n <= 4 { ReadsColumns(junk, x, n, after, 4); }
    if n <= 2 {
      DateTimeShapes.SmallTens();
      ReadsColumns(junk, x, n, after, 2);
    }
    ReadsColumns(junk, x, n, after, |s|);
    hide ReadAfterJunk, DateTimeShapes.Columns, DateTimeShapes.Tens;
    if n <= 2 { CenturyOf(x); }
  }

  lemma CenturyOf(x: nat)
    requires x < 100
    ensures 1969 <= FullYear(x) <= 2068 && (FullYear(x) - x) % 100 == 0
  {
  }

  // ----- seconds -----

  /** A fraction of six digits belongs to the seconds behind a period or a comma, and for s only. */
  lemma SecondTexts(junk: string, second: nat, mark: char, millis: nat, micros: nat, after: string, p: Parts)
    requires NoDigits(junk) && second < 100 && millis < 1000 && micros < 1000 && !Starts(after, IsDigit)
    requires Natural(p) && p.second == 0 && p.millis == 0 && p.micros == 0
    ensures var rest := [mark] + DateTimeShapes.Columns(1000 * millis + micros, 6) + after;
            var text := junk + DateTimeShapes.Columns(second, 2) + rest;
            var q := p.(second := second);
            ReadSecond(text, p, 'S') == (q, rest) &&
            ReadSecond(text, p, 's') ==
            if mark == '.' || mark == ',' then (q.(millis := millis, micros := micros), after) else (q, rest)
  {
    DateTimeShapes.SmallTens();
    var fraction := DateTimeShapes.Columns(1000 * millis + micros, 6);
    hide DateTimeShapes.Columns, ReadAfterJunk, ReadSubSeconds, DateTimeShapes.Tens;
    var rest := [mark] + fraction + after;
    ReadsColumns(junk, second, 2, rest, 2);
    FractionTexts(millis, micros, after, p.(second := second));
    assert rest[1..] == fraction + after && rest[0] == mark;
  }

  lemma FractionTexts(millis: nat, micros: nat, after: string, p: Parts)
    requires millis < 1000 && micros < 1000 && !Starts(after, IsDigit) && Natural(p) && p.millis == 0 && p.micros == 0
    ensures ReadSubSeconds(DateTimeShapes.Columns(1000 * millis + micros, 6) + after, p) ==
            (p.(millis := millis, micros := micros), after)
  {
    DateTimeShapes.SmallTens();
    DateTimeShapes.ZeroPaddedColumns(1000 * millis + micros, 6);
    ReadsFraction(millis, micros, after);
    NothingDropped(after);
    hide DateTimeShapes.Columns, ReadFraction, Padded, DateTimeShapes.Tens, Drop;
  }

  lemma NothingDropped(s: string)
    requires !Starts(s, IsDigit)
    ensures Drop(s, IsDigit) == s
  {
  }

  // ----- zones -----

  /** A designator of up to four letters stands for its differential; one that is not known stands for none. */
  lemma ZoneWords(space: string, word: string, after: string)
    requires (forall i :: 0 <= i < |space| ==> IsSpace(space[i])) && !Starts(after, IsAlpha) && !Starts(after, IsSign)
    requires DateTimeRoundTrip.AllLetters(word) && 0 < |word| <= 4
    ensures ReadZone(space + word + after) == (if word in ZONES then ZONES[word] else 0, after)
  {
    hide ZONES;
    DateTimeRoundTrip.FindsWord(space, word, after, IsSpace);
    hide Span, Drop;
    assert ReadDesignator(word + after) == (if word in ZONES then ZONES[word] else 0, after);
  }

  predicate ZoneIs(word: string, minutes: int) {
    word in ZONES && ZONES[word] == 60 * minutes
  }

  /** The first designator is that of standard time, the second that of daylight saving time, an hour ahead. */
  predicate ZonesAre(standard: string, daylight: string, minutes: int) {
    ZoneIs(standard, minutes) && ZoneIs(daylight, minutes + 60)
  }

  /** The zones of RFC 822, section 5.1. */
  lemma UniversalZones()
    ensures ZoneIs("Z", 0) && ZoneIs("UT", 0) && ZoneIs("GMT", 0)
  {
  }

  lemma AmericanZones()
    ensures ZonesAre("EST", "EDT", -5 * 60) && ZonesAre("CST", "CDT", -6 * 60) && ZonesAre("MST", "MDT", -7 * 60)
    ensures ZonesAre("PST", "PDT", -8 * 60)
  {
  }

  /** The zones farther out in America, and those of Europe and Australia, hour by hour. */
  lemma OuterAmericanZones()
    ensures ZonesAre("NST", "NDT", -(3 * 60 + 30)) && ZonesAre("AST", "ADT", -4 * 60) && ZonesAre("AKST", "AKDT", -9 * 60)
    ensures ZoneIs("HST", -10 * 60)
  {
  }

  lemma EuropeanZones()
    ensures ZonesAre("WET", "WEST", 0) && ZonesAre("CET", "CEST", 60) && ZonesAre("EET", "EEST", 2 * 60)
    ensures ZonesAre("MSK", "MSD", 3 * 60) && ZonesAre("GMT", "BST", 0) && ZoneIs("IST", 60)
  {
  }

  lemma AustralianZones()
    ensures ZonesAre("AWST", "AWDT", 8 * 60) && ZonesAre("ACST", "ACDT", 9 * 60 + 30) && ZonesAre("AEST", "AEDT", 10 * 60)
  {
  }
}
