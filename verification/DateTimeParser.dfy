/** The parser's loops over the text (Foundation/src/DateTimeParser.cpp), against what DateTimeText says they read. */
module DateTimeParser {
  import opened Ascii
  import opened Digits
  import opened DateTimeText
  import opened Wrappers

  /** The iterator over the text, as what is left of it. */
  class Reader {
    var it: string

    constructor (str: string)
      ensures it == str
    {
      it := str;
    }

    /** while (it != end && p(*it)) ++it */
    method Skip(p: char -> bool)
      modifies this
      ensures it == Drop(old(it), p)
    {
      while Starts(it, p)
        invariant Drop(it, p) == Drop(old(it), p)
        decreases |it|
      {
        DropStep(it, p);
        it := it[1..];
      }
    }

    /** The letters at the front. */
    method Word() returns (word: string)
      modifies this
      ensures var k := Span(old(it), IsAlpha); word == old(it)[..k] && it == old(it)[k..]
    {
      ghost var all, k := it, 0;
      word := "";
      while Starts(it, IsAlpha)
        invariant k <= |all| && word == all[..k] && it == all[k..] && Span(all, IsAlpha) == k + Span(it, IsAlpha)
        decreases |it|
      {
        assert all[k..][1..] == all[k + 1..];
        word, it, k := word + [it[0]], it[1..], k + 1;
      }
    }

    /** PARSE_NUMBER_N */
    method ParseNumber(v: nat, n: nat) returns (r: nat)
      modifies this
      ensures (r, it) == ReadNumber(old(it), v, n)
    {
      r := v;
      var i := 0;
      while i < n && Starts(it, IsDigit)
        invariant i <= n && ReadNumber(it, r, n - i) == ReadNumber(old(it), v, n)
        decreases n - i
      {
        NumberStep(it, r, n - i);
        r, it, i := r * 10 + DigitValue(it[0]), it[1..], i + 1;
      }
      NumberEnd(it, r, n - i);
    }

    /** PARSE_FRACTIONAL_N */
    method ParseFraction(v: nat, n: nat) returns (r: nat)
      modifies this
      ensures (r, it) == ReadFraction(old(it), v, n)
    {
      hide ReadFraction, Taken, Scaled;
      r := v;
      var i := 0;
      while i < n && Starts(it, IsDigit)
        invariant i <= n && ReadFraction(it, r, n - i) == ReadFraction(old(it), v, n)
        decreases n - i
      {
        FractionStep(it, r, n - i);
        r, it, i := r * 10 + DigitValue(it[0]), it[1..], i + 1;
      }
      FractionEnd(it, r, n - i);
      ghost var r0, i0, it0 := r, i, it;
      while i < n
        invariant i0 <= i <= n && it == it0 && Scaled(r, n - i) == Scaled(r0, n - i0)
      {
        PowerStep(r, n - i);
        r, i := r * 10, i + 1;
      }
      NothingScaled(r);
    }

    method ParseMonth() returns (month: Option<int>)
      modifies this
      ensures match ReadMonth(old(it)) case None => month == None case Some(r) => month == Some(r.0) && it == r.1
    {
      Skip(SpaceOrPunct);
      var word := Word();
      if |word| < 3 { return None; }
      var name := Capitalized(word);
      for i := 0 to 12
        invariant FindMonth(name, i) == FindMonth(name, 0)
      {
        if name <= MONTH_NAMES[i] { return Some(i + 1); }
      }
      return None;
    }

    method ParseAMPM(hour: int) returns (r: Option<int>)
      modifies this
      ensures match ReadHalfDay(old(it), hour) case None => r == None case Some(h) => r == Some(h.0) && it == h.1
    {
      Skip(SpaceOrPunct);
      var word := Word();
      var ampm := Upper(word);
      if ampm == "AM" { return Some(if hour == 12 then 0 else hour); }
      if ampm == "PM" { return Some(if hour < 12 then hour + 12 else hour); }
      return None;
    }

    method ParseTZD() returns (tzd: int)
      modifies this
      ensures (tzd, it) == ReadZone(old(it))
    {
      hide ReadNumber;
      tzd := 0;
      Skip(IsSpace);
      var designator := it[..Min(4, Span(it, IsAlpha))];
      it := it[|designator|..];
      if designator in ZONES { tzd := ZONES[designator]; }
      if Starts(it, IsSign) {
        var sign: int := if it[0] == '+' then 1 else -1;
        it := it[1..];
        var hours := ParseNumber(0, 2);
        if StartsWith(it, ':') { it := it[1..]; }
        var minutes := ParseNumber(0, 2);
        tzd := tzd + sign * (hours * 3600 + minutes * 60);
      }
    }

    /** A number after junk. */
    method ParseAfterJunk(v: nat, n: nat) returns (r: nat)
      modifies this
      ensures (r, it) == ReadAfterJunk(old(it), v, n)
    {
      Skip(NotDigit);
      r := ParseNumber(v, n);
    }

    method ParseSubSeconds(p: Parts) returns (q: Parts)
      requires p.millis >= 0 && p.micros >= 0
      modifies this
      ensures (q, it) == ReadSubSeconds(old(it), p)
    {
      var millis := ParseFraction(p.millis, 3);
      var micros := ParseFraction(p.micros, 3);
      Skip(IsDigit);
      q := p.(millis := millis, micros := micros);
    }

    method ParseYear(v: nat, c: char) returns (year: nat)
      modifies this
      ensures (year, it) == ReadYear(old(it), v, c)
    {
      if c == 'Y' {
        year := ParseAfterJunk(v, 4);
      } else {
        year := ParseAfterJunk(v, if c == 'y' then 2 else |it|);
        if c == 'y' || year < 1000 { year := FullYear(year); }
      }
    }

    method ParseSecond(p: Parts, c: char) returns (q: Parts)
      requires Natural(p)
      modifies this
      ensures (q, it) == ReadSecond(old(it), p, c)
    {
      var second := ParseAfterJunk(p.second, 2);
      q := p.(second := second);
      if c == 's' && (StartsWith(it, '.') || StartsWith(it, ',')) {
        it := it[1..];
        q := ParseSubSeconds(q);
      }
    }

    /** The directives that read digits. */
    method ParseDigits(c: char, p: Parts) returns (q: Parts)
      requires Natural(p)
      modifies this
      ensures (q, it) == ReadDigits(c, old(it), p)
    {
      hide ReadAfterJunk, ReadYear, ReadSecond, ReadSubSeconds;
      q := p;
      if c == 'd' || c == 'e' || c == 'f' {
        var day := ParseAfterJunk(p.day, 2);
        q := p.(day := day);
      } else if c == 'm' || c == 'n' || c == 'o' {
        var month := ParseAfterJunk(p.month, 2);
        q := p.(month := month);
      } else if c == 'y' || c == 'Y' || c == 'r' {
        var year := ParseYear(p.year, c);
        q := p.(year := year);
      } else if c == 'H' || c == 'h' {
        var hour := ParseAfterJunk(p.hour, 2);
        q := p.(hour := hour);
      } else if c == 'M' {
        var minute := ParseAfterJunk(p.minute, 2);
        q := p.(minute := minute);
      } else if c == 'S' || c == 's' {
        q := ParseSecond(p, c);
      } else if c == 'i' {
        var millis := ParseAfterJunk(p.millis, 3);
        q := p.(millis := millis);
      } else if c == 'c' {
        var millis := ParseAfterJunk(p.millis, 1);
        q := p.(millis := millis * 100);
      } else if c == 'F' {
        Skip(NotDigit);
        q := ParseSubSeconds(p);
      }
    }

    /** One directive; None where the parser throws. */
    method ParseDirective(c: char, p: Parts) returns (q: Option<Parts>)
      requires Natural(p)
      modifies this
      ensures match Read(c, old(it), p) case None => q == None case Some(r) => q == Some(r.0) && it == r.1
    {
      hide ReadMonth, ReadHalfDay, ReadZone, ReadDigits;
      if c == 'w' || c == 'W' {
        Skip(IsSpace);
        Skip(IsAlpha);
        q := Some(p);
      } else if c == 'b' || c == 'B' {
        var month := ParseMonth();
        q := if month.Some? then Some(p.(month := month.value)) else None;
      } else if c == 'a' || c == 'A' {
        var hour := ParseAMPM(p.hour);
        q := if hour.Some? then Some(p.(hour := hour.value)) else None;
      } else if c == 'z' || c == 'Z' {
        var tzd := ParseTZD();
        q := Some(p.(tzd := tzd));
      } else {
        var r := ParseDigits(c, p);
        q := Some(r);
      }
    }
  }

  /** DateTimeParser::parse; None where it throws. */
  method ParseText(fmt: string, str: string) returns (result: Option<Parts>)
    ensures result == Parse(fmt, str) && (result.Some? ==> FieldsInRange(result.value))
    ensures fmt != "" && str != "" && ReadAll(fmt, str, NOTHING).Some? && !FieldsInRange(Defaults(ReadAll(fmt, str, NOTHING).value))
            ==> result == None
  {
    RangeIsChecked(fmt, str);
    hide Read, InRange, FieldsInRange;
    if fmt == "" || str == "" { return None; }
    var reader := new Reader(str);
    var p, itf := NOTHING, fmt;
    while itf != "" && reader.it != ""
      invariant Natural(p) && ReadAll(itf, reader.it, p) == ReadAll(fmt, str, NOTHING)
      decreases |itf|
    {
      if itf[0] == '%' {
        itf := itf[1..];
        if itf != "" {
          var q := reader.ParseDirective(itf[0], p);
          if q == None { return None; }
          p, itf := q.value, itf[1..];
        }
      } else {
        itf := itf[1..];
      }
    }
    if p.month == 0 { p := p.(month := 1); }
    if p.day == 0 { p := p.(day := 1); }
    return if InRange(p) then Some(p) else None;
  }

  lemma DropStep(s: string, p: char -> bool)
    requires Starts(s, p)
    ensures Drop(s, p) == Drop(s[1..], p)
  {
  }

  lemma NumberStep(s: string, v: nat, n: nat)
    requires n > 0 && Starts(s, IsDigit)
    ensures ReadNumber(s, v, n) == ReadNumber(s[1..], v * 10 + DigitValue(s[0]), n - 1)
  {
    TakenStep(s, n);
  }

  lemma TakenStep(s: string, n: nat)
    requires n > 0 && Starts(s, IsDigit)
    ensures var k := Taken(s, n);
            k == Taken(s[1..], n - 1) + 1 && s[..k][1..] == s[1..][..k - 1] && s[k..] == s[1..][k - 1..] && s[..k][0] == s[0]
  {
    var k := Taken(s, n);
    assert s[..k][1..] == s[1..][..k - 1];
  }

  lemma NumberEnd(s: string, v: nat, n: nat)
    requires n == 0 || !Starts(s, IsDigit)
    ensures ReadNumber(s, v, n) == (v, s) && Taken(s, n) == 0
  {
    assert s[..0] == "" && s[0..] == s;
  }

  lemma FractionStep(s: string, v: nat, n: nat)
    requires n > 0 && Starts(s, IsDigit)
    ensures ReadFraction(s, v, n) == ReadFraction(s[1..], v * 10 + DigitValue(s[0]), n - 1)
  {
    TakenStep(s, n);
  }

  lemma FractionEnd(s: string, v: nat, n: nat)
    requires n == 0 || !Starts(s, IsDigit)
    ensures ReadFraction(s, v, n) == (Scaled(v, n), s)
  {
    NumberEnd(s, v, n);
    hide Scaled, Taken;
  }

  lemma PowerStep(r: nat, n: nat)
    requires n > 0
    ensures Scaled(r * 10, n - 1) == Scaled(r, n)
  {
    assert r * 10 * Power10(n - 1) == r * (10 * Power10(n - 1));
  }

  lemma NothingScaled(v: nat)
    ensures Scaled(v, 0) == v
  {
  }
}
