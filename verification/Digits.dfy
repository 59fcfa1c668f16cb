/** Decimal numbers as text: printing (Foundation/src/NumberFormatter.cpp) and the digit loops of Foundation/src/DateTimeParser.cpp. */
module Digits {
  import opened Ascii

  function Digit(d: nat): char
    requires d < 10
  {
    '0' + d as char
  }

  function DigitValue(c: char): nat
    requires IsDigit(c)
  {
    c as int - '0' as int
  }

  function Decimal(x: nat): (s: string)
    ensures s != ""
  {
    if x < 10 then [Digit(x)] else Decimal(x / 10) + [Digit(x % 10)]
  }

  function Repeat(c: char, n: nat): (s: string)
    ensures |s| == n
  {
    if n == 0 then "" else [c] + Repeat(c, n - 1)
  }

  /** format with a width, filled on the left. */
  function Padded(x: nat, width: nat, fill: char): string {
    var s := Decimal(x);
    if |s| < width then Repeat(fill, width - |s|) + s else s
  }

  predicate AllDigits(s: string) { forall i :: 0 <= i < |s| ==> IsDigit(s[i]) }

  /** A number read digit by digit, starting from v. */
  function ValueFrom(v: nat, s: string): nat
    requires AllDigits(s)
    decreases |s|
  {
    if s == "" then v else ValueFrom(10 * v + DigitValue(s[0]), s[1..])
  }

  lemma {:induction false} ValueSnoc(v: nat, s: string, c: char)
    requires AllDigits(s) && IsDigit(c)
    ensures ValueFrom(v, s + [c]) == 10 * ValueFrom(v, s) + DigitValue(c)
    decreases |s|
  {
    if s == "" {
      assert s + [c] == [c];
    } else {
      assert (s + [c])[1..] == s[1..] + [c];
      ValueSnoc(10 * v + DigitValue(s[0]), s[1..], c);
    }
  }

  /** Reading a printed number gives the number back. */
  lemma {:induction false} ValueOfDecimal(x: nat)
    ensures AllDigits(Decimal(x)) && ValueFrom(0, Decimal(x)) == x
  {
    if x >= 10 {
      ValueOfDecimal(x / 10);
      ValueSnoc(0, Decimal(x / 10), Digit(x % 10));
    } else {
      assert Decimal(x)[1..] == "";
    }
  }

  lemma DecimalLength(x: nat)
    ensures x < 10 ==> |Decimal(x)| == 1
    ensures x < 100 ==> |Decimal(x)| <= 2
    ensures x < 1000 ==> |Decimal(x)| <= 3
    ensures x < 10000 ==> |Decimal(x)| <= 4
    ensures x < 1000000 ==> |Decimal(x)| <= 6
  {
    if x >= 10 {
      assert |Decimal(x)| == |Decimal(x / 10)| + 1;
      DecimalLength(x / 10);
    }
  }

  lemma {:induction false} ValueOfZeros(n: nat, s: string)
    requires AllDigits(s)
    ensures AllDigits(Repeat('0', n) + s) && ValueFrom(0, Repeat('0', n) + s) == ValueFrom(0, s)
  {
    if n == 0 {
      assert Repeat('0', n) + s == s;
    } else {
      assert (Repeat('0', n) + s)[1..] == Repeat('0', n - 1) + s;
      ValueOfZeros(n - 1, s);
    }
  }

  lemma ZeroPadded(x: nat, width: nat)
    requires |Decimal(x)| <= width
    ensures var s := Padded(x, width, '0'); |s| == width && AllDigits(s) && ValueFrom(0, s) == x
  {
    ValueOfDecimal(x);
    ValueOfZeros(width - |Decimal(x)|, Decimal(x));
  }

  // ----- the macros of the parser -----

  predicate NotDigit(c: char) { !IsDigit(c) }

  function Drop(s: string, p: char -> bool): string {
    s[Span(s, p)..]
  }

  function Min(a: nat, b: nat): nat { if a < b then a else b }

  /** How many digits are read when at most n are wanted. */
  function Taken(s: string, n: nat): (k: nat)
    ensures k <= |s| && k <= n && AllDigits(s[..k])
  {
    SpanStops(s, IsDigit);
    Min(n, Span(s, IsDigit))
  }

  function ReadNumber(s: string, v: nat, n: nat): (nat, string) {
    (ValueFrom(v, s[..Taken(s, n)]), s[Taken(s, n)..])
  }

  function Power10(n: nat): nat { if n == 0 then 1 else 10 * Power10(n - 1) }

  /** A number with n zeros appended. */
  function Scaled(v: nat, n: nat): nat { v * Power10(n) }

  function ReadFraction(s: string, v: nat, n: nat): (nat, string) {
    (Scaled(ValueFrom(v, s[..Taken(s, n)]), n - Taken(s, n)), s[Taken(s, n)..])
  }

  /** A run of at most n digits that nothing prolongs is read as a whole. */
  lemma TakesAll(ds: string, after: string, n: nat)
    requires AllDigits(ds) && |ds| <= n && (|ds| == n || !Starts(after, IsDigit))
    ensures Taken(ds + after, n) == |ds| && (ds + after)[..|ds|] == ds && (ds + after)[|ds|..] == after
  {
    SpanAtLeast(ds, after);
    if !Starts(after, IsDigit) { SpanAll(ds, after, IsDigit); }
  }

  lemma {:induction false} SpanAtLeast(ds: string, after: string)
    requires AllDigits(ds)
    ensures Span(ds + after, IsDigit) >= |ds|
  {
    if ds != "" {
      assert (ds + after)[1..] == ds[1..] + after;
      SpanAtLeast(ds[1..], after);
    }
  }

  predicate NoDigits(s: string) { forall i :: 0 <= i < |s| ==> !IsDigit(s[i]) }

  /** Anything without digits in front of a number is skipped. */
  lemma SkipsJunk(junk: string, ds: string, after: string)
    requires NoDigits(junk) && ds != "" && AllDigits(ds)
    ensures Drop(junk + ds + after, NotDigit) == ds + after
  {
    assert junk + ds + after == junk + (ds + after);
    SpanAll(junk, ds + after, NotDigit);
  }

  /** A printed number is read back from behind any junk without digits. */
  lemma ReadsPadded(junk: string, x: nat, width: nat, fill: char, after: string, n: nat)
    requires NoDigits(junk) && (fill == '0' || fill == ' ') && |Decimal(x)| <= n && width <= n
    requires (fill == '0' && width == n) || |Decimal(x)| == n || !Starts(after, IsDigit)
    ensures ReadNumber(Drop(junk + Padded(x, width, fill) + after, NotDigit), 0, n) == (x, after)
    ensures Starts(Drop(junk + Padded(x, width, fill) + after, NotDigit), IsDigit)
  {
    var s := Decimal(x);
    ValueOfDecimal(x);
    if fill == '0' && |s| < width {
      ZeroPadded(x, width);
      SkipsJunk(junk, Padded(x, width, fill), after);
      TakesAll(Padded(x, width, fill), after, n);
    } else {
      var pad := Repeat(' ', if |s| < width then width - |s| else 0);
      Spaces(|pad|);
      assert junk + Padded(x, width, fill) + after == (junk + pad) + s + after;
      SkipsJunk(junk + pad, s, after);
      TakesAll(s, after, n);
    }
  }

  lemma {:induction false} Spaces(n: nat)
    ensures NoDigits(Repeat(' ', n))
  {
    if n > 0 { Spaces(n - 1); }
  }

  // ----- the fraction of a second -----

  lemma {:induction false} ValueSplit(v: nat, a: string, b: string)
    requires AllDigits(a) && AllDigits(b)
    ensures AllDigits(a + b) && ValueFrom(v, a + b) == ValueFrom(ValueFrom(v, a), b)
    decreases |a|
  {
    if a == "" {
      assert a + b == b;
    } else {
      assert (a + b)[1..] == a[1..] + b;
      ValueSplit(10 * v + DigitValue(a[0]), a[1..], b);
    }
  }

  lemma ThreeDigits(v: nat, s: string)
    requires |s| == 3 && AllDigits(s)
    ensures ValueFrom(v, s) == 1000 * v + ValueFrom(0, s) && ValueFrom(0, s) < 1000
  {
    assert s[1..][1..] == s[2..] && s[2..][1..] == "";
    assert s[1..][0] == s[1] && s[2..][0] == s[2];
    calc {
      ValueFrom(v, s);
      ValueFrom(10 * (10 * v + DigitValue(s[0])) + DigitValue(s[1]), s[2..]);
      10 * (10 * (10 * v + DigitValue(s[0])) + DigitValue(s[1])) + DigitValue(s[2]);
    }
    calc {
      ValueFrom(0, s);
      ValueFrom(10 * (10 * 0 + DigitValue(s[0])) + DigitValue(s[1]), s[2..]);
      10 * (10 * (10 * 0 + DigitValue(s[0])) + DigitValue(s[1])) + DigitValue(s[2]);
    }
  }

  /** Six printed digits of milli- and microseconds are read as three and three. */
  lemma ReadsFraction(millis: nat, micros: nat, after: string)
    requires millis < 1000 && micros < 1000
    ensures var s := Padded(millis * 1000 + micros, 6, '0') + after;
            var t := ReadFraction(s, 0, 3).1;
            ReadFraction(s, 0, 3).0 == millis && ReadFraction(t, 0, 3) == (micros, after)
  {
    var x := millis * 1000 + micros;
    DecimalLength(x);
    ZeroPadded(x, 6);
    var ds := Padded(x, 6, '0');
    var a, b := ds[..3], ds[3..];
    assert ds == a + b;
    ValueSplit(0, a, b);
    ThreeDigits(ValueFrom(0, a), b);
    assert ValueFrom(0, a) == millis && ValueFrom(0, b) == micros;
    assert ds + after == a + (b + after);
    TakesAll(a, b + after, 3);
    TakesAll(b, after, 3);
    assert Power10(0) == 1;
  }
}
