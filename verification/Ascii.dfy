/** Character classes and runs of characters (Foundation/src/Ascii.cpp). */
module Ascii {

  predicate IsDigit(c: char) { '0' <= c <= '9' }

  predicate IsAlpha(c: char) { 'A' <= c <= 'Z' || 'a' <= c <= 'z' }

  predicate IsSpace(c: char) { c == ' ' || 9 as char <= c <= 13 as char }

  predicate IsPunct(c: char) { '!' <= c <= '/' || ':' <= c <= '@' || '[' <= c <= '`' || '{' <= c <= '~' }

  /** Every printed character but the space is a digit, a letter or a punctuation mark, and no other is. */
  lemma ClassesPartition(c: char)
    ensures IsDigit(c) <==> c in {'0', '1', '2', '3', '4', '5', '6', '7', '8', '9'}
    ensures IsSpace(c) <==> c in {' ', '\t', '\n', 11 as char, 12 as char, '\r'}
    ensures IsAlpha(c) <==> 0 < c as int % 32 <= 26 && c as int / 32 in {2, 3}
    ensures IsPunct(c) <==> 32 < c as int < 127 && !IsDigit(c) && !IsAlpha(c)
  {
  }

  /** How many leading characters satisfy p. */
  function Span(s: string, p: char -> bool): (n: nat)
    ensures n <= |s|
  {
    if s == "" || !p(s[0]) then 0 else 1 + Span(s[1..], p)
  }

  predicate Starts(s: string, p: char -> bool) {
    s != "" && p(s[0])
  }

  predicate StartsWith(s: string, c: char) {
    s != "" && s[0] == c
  }

  lemma {:induction false} SpanAll(a: string, b: string, p: char -> bool)
    requires forall i :: 0 <= i < |a| ==> p(a[i])
    requires b == "" || !p(b[0])
    ensures Span(a + b, p) == |a|
  {
    if a == "" {
      assert a + b == b;
    } else {
      assert (a + b)[1..] == a[1..] + b;
      SpanAll(a[1..], b, p);
    }
  }

  lemma {:induction false} SpanStops(s: string, p: char -> bool)
    ensures var n := Span(s, p); n < |s| ==> !p(s[n])
    ensures forall i :: 0 <= i < Span(s, p) ==> p(s[i])
  {
    if s != "" && p(s[0]) { SpanStops(s[1..], p); }
  }
}
