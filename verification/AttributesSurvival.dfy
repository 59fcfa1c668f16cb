/** Which attribute maps survive being printed and read back (CodeGeneration/src/Utility.cpp, writeAttributes;
    CppParser/src/Parser.cpp, nextToken; CppParser/src/AttributesParser.cpp). Quotes and backslashes are what reading cannot do
    without and printing does not supply: every value is weighed by those its token needs, and by those it is printed with. */
module AttributesSurvival {
  import opened Ascii
  import opened CppTokens
  import opened Wrappers
  import opened AttributesParser
  import opened AttributesPrinter

  // ----- weights -----

  predicate IsSpecial(c: char) { c == '"' || c == '\\' }

  function Specials(s: string): nat {
    if s == "" then 0 else (if IsSpecial(s[0]) then 1 else 0) + Specials(s[1..])
  }

  lemma {:induction false} SpecialsConcat(a: string, b: string)
    ensures Specials(a + b) == Specials(a) + Specials(b)
  {
    if a == "" {
      assert a + b == b;
    } else {
      assert (a + b)[1..] == a[1..] + b;
      SpecialsConcat(a[1..], b);
    }
  }

  lemma SpecialsSplit(s: string, i: nat)
    requires i <= |s|
    ensures Specials(s) == Specials(s[..i]) + Specials(s[i..])
  {
    assert s == s[..i] + s[i..];
    SpecialsConcat(s[..i], s[i..]);
  }

  lemma {:induction false} NoSpecials(s: string)
    ensures Specials(s) == 0 <==> forall i :: 0 <= i < |s| ==> !IsSpecial(s[i])
  {
    if s != "" {
      NoSpecials(s[1..]);
      assert s == [s[0]] + s[1..];
    }
  }

  predicate IsIntegerText(v: string) {
    v != "" && IsDigit(v[0]) && NumberEnd(v) == Some(Number(|v|, false))
  }

  /** The specials a token with this text as its value must have: none if it needs no quotes, else the quotes and an escape for
      each special in it. */
  function Needed(v: string): nat {
    if v == "" || IsIdentifier(v) || IsIntegerText(v) then 0 else 2 + 2 * Specials(v)
  }

  /** The specials the value is printed with, but for the quotes around an identifier with a dollar sign. */
  function Supplied(v: string): nat {
    if v == "" || IsIdentifier(v) then 0 else Specials(v) + if MustQuote(v) then 2 else 0
  }

  // ----- one token -----

  lemma {:induction false} LiteralWeight(s: string, i: nat)
    requires i <= |s| && LiteralEnd(s, '"', i).Some?
    ensures Specials(s[i..LiteralEnd(s, '"', i).value]) >= 1 + 2 * Specials(Unescaped(s[i..LiteralEnd(s, '"', i).value]))
    decreases |s| - i
  {
    var end := LiteralEnd(s, '"', i).value;
    var t := s[i..end];
    if s[i] == '"' {
      assert t == "\"";
    } else if s[i] != '\\' {
      LiteralWeight(s, i + 1);
      assert t[1..] == s[i + 1..end];
      PrependSpecials(s[i], Unescaped(t[1..]));
    } else {
      LiteralWeight(s, i + 2);
      assert t[1..][1..] == t[2..] == s[i + 2..end];
      PrependSpecials(s[i + 1], Unescaped(t[2..]));
    }
  }

  lemma PrependSpecials(c: char, s: string)
    ensures Specials([c] + s) == (if IsSpecial(c) then 1 else 0) + Specials(s)
  {
    assert ([c] + s)[1..] == s;
  }

  lemma {:induction false} SpanOfPrefix(s: string, p: char -> bool, n: nat)
    requires n <= |s|
    ensures Span(s[..n], p) == if Span(s, p) < n then Span(s, p) else n
  {
    if n > 0 && p(s[0]) {
      assert s[..n][1..] == s[1..][..n - 1];
      SpanOfPrefix(s[1..], p, n - 1);
    }
  }

  lemma SpanOfSlice(s: string, p: char -> bool, i: nat, n: nat)
    requires i <= n <= |s|
    ensures s[..n][i..] == s[i..n] == s[i..][..n - i]
    ensures Span(s[..n][i..], p) == if Span(s[i..], p) < n - i then Span(s[i..], p) else n - i
  {
    SpanOfPrefix(s[i..], p, n - i);
  }

  lemma FractionIsInteger(s: string, i: nat)
    requires 1 <= i <= |s| && FractionEnd(s, i, false).Some? && !FractionEnd(s, i, false).value.isFloat
    ensures var j := i + Span(s[i..], IsDigit);
            !StartsWith(s[j..], 'e') && !StartsWith(s[j..], 'E') &&
            FractionEnd(s, i, false).value.end == j + Span(s[j..], IsIntegerSuffix)
  {
  }

  /** An integer literal cut out of a text is one by itself. */
  lemma IntegerAlone(s: string, end: nat)
    requires s != "" && IsDigit(s[0]) && NumberEnd(s) == Some(Number(end, false))
    ensures IsIntegerText(s[..end])
  {
    var v := s[..end];
    hide Span, FractionEnd;
    assert v[1..] == s[1..end];
    if StartsWith(s[1..], 'x') {
      SpanOfSlice(s, IsHex, 2, end);
      var h := 2 + Span(s[2..], IsHex);
      SpanOfSlice(s, IsIntegerSuffix, h, end);
      assert StartsWith(v[1..], 'x');
    } else {
      DecimalAlone(s, end);
    }
  }

  lemma FractionIsFloat(s: string, i: nat)
    requires 1 <= i <= |s|
    ensures FractionEnd(s, i, true).Some? ==> FractionEnd(s, i, true).value.isFloat
  {
  }

  /** Without a period, or before two of them, a decimal number goes on as an integer. */
  lemma PointIsNoInteger(s: string)
    requires s != "" && IsDigit(s[0]) && !StartsWith(s[1..], 'x')
    ensures NumberEnd(s).Some? && !NumberEnd(s).value.isFloat ==> NumberEnd(s) == FractionEnd(s, 1 + Span(s[1..], IsDigit), false)
  {
    var d: nat := 1 + Span(s[1..], IsDigit);
    var e: nat := if d < |s| then d + 1 else d;
    FractionIsFloat(s, e);
    hide FractionEnd, Span;
    assert StartsWith(s[d..], '.') ==> d < |s|;
  }

  lemma DecimalAlone(s: string, end: nat)
    requires s != "" && IsDigit(s[0]) && NumberEnd(s) == Some(Number(end, false)) && !StartsWith(s[1..], 'x')
    ensures IsIntegerText(s[..end])
  {
    var v := s[..end];
    hide Span, FractionEnd;
    var d := 1 + Span(s[1..], IsDigit);
    PointIsNoInteger(s);
    SpanStops(s[1..], IsDigit);
    assert d < |s| ==> s[1..][d - 1] == s[d];
    DigitsEnd(s, d);
    FractionIsInteger(s, d);
    SpanOfSlice(s, IsDigit, 1, end);
    SpanOfSlice(s, IsDigit, d, end);
    SpanOfSlice(s, IsIntegerSuffix, d, end);
    SuffixAlone(v, d);
  }

  lemma DigitsEnd(s: string, d: nat)
    requires d <= |s| && (d < |s| ==> !IsDigit(s[d]))
    ensures Span(s[d..], IsDigit) == 0
  {
  }

  /** Digits and an integer suffix. */
  lemma SuffixAlone(v: string, d: nat)
    requires v != "" && 1 <= d <= |v| && !StartsWith(v[1..], 'x') && IsDigit(v[0])
    requires d == 1 + Span(v[1..], IsDigit) && Span(v[d..], IsDigit) == 0 && Span(v[d..], IsIntegerSuffix) == |v| - d
    ensures NumberEnd(v) == Some(Number(|v|, false))
  {
    assert d < |v| ==> v[d..][0] == v[d] && IsIntegerSuffix(v[d]);
  }

  lemma IntegerIsWord(v: string)
    requires IsIntegerText(v)
    ensures AllWord(v)
  {
    if StartsWith(v[1..], 'x') {
      SpanStops(v[2..], IsHex);
      var h := 2 + Span(v[2..], IsHex);
      SpanStops(v[h..], IsIntegerSuffix);
      forall i | 0 <= i < |v| ensures IsWord(v[i]) {
        if i == 1 { assert v[1..][0] == v[1]; }
        if 2 <= i < h { assert v[2..][i - 2] == v[i]; }
        if h <= i { assert v[h..][i - h] == v[i]; }
      }
    } else {
      DecimalIsWord(v);
    }
  }

  lemma DecimalIsWord(v: string)
    requires IsIntegerText(v) && !StartsWith(v[1..], 'x')
    ensures AllWord(v)
  {
    hide FractionEnd;
    var d := 1 + Span(v[1..], IsDigit);
    SpanStops(v[1..], IsDigit);
    PointIsNoInteger(v);
    assert d < |v| ==> v[1..][d - 1] == v[d];
    DigitsEnd(v, d);
    FractionIsInteger(v, d);
    SpanStops(v[d..], IsIntegerSuffix);
    forall i | 0 <= i < |v| ensures IsWord(v[i]) {
      if 1 <= i < d { assert v[1..][i - 1] == v[i]; }
      if d <= i { assert v[d..][i - d] == v[i]; }
    }
  }

  lemma LiteralNeeds(s: string, end: nat)
    requires s != "" && s[0] == '"' && LiteralEnd(s, '"', 1) == Some(end)
    ensures Needed(AsString(StringLiteral(s[..end]))) <= Specials(s[..end])
    ensures OneLine(s) ==> OneLine(AsString(StringLiteral(s[..end])))
  {
    var text := s[..end];
    LiteralWeight(s, 1);
    assert text[1..] == s[1..end];
    assert Specials(text) == 1 + Specials(text[1..]);
    assert AsString(StringLiteral(text)) == Unescaped(text[1..]);
    hide LiteralEnd, Unescaped, Specials, NumberEnd, IsIdentifier, AsString;
    if OneLine(s) { UnescapedInLine(text[1..]); }
  }

  lemma {:induction false} UnescapedInLine(s: string)
    requires OneLine(s)
    ensures OneLine(Unescaped(s))
    decreases |s|
  {
    if s != "" && s[0] != '"' {
      if s[0] != '\\' { UnescapedInLine(s[1..]); } else if |s| > 1 { UnescapedInLine(s[2..]); }
    }
  }

  lemma IntegerNeeds(v: string)
    requires IsIntegerText(v)
    ensures Needed(v) == 0 && AsString(Integer(v)) == v
  {
  }

  lemma NameAtFront(s: string)
    requires s != "" && IsIdentifierStart(s[0])
    ensures var end := 1 + Span(s[1..], IsIdentifierPart); Lex(s) == Lexed(Identifier(s[..end]), s[end..]) && IsIdentifier(s[..end])
  {
    LexIdentifier(s);
    hide Lex;
    var end := 1 + Span(s[1..], IsIdentifierPart);
    SpanStops(s[1..], IsIdentifierPart);
    forall i | 0 <= i < end ensures IsIdentifierPart(s[..end][i]) {
      if i > 0 { assert s[..end][i] == s[1..][i - 1]; }
    }
  }

  /** Tokens other than names, strings and numbers are no values. */
  lemma OtherIsNoValue(s: string)
    requires s != "" && !IsSpace(s[0]) && !IsIdentifierStart(s[0]) && s[0] != '"' && !IsDigit(s[0])
    ensures var l := Lex(s); l.token == Bad || (!IsValue(l.token) && |l.rest| <= |s| && l.rest == s[|s| - |l.rest|..])
  {
    LexIsHere(s);
    OtherHere(s);
    hide Lex, LexHere;
  }

  lemma OtherHere(s: string)
    requires s != "" && !IsIdentifierStart(s[0]) && s[0] != '"' && !IsDigit(s[0])
    ensures var l := LexHere(s); l.token == Bad || (!IsValue(l.token) && |l.rest| <= |s| && l.rest == s[|s| - |l.rest|..])
  {
    if IsNumberStart(s) { PointIsFloat(s); }
    hide IsOperatorStart, OperatorEnd, LiteralEnd, NumberEnd, CommentEnd, DirectiveEnd, Span, IsCommentStart, IsNumberStart,
      IsIdentifierStart, IsDigit;
  }

  lemma LexIsHere(s: string)
    requires s != "" && !IsSpace(s[0])
    ensures Lex(s) == LexHere(s)
  {
    hide LexHere;
  }

  lemma PointIsFloat(s: string)
    requires s != "" && IsNumberStart(s) && !IsDigit(s[0])
    ensures NumberEnd(s).Some? ==> NumberEnd(s).value.isFloat
  {
    FractionIsFloat(s, 2);
  }

  /** Names are identifiers, and values have no line ends. */
  predicate Fine(t: Token) {
    (t.Identifier? ==> IsIdentifier(t.text)) && (IsValue(t) ==> OneLine(AsString(t)))
  }

  /** The first token of a text without line ends. */
  lemma {:induction false} FirstIsFine(s: string)
    requires OneLine(s)
    ensures var l := Lex(s); l.token == Bad || (Fine(l.token) && OneLine(l.rest))
    decreases |s|
  {
    hide Lex, IsIdentifier, NumberEnd, LiteralEnd;
    if s == "" {
      LexNothing();
    } else if IsSpace(s[0]) {
      assert s == [s[0]] + s[1..];
      LexSpace(s[0], s[1..]);
      FirstIsFine(s[1..]);
    } else if IsIdentifierStart(s[0]) {
      NameAtFront(s);
    } else if s[0] == '"' {
      LexLiteral(s);
      var end := LiteralEnd(s, '"', 1);
      if end.Some? { LiteralNeeds(s, end.value); }
    } else if IsDigit(s[0]) {
      LexDigits(s);
    } else {
      OtherIsNoValue(s);
    }
  }

  lemma LexNothing()
    ensures Lex("") == Lexed(Eof, "")
  {
  }

  // ----- all tokens -----

  function Weight(toks: seq<Token>): nat {
    if toks == [] then 0 else (if IsValue(toks[0]) then Needed(AsString(toks[0])) else 0) + Weight(toks[1..])
  }

  predicate AllFine(toks: seq<Token>) {
    forall t :: t in toks ==> Fine(t)
  }

  lemma {:induction false} TokensAreFine(s: string)
    requires OneLine(s)
    ensures AllFine(Tokens(s))
    decreases |s|
  {
    FirstIsFine(s);
    hide Lex, AsString, IsIdentifier;
    var l := Lex(s);
    if l.token != Eof && l.token != Bad { TokensAreFine(l.rest); }
  }

  // ----- quoted identifiers -----

  /** An identifier with a quote behind it. */
  predicate ClosesName(s: string) {
    s != "" && IsIdentifierStart(s[0]) && StartsWith(s[Span(s, IsIdentifierPart)..], '"')
  }

  /** An identifier in quotes behind an equals sign, as identifiers with a dollar sign are printed. The quotes are not needed. */
  predicate AtQuotedName(s: string) {
    |s| >= 2 && s[0] == '=' && s[1] == '"' && ClosesName(s[2..])
  }

  function AfterQuotedName(s: string): (r: string)
    requires AtQuotedName(s)
    ensures |r| < |s|
  {
    s[3 + Span(s[2..], IsIdentifierPart)..]
  }

  /** The specials of a text other than the quotes around such identifiers. */
  function Loose(s: string): nat
    decreases |s|
  {
    if s == "" then 0
    else if AtQuotedName(s) then Loose(AfterQuotedName(s))
    else (if IsSpecial(s[0]) then 1 else 0) + Loose(s[1..])
  }

  lemma {:induction false} LooseSkips(s: string, n: nat)
    requires n <= |s| && '=' !in s[..n]
    ensures Loose(s) == Specials(s[..n]) + Loose(s[n..])
    decreases n
  {
    if n > 0 {
      assert s[..n][0] == s[0] && s[..n][1..] == s[1..][..n - 1] && s[1..][n - 1..] == s[n..];
      LooseSkips(s[1..], n - 1);
    } else {
      assert s[..0] == "" && s[0..] == s;
    }
  }

  lemma NameHasNoEquals(s: string)
    requires ClosesName(s)
    ensures '=' !in s[..Span(s, IsIdentifierPart) + 1]
  {
    SpanStops(s, IsIdentifierPart);
  }

  lemma {:induction false} LooseConcat(a: string, b: string)
    ensures Loose(a + b) <= Specials(a) + Loose(b)
    decreases |a|
  {
    var s := a + b;
    if a == "" {
      assert s == b;
    } else if AtQuotedName(s) {
      var n := 3 + Span(s[2..], IsIdentifierPart);
      NameHasNoEquals(s[2..]);
      if n <= |a| {
        assert s[n..] == a[n..] + b;
        SpecialsSplit(a, n);
        LooseConcat(a[n..], b);
      } else {
        var j := n - |a|;
        assert s[n..] == b[j..];
        forall i | 0 <= i < j && |a| + i >= 2 ensures b[i] != '=' { assert b[i] == s[2..][..n - 2][|a| + i - 2]; }
        if |a| == 1 { assert b[0] == s[1]; }
        LooseSkips(b, j);
      }
    } else {
      assert s[1..] == a[1..] + b;
      LooseConcat(a[1..], b);
    }
  }

  /** A literal that ends where no such identifier begins. */
  lemma {:induction false} LiteralLoose(s: string, i: nat)
    requires i <= |s| && LiteralEnd(s, '"', i).Some? && !ClosesName(s[LiteralEnd(s, '"', i).value..])
    ensures var end := LiteralEnd(s, '"', i).value; Loose(s[i..]) == Specials(s[i..end]) + Loose(s[end..])
    decreases |s| - i
  {
    var end := LiteralEnd(s, '"', i).value;
    assert s[i..][1..] == s[i + 1..] && s[i..end][1..] == s[i + 1..end];
    if s[i] == '"' {
      assert !AtQuotedName(s[i..]);
      assert s[i + 1..end] == "";
    } else if s[i] != '\\' {
      NoQuotedName(s, i);
      LiteralLoose(s, i + 1);
    } else {
      assert !AtQuotedName(s[i..]);
      assert s[i + 1..][1..] == s[i + 2..] && s[i + 1..end][1..] == s[i + 2..end];
      NoQuotedName(s, i + 1);
      LiteralLoose(s, i + 2);
    }
  }

  lemma NoQuotedName(s: string, i: nat)
    requires i < |s| && LiteralEnd(s, '"', i + 1).Some? && !ClosesName(s[LiteralEnd(s, '"', i + 1).value..])
    ensures !AtQuotedName(s[i..])
  {
    if AtQuotedName(s[i..]) { QuotedNameAt(s, i); }
  }

  lemma QuotedNameAt(s: string, i: nat)
    requires i < |s| && AtQuotedName(s[i..])
    ensures i + 1 < |s| && s[i + 1] == '"' && ClosesName(s[i + 2..])
  {
    assert s[i..][1] == s[i + 1] && s[i..][2..] == s[i + 2..];
  }

  // ----- what the parser accepts -----

  predicate Usable(t: Token) {
    IsValue(t) || (t.Operator? && t.text in ["=", ".", ",", "{", "}"])
  }

  /** Tokens of declarations; no string stands right behind a name. */
  predicate Grammatical(toks: seq<Token>) {
    toks == [] || (Usable(toks[0]) && (toks[0].Identifier? ==> !Head(toks[1..]).StringLiteral?) && Grammatical(toks[1..]))
  }

  predicate Behind(after: seq<Token>) {
    Grammatical(after) && !Head(after).StringLiteral?
  }

  lemma GrammaticalStep(t: Token, after: seq<Token>)
    requires Usable(t) && Grammatical(after) && (t.Identifier? ==> !Head(after).StringLiteral?)
    ensures Grammatical([t] + after) && Head([t] + after) == t
  {
    assert ([t] + after)[1..] == after;
  }

  lemma GrammaticalTwo(a: Token, b: Token, after: seq<Token>)
    requires Usable(a) && Usable(b) && !a.Identifier? && Behind(after)
    ensures Grammatical([a, b] + after) && Head([a, b] + after) == a
  {
    GrammaticalStep(b, after);
    GrammaticalStep(a, [b] + after);
    assert [a, b] + after == [a] + ([b] + after);
  }

  lemma {:induction false} DotsGrammatical(path: seq<string>, after: seq<Token>)
    requires Behind(after)
    ensures Behind(DotsWritten(path, after))
  {
    if path != [] {
      DotsGrammatical(path[1..], after);
      GrammaticalTwo(Operator("."), Identifier(path[0]), DotsWritten(path[1..], after));
    }
  }

  lemma PathGrammatical(path: seq<string>, after: seq<Token>)
    requires path != [] && Behind(after)
    ensures Behind(PathWritten(path, after))
  {
    DotsGrammatical(path[1..], after);
    GrammaticalStep(Identifier(path[0]), DotsWritten(path[1..], after));
  }

  lemma {:induction false} AttributeGrammatical(a: Attribute, after: seq<Token>)
    requires Sound(a) && Behind(after)
    ensures Behind(Written(a, after))
    decreases a, 0
  {
    hide Grammatical;
    match a
    case Flag(path) =>
      PathGrammatical(path, after);
    case Valued(path, token) =>
      GrammaticalTwo(Operator("="), token, after);
      PathGrammatical(path, [Operator("="), token] + after);
    case Complex(path, inner) =>
      GrammaticalStep(Operator("}"), after);
      ListGrammatical(inner, [Operator("}")] + after);
      GrammaticalTwo(Operator("="), Operator("{"), ListWritten(inner, [Operator("}")] + after));
      PathGrammatical(path, [Operator("="), Operator("{")] + ListWritten(inner, [Operator("}")] + after));
  }

  lemma {:induction false} ListGrammatical(l: List, after: seq<Token>)
    requires SoundList(l) && Behind(after)
    ensures Behind(ListWritten(l, after))
    decreases l, 1
  {
    hide Grammatical;
    match l
    case One(first) =>
      AttributeGrammatical(first, after);
    case More(first, comma, others) =>
      ListGrammatical(others, after);
      var inner := ListWritten(others, after);
      GrammaticalStep(Operator(","), inner);
      assert [] + inner == inner;
      AttributeGrammatical(first, (if comma then [Operator(",")] else []) + inner);
  }

  lemma NoNameCloses(s: string)
    requires Grammatical(Tokens(s))
    ensures !ClosesName(s)
  {
    if ClosesName(s) { NameThenString(s); }
  }

  lemma NameThenString(s: string)
    requires ClosesName(s)
    ensures !Grammatical(Tokens(s))
  {
    LexIdentifier(s);
    assert Span(s, IsIdentifierPart) == 1 + Span(s[1..], IsIdentifierPart);
    var rest := Lex(s).rest;
    LexLiteral(rest);
    hide Lex, LiteralEnd, Span;
    OneMoreToken(s, Lex(s).token, rest);
    assert ([Lex(s).token] + Tokens(rest))[1..] == Tokens(rest);
    assert Head(Tokens(rest)).StringLiteral? || Tokens(rest) == [Bad];
  }

  lemma BadIsNotGrammatical(s: string)
    requires Lex(s).token == Bad
    ensures !Grammatical(Tokens(s))
  {
    hide Lex;
  }

  lemma OtherIsOperator(s: string)
    requires s != "" && !IsSpace(s[0]) && !IsIdentifierStart(s[0]) && s[0] != '"' && !IsDigit(s[0]) && Usable(Lex(s).token)
    ensures Lex(s).token.Operator? && |Lex(s).token.text| <= |s|
    ensures Lex(s).token.text == s[..|Lex(s).token.text|] && Lex(s).rest == s[|Lex(s).token.text|..]
  {
    OtherIsNoValue(s);
    hide OperatorEnd, LiteralEnd, NumberEnd, CommentEnd, DirectiveEnd, Span, IsCommentStart, IsNumberStart, IsIdentifierStart,
      IsSpace, IsDigit;
    assert Lex(s) == LexHere(s);
    hide Lex;
  }

  /** The tokens of an accepted text need no more specials than it has, the quotes around identifiers not counted. */
  lemma {:induction false} TokensWeight(s: string)
    requires Grammatical(Tokens(s))
    ensures Weight(Tokens(s)) <= Loose(s)
    decreases |s|
  {
    hide Tokens, Grammatical, Weight, Lex, Needed, AtQuotedName, AfterQuotedName, Specials;
    if s == "" {
      EmptyTokens();
    } else if AtQuotedName(s) {
      QuotedNameTokens(s);
      TokensWeight(AfterQuotedName(s));
    } else if IsSpace(s[0]) {
      assert s == [s[0]] + s[1..];
      LexSpace(s[0], s[1..]);
      SameTokens(s, s[1..]);
      TokensWeight(s[1..]);
      LooseSkips(s, 1);
    } else {
      FirstToken(s);
      var l := Lex(s);
      TokensWeight(l.rest);
      NoNameCloses(l.rest);
      TokenLoose(s);
    }
  }

  lemma EmptyTokens()
    ensures Weight(Tokens("")) == 0
  {
  }

  lemma SameTokens(s: string, t: string)
    requires Lex(s) == Lex(t)
    ensures Tokens(s) == Tokens(t)
  {
  }

  lemma FirstToken(s: string)
    requires s != "" && !IsSpace(s[0]) && Grammatical(Tokens(s))
    ensures var l := Lex(s);
            Usable(l.token) && |l.rest| < |s| && Grammatical(Tokens(l.rest)) &&
            Weight(Tokens(s)) == (if IsValue(l.token) then Needed(AsString(l.token)) else 0) + Weight(Tokens(l.rest))
  {
    var l := Lex(s);
    assert l.token != Eof by { hide LexHere; }
    hide Lex, Needed, AsString;
    if l.token == Bad {
      BadIsNotGrammatical(s);
    } else {
      OneMoreToken(s, l.token, l.rest);
      assert ([l.token] + Tokens(l.rest))[1..] == Tokens(l.rest);
    }
  }

  /** One token of an accepted text: what it needs is in the text in front of the rest. */
  lemma TokenLoose(s: string)
    requires s != "" && !IsSpace(s[0]) && Usable(Lex(s).token) && !ClosesName(Lex(s).rest) && !AtQuotedName(s)
    ensures var l := Lex(s); Loose(s) >= (if IsValue(l.token) then Needed(AsString(l.token)) else 0) + Loose(l.rest)
  {
    hide Lex, Loose, AsString, Needed, AtQuotedName;
    if IsIdentifierStart(s[0]) {
      NameLoose(s);
    } else if s[0] == '"' {
      StringLoose(s);
    } else if IsDigit(s[0]) {
      IntegerLoose(s);
    } else {
      OtherIsOperator(s);
      OperatorLoose(s, |Lex(s).token.text|);
    }
  }

  lemma NameLoose(s: string)
    requires s != "" && IsIdentifierStart(s[0])
    ensures var l := Lex(s); Loose(s) >= Needed(AsString(l.token)) + Loose(l.rest)
  {
    NameAtFront(s);
    var end := 1 + Span(s[1..], IsIdentifierPart);
    hide Lex, Span, Specials, Loose, NumberEnd;
    assert Needed(s[..end]) == 0;
    hide Needed, IsIdentifier;
    NoEquals(s[..end]);
    LooseSkips(s, end);
  }

  lemma NoEquals(v: string)
    requires IsIdentifier(v)
    ensures '=' !in v
  {
    assert !IsIdentifierPart('=');
  }

  lemma StringLoose(s: string)
    requires s != "" && s[0] == '"' && Usable(Lex(s).token) && !ClosesName(Lex(s).rest)
    ensures var l := Lex(s); Loose(s) >= Needed(AsString(l.token)) + Loose(l.rest)
  {
    LexLiteral(s);
    var end := LiteralEnd(s, '"', 1).value;
    LiteralNeeds(s, end);
    LiteralLoose(s, 1);
    hide Lex, LiteralEnd, Needed, AsString, Loose;
    LooseSkips(s, 1);
    SpecialsSplit(s[..end], 1);
    assert s[..end][..1] == s[..1] && s[..end][1..] == s[1..end];
  }

  lemma IntegerLoose(s: string)
    requires s != "" && IsDigit(s[0]) && Usable(Lex(s).token)
    ensures var l := Lex(s); Loose(s) >= Needed(AsString(l.token)) + Loose(l.rest)
  {
    LexDigits(s);
    var n := NumberEnd(s).value;
    IntegerAlone(s, n.end);
    IntegerNeeds(s[..n.end]);
    IntegerIsWord(s[..n.end]);
    hide Lex, NumberEnd, Needed, Loose, Specials;
    assert '=' !in s[..n.end] by { assert forall i :: 0 <= i < n.end ==> IsWord(s[..n.end][i]); }
    LooseSkips(s, n.end);
  }

  lemma OperatorLoose(s: string, end: nat)
    requires s != "" && end <= |s| && s[..end] in ["=", ".", ",", "{", "}"] && !AtQuotedName(s)
    ensures Loose(s) == Loose(s[end..])
  {
    assert end == 1 && s[..1] == [s[0]];
  }

  /** A quoted identifier behind an equals sign needs nothing and is not counted. */
  lemma QuotedNameTokens(s: string)
    requires AtQuotedName(s) && Grammatical(Tokens(s))
    ensures Weight(Tokens(s)) == Weight(Tokens(AfterQuotedName(s))) && Grammatical(Tokens(AfterQuotedName(s)))
  {
    var after := AfterQuotedName(s);
    var v := QuotedNameOf(s);
    var value := "\"" + v + "\"" + after;
    var token := StringLiteral("\"" + v + "\"");
    IdentifierIsPlain(v);
    hide *;
    LexAssign(value);
    LexQuoted(v, after);
    QuotedIdentifier(v);
    OneMoreToken(s, Operator("="), value);
    OneMoreToken(value, token, after);
    TwoTokens(Operator("="), token, Tokens(after));
  }

  lemma QuotedNameOf(s: string) returns (v: string)
    requires AtQuotedName(s)
    ensures IsIdentifier(v) && s == "=" + ("\"" + v + "\"" + AfterQuotedName(s))
  {
    var k := Span(s[2..], IsIdentifierPart);
    v := s[2..][..k];
    SpanStops(s[2..], IsIdentifierPart);
    assert v[0] == s[2..][0];
    assert IsIdentifier(v);
    hide Span, IsIdentifier, ClosesName;
    SplitsAround(s, k);
  }

  lemma SplitsAround(s: string, k: nat)
    requires 3 + k <= |s| && s[0] == '=' && s[1] == '"' && s[2..][k..][0] == '"'
    ensures s == "=" + ("\"" + s[2..][..k] + "\"" + s[3 + k..])
  {
    var t := s[2..];
    assert t == t[..k] + "\"" + s[3 + k..];
    assert "=" + ("\"" + t[..k] + "\"" + s[3 + k..]) == "=\"" + t;
  }

  lemma IdentifierIsPlain(v: string)
    requires IsIdentifier(v)
    ensures NothingSpecial(v)
  {
    forall i | 0 <= i < |v| ensures v[i] != '"' && v[i] != '\\' && InLine(v[i]) { assert IsIdentifierPart(v[i]); }
  }

  lemma QuotedIdentifier(v: string)
    requires IsIdentifier(v) && NothingSpecial(v)
    ensures var t := StringLiteral("\"" + v + "\""); AsString(t) == v && Needed(AsString(t)) == 0
  {
    UnescapedPlain(v);
    assert ("\"" + v + "\"")[1..] == v + "\"";
  }

  lemma TwoTokens(a: Token, b: Token, after: seq<Token>)
    ensures Grammatical([a] + ([b] + after)) ==> Grammatical(after)
    ensures Weight([a] + ([b] + after)) ==
            (if IsValue(a) then Needed(AsString(a)) else 0) + (if IsValue(b) then Needed(AsString(b)) else 0) + Weight(after)
  {
    hide Needed, AsString, Usable;
    var y := [b] + after;
    var x := [a] + y;
    assert x[1..] == y && y[1..] == after;
    assert Grammatical(x) ==> Grammatical(y);
    assert Grammatical(y) ==> Grammatical(after);
  }

  // ----- what is declared -----

  function ValuesWeight(values: seq<Entry>): nat {
    if values == [] then 0 else Needed(values[0].1) + ValuesWeight(values[1..])
  }

  lemma {:induction false} ValuesConcat(a: seq<Entry>, b: seq<Entry>)
    ensures ValuesWeight(a + b) == ValuesWeight(a) + ValuesWeight(b)
  {
    if a == [] {
      assert a + b == b;
    } else {
      assert (a + b)[1..] == a[1..] + b;
      ValuesConcat(a[1..], b);
    }
  }

  lemma WeightOfTwo(a: Token, b: Token, after: seq<Token>)
    ensures Weight([a, b] + after) ==
            (if IsValue(a) then Needed(AsString(a)) else 0) + (if IsValue(b) then Needed(AsString(b)) else 0) + Weight(after)
    ensures Weight([a] + after) == (if IsValue(a) then Needed(AsString(a)) else 0) + Weight(after)
  {
    assert ([a, b] + after)[1..] == [b] + after && ([b] + after)[1..] == after && ([a] + after)[1..] == after;
  }

  lemma {:induction false} DotsWeight(path: seq<string>, after: seq<Token>)
    ensures Weight(DotsWritten(path, after)) >= Weight(after)
  {
    if path != [] {
      DotsWeight(path[1..], after);
      WeightOfTwo(Operator("."), Identifier(path[0]), DotsWritten(path[1..], after));
    }
  }

  lemma PathWeight(path: seq<string>, after: seq<Token>)
    requires path != []
    ensures Weight(PathWritten(path, after)) >= Weight(after)
  {
    DotsWeight(path[1..], after);
    WeightOfTwo(Identifier(path[0]), Bad, DotsWritten(path[1..], after));
  }

  /** A declaration is written with what its values need. */
  lemma {:induction false} AttributeWeight(id: string, a: Attribute, after: seq<Token>)
    requires Sound(a)
    ensures Weight(Written(a, after)) >= ValuesWeight(Flattened(id, a)) + Weight(after)
    decreases a, 0
  {
    hide Needed, AsString, Dotted;
    var name := Qualified(id, Name(a.path));
    NoWeight(name);
    match a
    case Flag(path) =>
      PathWeight(path, after);
    case Valued(path, token) =>
      PathWeight(path, [Operator("="), token] + after);
      WeightOfTwo(Operator("="), token, after);
      assert [(name, AsString(token))][1..] == [];
    case Complex(path, inner) =>
      var end := [Operator("}")] + after;
      PathWeight(path, [Operator("="), Operator("{")] + ListWritten(inner, end));
      WeightOfTwo(Operator("="), Operator("{"), ListWritten(inner, end));
      ListWeight(name, inner, end);
      WeightOfTwo(Operator("}"), Bad, after);
      ValuesConcat(FlattenedList(name, inner), [(name, "")]);
  }

  lemma NoWeight(name: string)
    ensures ValuesWeight([(name, "")]) == 0
  {
    assert [(name, "")][1..] == [];
  }

  lemma {:induction false} ListWeight(id: string, l: List, after: seq<Token>)
    requires SoundList(l)
    ensures Weight(ListWritten(l, after)) >= ValuesWeight(FlattenedList(id, l)) + Weight(after)
    decreases l, 1
  {
    hide Needed, AsString, Dotted;
    match l
    case One(first) =>
      AttributeWeight(id, first, after);
      assert Flattened(id, first) + [] == Flattened(id, first);
    case More(first, comma, others) =>
      ListWeight(id, others, after);
      WeightOfTwo(Operator(","), Bad, ListWritten(others, after));
      var next := (if comma then [Operator(",")] else []) + ListWritten(others, after);
      assert !comma ==> next == ListWritten(others, after);
      AttributeWeight(id, first, next);
      ValuesConcat(Flattened(id, first), FlattenedList(id, others));
  }

  // ----- names and values that can be declared -----

  predicate FineEntry(e: Entry) { DottedName(e.0) && OneLine(e.1) }

  predicate FineEntries(values: seq<Entry>) {
    forall e :: e in values ==> FineEntry(e)
  }

  lemma OneMorePart(part: string, name: string)
    requires IsIdentifier(part) && DottedName(name)
    ensures DottedName(part + ("." + name))
  {
    var s := part + ("." + name);
    assert forall i :: 0 <= i < |part| ==> IsIdentifierPart(part[i]);
    SpanAll(part, "." + name, NoDot);
    hide Span;
    assert s[..|part|] == part && s[|part| + 1..] == name;
  }

  lemma {:induction false} DottedWith(a: string, b: string)
    requires DottedName(a) && DottedName(b)
    ensures DottedName(a + ("." + b))
    decreases |a|
  {
    var k := Span(a, NoDot);
    SpanStops(a, NoDot);
    var part := a[..k];
    hide Span, IsIdentifier, NoDot;
    if k == |a| {
      hide DottedName;
      OneMorePart(a, b);
    } else {
      var rest := a[k + 1..];
      DottedWith(rest, b);
      assert a + ("." + b) == part + ("." + (rest + ("." + b)));
      OneMorePart(part, rest + ("." + b));
      hide DottedName;
    }
  }

  lemma IdentifierIsDotted(s: string)
    requires IsIdentifier(s)
    ensures DottedName(s)
  {
    forall i | 0 <= i < |s| ensures NoDot(s[i]) { assert IsIdentifierPart(s[i]); }
    assert s + "" == s;
    SpanAll(s, "", NoDot);
    assert s[..|s|] == s;
  }

  predicate Identifiers(path: seq<string>) {
    forall p :: p in path ==> IsIdentifier(p)
  }

  lemma {:induction false} PathIsDotted(path: seq<string>)
    requires path != [] && Identifiers(path)
    ensures DottedName(Name(path))
  {
    hide DottedName, IsIdentifier;
    IdentifierIsDotted(path[0]);
    if |path| == 1 {
      assert Dotted(path[1..]) == "";
      assert Name(path) == path[0];
    } else {
      PathIsDotted(path[1..]);
      NameStep(path[0], path[1..]);
      assert [path[0]] + path[1..] == path;
      DottedWith(path[0], Name(path[1..]));
    }
  }

  lemma {:induction false} FineDots(path: seq<string>, after: seq<Token>)
    requires AllFine(DotsWritten(path, after))
    ensures Identifiers(path) && AllFine(after)
  {
    hide IsIdentifier;
    if path != [] {
      var d := DotsWritten(path[1..], after);
      var all := [Operator("."), Identifier(path[0])] + d;
      assert all[1] in all && Fine(all[1]);
      assert forall t :: t in d ==> t in all;
      FineDots(path[1..], after);
    }
  }

  lemma FinePath(path: seq<string>, after: seq<Token>)
    requires path != [] && AllFine(PathWritten(path, after))
    ensures Identifiers(path) && AllFine(after)
  {
    hide IsIdentifier;
    var d := DotsWritten(path[1..], after);
    var all := [Identifier(path[0])] + d;
    assert all[0] in all && Fine(all[0]);
    assert forall t :: t in d ==> t in all;
    FineDots(path[1..], after);
  }

  lemma FineTail(front: seq<Token>, after: seq<Token>)
    requires AllFine(front + after)
    ensures AllFine(front) && AllFine(after)
  {
    assert forall t :: t in front || t in after ==> t in front + after;
  }

  lemma FineName(id: string, path: seq<string>)
    requires path != [] && Identifiers(path) && (id == "" || DottedName(id))
    ensures Qualified(id, Name(path)) != "" && DottedName(Qualified(id, Name(path)))
  {
    PathIsDotted(path);
    if id != "" {
      DottedWith(id, Name(path));
      assert id + "." + Name(path) == id + ("." + Name(path));
    }
  }

  /** Whatever a text without line ends declares has a dotted name and a value without line ends. */
  lemma {:induction false} FineAttribute(id: string, a: Attribute, after: seq<Token>)
    requires Sound(a) && AllFine(Written(a, after)) && (id == "" || DottedName(id))
    ensures FineEntries(Flattened(id, a)) && AllFine(after)
    decreases a, 0
  {
    hide DottedName, IsIdentifier, AsString, Name;
    match a
    case Flag(path) =>
      FinePath(path, after);
      FineName(id, path);
    case Valued(path, token) =>
      FinePath(path, [Operator("="), token] + after);
      FineTail([Operator("="), token], after);
      assert token in [Operator("="), token] && Fine(token);
      FineName(id, path);
    case Complex(path, inner) =>
      var end := [Operator("}")] + after;
      FinePath(path, [Operator("="), Operator("{")] + ListWritten(inner, end));
      FineTail([Operator("="), Operator("{")], ListWritten(inner, end));
      FineName(id, path);
      FineList(Qualified(id, Name(path)), inner, end);
      FineTail([Operator("}")], after);
  }

  lemma {:induction false} FineList(id: string, l: List, after: seq<Token>)
    requires SoundList(l) && AllFine(ListWritten(l, after)) && (id == "" || DottedName(id))
    ensures FineEntries(FlattenedList(id, l)) && AllFine(after)
    decreases l, 1
  {
    hide DottedName, IsIdentifier, AsString, Name, Fine;
    match l
    case One(first) =>
      FineAttribute(id, first, after);
    case More(first, comma, others) =>
      var next := (if comma then [Operator(",")] else []) + ListWritten(others, after);
      FineAttribute(id, first, next);
      FineTail(if comma then [Operator(",")] else [], ListWritten(others, after));
      FineList(id, others, after);
  }

  // ----- weighing whole maps -----

  /** What the values of the listed names need. */
  function MapWeight(attrs: Attributes, keys: seq<string>): nat {
    if keys == [] then 0
    else (if keys[0] in attrs then Needed(attrs[keys[0]]) else 0) + MapWeight(attrs, keys[1..])
  }

  lemma {:induction false} SetAbsent(attrs: Attributes, keys: seq<string>, k: string, v: string)
    requires k !in keys
    ensures MapWeight(attrs[k := v], keys) == MapWeight(attrs, keys)
  {
    if keys != [] { SetAbsent(attrs, keys[1..], k, v); }
  }

  ghost predicate Distinct(keys: seq<string>) {
    forall i, j :: 0 <= i < j < |keys| ==> keys[i] != keys[j]
  }

  lemma {:induction false} SetAdds(attrs: Attributes, keys: seq<string>, k: string, v: string)
    requires Distinct(keys)
    ensures MapWeight(attrs[k := v], keys) <= MapWeight(attrs, keys) + Needed(v)
  {
    hide Needed;
    if keys != [] {
      if keys[0] == k {
        assert forall j :: 0 < j < |keys| ==> keys[j] == keys[1..][j - 1];
        SetAbsent(attrs, keys[1..], k, v);
      } else {
        SetAdds(attrs, keys[1..], k, v);
      }
    }
  }

  /** Each name keeps the last value it is given, so what the map needs has been declared. */
  lemma {:induction false} SetWeight(attrs: Attributes, values: seq<Entry>, keys: seq<string>)
    requires Distinct(keys)
    ensures MapWeight(Set(attrs, values), keys) <= MapWeight(attrs, keys) + ValuesWeight(values)
    decreases values
  {
    hide Needed, MapWeight;
    if values != [] {
      SetAdds(attrs, keys, values[0].0, values[0].1);
      SetWeight(attrs[values[0].0 := values[0].1], values[1..], keys);
    }
  }

  lemma {:induction false} EmptyWeight(keys: seq<string>)
    ensures MapWeight(map[], keys) == 0
  {
    if keys != [] { EmptyWeight(keys[1..]); }
  }

  lemma {:induction false} SetFrom(attrs: Attributes, values: seq<Entry>, k: string)
    requires k in Set(attrs, values)
    ensures (k in attrs && Set(attrs, values)[k] == attrs[k]) || (k, Set(attrs, values)[k]) in values
    decreases values
  {
    if values != [] { SetFrom(attrs[values[0].0 := values[0].1], values[1..], k); }
  }

  lemma NothingBehind()
    ensures Behind([])
  {
  }

  /** A map that is declared by some text needs no more specials than that text has; if the text has no line ends, its names are
      dotted and its values have none either. */
  lemma DeclaredWeight(text: string, l: List, keys: seq<string>)
    requires Declares(Tokens(text), l) && Distinct(keys) && OneLine(text)
    ensures var m := Set(map[], FlattenedList("", l));
            MapWeight(m, keys) <= Loose(text) && forall k :: k in m ==> FineEntry((k, m[k]))
  {
    hide Tokens, Needed, Loose, MapWeight, FineEntry, DottedName, Fine, Grammatical;
    var values := FlattenedList("", l);
    NothingBehind();
    ListGrammatical(l, []);
    TokensWeight(text);
    TokensAreFine(text);
    ListWeight("", l, []);
    SetWeight(map[], values, keys);
    EmptyWeight(keys);
    FineList("", l, []);
    var m := Set(map[], values);
    forall k | k in m ensures FineEntry((k, m[k])) { SetFrom(map[], values, k); }
  }

  /** What the printed values of a list of entries supply. */
  function Supply(entries: seq<Entry>): nat {
    if entries == [] then 0 else Supplied(entries[0].1) + Supply(entries[1..])
  }

  lemma {:induction false} DottedHasNoSpecials(name: string)
    requires DottedName(name)
    ensures Specials(name) == 0
    decreases |name|
  {
    var k := Span(name, NoDot);
    SpanStops(name, NoDot);
    NoSpecials(name[..k]);
    SpecialsSplit(name, k);
    if k < |name| {
      DottedHasNoSpecials(name[k + 1..]);
      assert name[k..][1..] == name[k + 1..];
    }
  }

  lemma DeclarationSupplies(e: Entry, more: string)
    requires DottedName(e.0)
    ensures Loose(" " + Declaration(e) + more) <= Supplied(e.1) + Loose(more)
  {
    hide DottedName, AllWord, Loose;
    DottedHasNoSpecials(e.0);
    PrependSpecials(' ', e.0);
    if e.1 == "" {
      assert e.0 + "" == e.0 && [' '] + e.0 == " " + e.0;
      LooseConcat(" " + Declaration(e), more);
    } else {
      var value := "=" + Shown(e.1) + more;
      assert " " + Declaration(e) + more == ([' '] + e.0) + value;
      LooseConcat([' '] + e.0, value);
      ValueSupplies(e.1, more);
    }
  }

  lemma ValueSupplies(v: string, more: string)
    requires v != ""
    ensures Loose("=" + Shown(v) + more) <= Supplied(v) + Loose(more)
  {
    if IsIdentifier(v) && MustQuote(v) {
      QuotedNameAtFront(v, more);
    } else {
      hide Loose;
      LooseConcat("=" + Shown(v), more);
      ShownSpecials(v);
      assert "=" + Shown(v) == ['='] + Shown(v);
      PrependSpecials('=', Shown(v));
      if IsIdentifier(v) { NoSpecials(v); }
    }
  }

  lemma ShownSpecials(v: string)
    requires v != ""
    ensures Specials(Shown(v)) == Specials(v) + if MustQuote(v) then 2 else 0
  {
    hide AllWord;
    if MustQuote(v) {
      assert "\"" + v + "\"" == ['"'] + (v + "\"");
      PrependSpecials('"', v + "\"");
      SpecialsConcat(v, "\"");
      NoSpecials("");
      PrependSpecials('"', "");
      assert ['"'] + "" == "\"";
    }
  }

  lemma QuotedNameAtFront(v: string, more: string)
    requires v != "" && IsIdentifier(v) && MustQuote(v)
    ensures Loose("=" + Shown(v) + more) == Loose(more)
  {
    hide AllWord, Loose, NumberEnd;
    var s := "=" + Shown(v) + more;
    var tail := "\"" + more;
    assert s == "=\"" + (v + tail) && s[2..] == v + tail;
    SpanAll(v, tail, IsIdentifierPart);
    assert (v + tail)[|v|..] == tail && s[3 + |v|..] == more;
    hide Shown, IsIdentifier, MustQuote;
    assert AtQuotedName(s) && AfterQuotedName(s) == more;
    SkipsQuotedName(s);
  }

  lemma SkipsQuotedName(s: string)
    requires AtQuotedName(s)
    ensures Loose(s) == Loose(AfterQuotedName(s))
  {
  }

  /** The printed text has no more than its values supply. */
  lemma {:induction false} TextSupplies(entries: seq<Entry>)
    requires forall e :: e in entries ==> DottedName(e.0)
    ensures Loose(Text(entries)) <= Supply(entries)
  {
    hide DottedName, Declaration, Supplied;
    if entries != [] {
      assert entries == [entries[0]] + entries[1..];
      DeclarationSupplies(entries[0], Text(entries[1..]));
      TextSupplies(entries[1..]);
    }
  }

  lemma NeedsAreSupplied(v: string)
    ensures Needed(v) >= Supplied(v)
    ensures Needed(v) == Supplied(v) && v != "" && OneLine(v) ==> Readable(v)
  {
    hide NumberEnd;
    NoSpecials(v);
    if IsIntegerText(v) { IntegerIsWord(v); }
    if AllWord(v) {
      forall i | 0 <= i < |v| ensures !IsSpecial(v[i]) { assert IsWord(v[i]); }
    }
  }

  /** If the map needs no more than it supplies, no value needs more than its own. */
  lemma {:induction false} NoneNeedsMore(attrs: Attributes, keys: seq<string>)
    requires (forall k :: k in keys ==> k in attrs) && MapWeight(attrs, keys) <= Supply(Entries(attrs, keys))
    ensures MapWeight(attrs, keys) == Supply(Entries(attrs, keys))
    ensures forall k :: k in keys ==> Needed(attrs[k]) == Supplied(attrs[k])
  {
    hide Needed, Supplied;
    if keys != [] {
      assert keys == [keys[0]] + keys[1..];
      assert Entries(attrs, keys)[1..] == Entries(attrs, keys[1..]);
      NeedsAreSupplied(attrs[keys[0]]);
      MoreIsNeeded(attrs, keys[1..]);
      NoneNeedsMore(attrs, keys[1..]);
    }
  }

  lemma {:induction false} MoreIsNeeded(attrs: Attributes, keys: seq<string>)
    requires forall k :: k in keys ==> k in attrs
    ensures MapWeight(attrs, keys) >= Supply(Entries(attrs, keys))
  {
    hide Needed, Supplied;
    if keys != [] {
      NeedsAreSupplied(attrs[keys[0]]);
      MoreIsNeeded(attrs, keys[1..]);
      assert Entries(attrs, keys)[1..] == Entries(attrs, keys[1..]);
    }
  }

  /** A map whose printed text declares it has readable values only. */
  lemma DeclaredIsReadable(attrs: Attributes, keys: seq<string>, l: List)
    requires Enumerates(keys, attrs) && (forall k :: k in attrs ==> FineEntry((k, attrs[k])))
    requires var text := Text(Entries(attrs, keys)); OneLine(text) && Declares(Tokens(text), l)
    requires Set(map[], FlattenedList("", l)) == attrs
    ensures PrintableMap(attrs)
  {
    hide Needed, Supplied, DottedName, Declares, Set, Text, OneLine;
    EntriesAre(attrs, keys);
    DeclaredWeight(Text(Entries(attrs, keys)), l, keys);
    TextSupplies(Entries(attrs, keys));
    hide Loose, Supply, MapWeight;
    NoneNeedsMore(attrs, keys);
    forall k | k in attrs && attrs[k] != "" ensures Readable(attrs[k]) { NeedsAreSupplied(attrs[k]); }
  }

  // ----- printing and reading back -----

  lemma CommentInLine(s: string)
    ensures var t := Lex(s).token; t.Comment? && MARK <= t.text ==> OneLine(t.text)
    decreases |s|
  {
    if s != "" && IsSpace(s[0]) {
      assert s == [s[0]] + s[1..];
      LexSpace(s[0], s[1..]);
      hide Lex;
      CommentInLine(s[1..]);
    } else if s != "" && IsCommentStart(s) {
      SpanStops(s[2..], InLine);
      var end := CommentEnd(s);
      CommentAlone(s);
      hide Lex, Span;
      if MARK <= s[..end] {
        assert s[1] == MARK[1];
        forall i | 0 <= i < end ensures InLine(s[..end][i]) {
          if i >= 2 { assert s[..end][i] == s[2..][i - 2]; }
        }
      }
    } else if s != "" {
      NoComment(s);
    }
  }

  lemma CommentAlone(s: string)
    requires s != "" && IsCommentStart(s)
    ensures Lex(s).token == Comment(s[..CommentEnd(s)])
  {
    assert !IsOperatorStart(s) && !IsNumberStart(s);
    hide IsOperatorStart, OperatorEnd, LiteralEnd, NumberEnd, CommentEnd, DirectiveEnd, Span, IsNumberStart;
  }

  lemma NoComment(s: string)
    requires s != "" && !IsSpace(s[0]) && !IsCommentStart(s)
    ensures !Lex(s).token.Comment?
  {
    hide IsOperatorStart, OperatorEnd, LiteralEnd, NumberEnd, CommentEnd, DirectiveEnd, Span, IsNumberStart, IsCommentStart;
  }

  /** What the comments hold has no line ends, whatever the text. */
  lemma {:induction false} CollectedInLine(s: string)
    ensures OneLine(Collected(Tokens(s)))
    decreases |s|
  {
    CommentInLine(s);
    hide Lex;
    var l := Lex(s);
    if l.token != Eof && l.token != Bad {
      CollectedInLine(l.rest);
      assert Tokens(s)[0] == l.token && Tokens(s)[1..] == Tokens(l.rest);
    }
  }

  lemma PrintableInLine(attrs: Attributes, keys: seq<string>)
    requires Enumerates(keys, attrs) && PrintableMap(attrs)
    ensures forall k :: k in attrs ==> FineEntry((k, attrs[k]))
  {
    hide DottedName, Readable;
    forall k | k in attrs ensures OneLine(attrs[k]) {
      if attrs[k] != "" { ReadableOneLine(attrs[k]); }
    }
  }

  /** If names and values have no line ends, exactly the text of the map is collected. */
  lemma FineIsCollected(attrs: Attributes, keys: seq<string>, indent: nat, code: string)
    requires Enumerates(keys, attrs) && forall k :: k in attrs ==> FineEntry((k, attrs[k]))
    requires Collected(Tokens(code)) == "" && AfterComments(Tokens(code)) != Bad
    ensures var toks := Tokens(Lines(indent, Entries(attrs, keys)) + code);
            Collected(toks) == Text(Entries(attrs, keys)) && AfterComments(toks) != Bad
  {
    hide Tokens, Declaration, DottedName, OneLine, Text, Lines, Collected, AfterComments;
    var entries := Entries(attrs, keys);
    EntriesAre(attrs, keys);
    forall e | e in entries ensures OneLine(Declaration(e)) {
      assert FineEntry((e.0, attrs[e.0]));
      DeclarationOneLine(e);
    }
    LinesAreCollected(indent, entries, code);
    assert Text(entries) + "" == Text(entries);
  }

  /** What the attributes parser makes of a text; None where it throws. */
  function ReadAs(text: string): Option<Attributes> {
    var toks := Tokens(text);
    if toks == [] then Some(map[])
    else
      match ListOf(toks)
      case Parsed(l, rest) => if rest == [] then Some(Set(map[], FlattenedList("", l))) else None
      case Failed => None
  }

  lemma ReadsList(text: string) returns (l: List)
    requires ReadAs(text).Some? && ReadAs(text).value != map[]
    ensures Declares(Tokens(text), l) && ReadAs(text).value == Set(map[], FlattenedList("", l))
  {
    l := ListOf(Tokens(text)).value;
    AcceptsExactly(Tokens(text), l);
  }

  /** A map that comes back has dotted names and values without line ends. */
  lemma ReadIsFine(text: string)
    requires OneLine(text) && ReadAs(text).Some?
    ensures forall k :: k in ReadAs(text).value ==> FineEntry((k, ReadAs(text).value[k]))
  {
    if ReadAs(text).value != map[] {
      var l := ReadsList(text);
      hide Tokens, FineEntry, OneLine, Set, Declares, ReadAs;
      DeclaredWeight(text, l, []);
    }
  }

  /** A map that comes back has readable values only. */
  lemma OnlyPrintableSurvive(attrs: Attributes, keys: seq<string>, indent: nat, code: string)
    requires Enumerates(keys, attrs)
    requires Collected(Tokens(code)) == "" && AfterComments(Tokens(code)) != Bad
    requires ReadAs(Collected(Tokens(Lines(indent, Entries(attrs, keys)) + code))) == Some(attrs)
    ensures PrintableMap(attrs)
  {
    hide Tokens, FineEntry, OneLine, Set, Declares, Collected, AfterComments, Text, Readable, DottedName, ReadAs, Lines;
    CollectedInLine(Lines(indent, Entries(attrs, keys)) + code);
    ReadIsFine(Collected(Tokens(Lines(indent, Entries(attrs, keys)) + code)));
    FineIsCollected(attrs, keys, indent, code);
    if attrs != map[] {
      var l := ReadsList(Text(Entries(attrs, keys)));
      DeclaredIsReadable(attrs, keys, l);
    }
  }

  /** Print an attribute map in front of some code, collect it from the source text and parse it: the same map comes back if and
      only if it is printable. The code may start with comments, but with no further attributes. */
  method PrintAndRead(attrs: Attributes, keys: seq<string>, indent: nat, code: string) returns (result: Attributes, ok: bool)
    requires Enumerates(keys, attrs)
    requires Collected(Tokens(code)) == "" && AfterComments(Tokens(code)) != Bad
    ensures ok && result == attrs <==> PrintableMap(attrs)
  {
    hide Tokens, Collected, AfterComments, ReadAs, PrintableMap, Lines;
    var out := WriteAttributes(attrs, keys, indent);
    var tokenizer := new Tokenizer(out + code);
    var text, next := Collect(tokenizer);
    if next == Bad {
      result, ok := map[], false;
    } else {
      result, ok := ReadText(text);
    }
    if PrintableMap(attrs) {
      PrintableComesBack(attrs, keys, indent, code);
    } else if ok && result == attrs {
      OnlyPrintableSurvive(attrs, keys, indent, code);
    }
  }

  /** The text of a printable map is collected whole, and can be read only as that map. */
  lemma PrintableComesBack(attrs: Attributes, keys: seq<string>, indent: nat, code: string)
    requires Enumerates(keys, attrs) && PrintableMap(attrs)
    requires Collected(Tokens(code)) == "" && AfterComments(Tokens(code)) != Bad
    ensures var toks := Tokens(Lines(indent, Entries(attrs, keys)) + code);
            AfterComments(toks) != Bad && ReadAs(Collected(toks)) == Some(attrs)
  {
    hide Tokens, Collected, AfterComments, Lines, FineEntry, Set, PrintableMap, ListWritten, SoundList;
    PrintableInLine(attrs, keys);
    FineIsCollected(attrs, keys, indent, code);
    if keys == [] {
      NoText();
      assert attrs == map[];
    } else {
      var l := AllDeclared(Entries(attrs, keys));
      TextDeclaresMap(attrs, keys);
      AcceptsExactly(Tokens(Text(Entries(attrs, keys))), l);
      NothingParsed();
    }
  }

  lemma NothingParsed()
    ensures ListOf([]) == Failed
  {
    assert AttributeOf([]) == Failed;
  }

  /** Parse the collected text (Parser.cpp, addSymbol). */
  method ReadText(text: string) returns (result: Attributes, ok: bool)
    ensures ok == ReadAs(text).Some? && (ok ==> result == ReadAs(text).value)
  {
    hide Tokens, Declares, Set;
    var parser := new Parser(map[], text);
    ghost var toks := Tokens(text);
    DeclaredOrNot(toks);
    NothingParsed();
    if ListOf(toks).Parsed? { AcceptsExactly(toks, ListOf(toks).value); }
    ok := parser.Parse();
    result := parser.attrs;
  }
}
