/** Printing attributes as special comments (CodeGeneration/src/Utility.cpp, writeAttributes), collecting them from source text
    (CppParser/src/Parser.cpp, nextToken) and reading them back. */
module AttributesPrinter {
  import opened Ascii
  import opened CppTokens
  import opened Wrappers
  import opened AttributesParser

  type Entry = (string, string)

  /** What writeAttributes prints without quotes. */
  predicate IsWord(c: char) { IsDigit(c) || IsAlpha(c) || c == '_' }

  predicate AllWord(s: string) { forall i :: 0 <= i < |s| ==> IsWord(s[i]) }

  predicate MustQuote(value: string)
    requires value != ""
  {
    value[0] != '{' && !AllWord(value)
  }

  function Shown(value: string): string
    requires value != ""
  {
    if MustQuote(value) then "\"" + value + "\"" else value
  }

  /** A value is quoted unless it is all letters, digits and underscores, or starts with a brace; there is one quote at each end. */
  lemma ShownExactly(value: string)
    requires value != ""
    ensures Shown(value) == value <==>
            value[0] == '{' || forall i :: 0 <= i < |value| ==> IsDigit(value[i]) || IsAlpha(value[i]) || value[i] == '_'
    ensures Shown(value) != value ==> Shown(value) == ['"'] + value + ['"']
  {
    assert |['"'] + value + ['"']| == |value| + 2;
  }

  function Declaration(e: Entry): string {
    e.0 + if e.1 == "" then "" else "=" + Shown(e.1)
  }

  function Tabs(n: nat): string {
    if n == 0 then "" else "\t" + Tabs(n - 1)
  }

  function Lines(indent: nat, entries: seq<Entry>): string {
    if entries == [] then "" else Tabs(indent) + "//@ " + Declaration(entries[0]) + "\n" + Lines(indent, entries[1..])
  }

  /** Every entry has a line of its own, in their order. */
  lemma {:induction false} LinesConcat(indent: nat, a: seq<Entry>, b: seq<Entry>)
    ensures Lines(indent, a + b) == Lines(indent, a) + Lines(indent, b)
  {
    if a == [] {
      assert a + b == b;
    } else {
      hide Tabs, Declaration;
      assert (a + b)[1..] == a[1..] + b;
      LinesConcat(indent, a[1..], b);
      Behind(Tabs(indent) + "//@ " + Declaration(a[0]) + "\n", Lines(indent, a[1..]), Lines(indent, b));
    }
  }

  lemma Behind(a: string, b: string, c: string)
    ensures a + (b + c) == a + b + c && a + "" == a
  {
  }

  /** The line: tabs, the mark of the comment, the name, and the value, if there is one, behind an equals sign. */
  lemma {:induction false} LineOf(indent: nat, e: Entry)
    ensures var line := Lines(indent, [e]);
            |line| == indent + |e.0| + (if e.1 == "" then 5 else 6 + |Shown(e.1)|) &&
            (forall i :: 0 <= i < indent ==> line[i] == '\t') &&
            line[indent..] == "//@ " + e.0 + (if e.1 == "" then "\n" else "=" + Shown(e.1) + "\n")
  {
    TabsAre(indent);
    hide Tabs, Shown;
    assert Lines(indent, [e]) == Tabs(indent) + "//@ " + Declaration(e) + "\n" + "";
    var rest := "//@ " + e.0 + (if e.1 == "" then "\n" else "=" + Shown(e.1) + "\n");
    assert Lines(indent, [e]) == Tabs(indent) + rest;
  }

  lemma {:induction false} TabsAre(n: nat)
    ensures |Tabs(n)| == n && forall i :: 0 <= i < n ==> Tabs(n)[i] == '\t'
  {
    if n > 0 { TabsAre(n - 1); }
  }

  /** The attributes in the order their names are listed. */
  function Entries(attrs: Attributes, keys: seq<string>): seq<Entry>
    requires forall k :: k in keys ==> k in attrs
  {
    if keys == [] then [] else [(keys[0], attrs[keys[0]])] + Entries(attrs, keys[1..])
  }

  /** The names of an attribute map, each once. */
  ghost predicate Enumerates(keys: seq<string>, attrs: Attributes) {
    (forall k :: k in keys <==> k in attrs) && forall i, j :: 0 <= i < j < |keys| ==> keys[i] != keys[j]
  }

  // ----- one value -----

  predicate NothingSpecial(s: string) {
    forall i :: 0 <= i < |s| ==> s[i] != '"' && s[i] != '\\' && InLine(s[i])
  }

  /** Values that survive printing: words that start with a letter or underscore, integer literals, and text that needs quotes but
      has no quote, backslash or line end and does not start with a brace. */
  predicate Readable(value: string)
    requires value != ""
  {
    value[0] != '{' &&
    if !AllWord(value) then NothingSpecial(value)
    else !IsDigit(value[0]) || NumberEnd(value) == Some(Number(|value|, false))
  }

  function TokenFor(value: string): Token
    requires value != ""
  {
    if MustQuote(value) then StringLiteral("\"" + value + "\"") else if IsDigit(value[0]) then Integer(value) else Identifier(value)
  }

  lemma LexWord(a: string, b: string)
    requires a != "" && IsIdentifierStart(a[0]) && forall i :: 0 <= i < |a| ==> IsIdentifierPart(a[i])
    requires b == "" || !IsIdentifierPart(b[0])
    ensures Lex(a + b) == Lexed(Identifier(a), b)
  {
    hide Lex;
    var s := a + b;
    assert s[0] == a[0] && s[1..] == a[1..] + b;
    LexIdentifier(s);
    SpanAll(a[1..], b, IsIdentifierPart);
    hide *;
    Halves(a, b);
  }

  lemma Halves(a: string, b: string)
    ensures (a + b)[..|a|] == a && (a + b)[|a|..] == b
  {
  }

  lemma LexIdentifier(s: string)
    requires s != "" && IsIdentifierStart(s[0])
    ensures var end := 1 + Span(s[1..], IsIdentifierPart); Lex(s) == Lexed(Identifier(s[..end]), s[end..])
  {
    assert !IsOperatorStart(s);
    hide IsOperatorStart, OperatorEnd, LiteralEnd, NumberEnd, CommentEnd, DirectiveEnd, Span, IsNumberStart, IsCommentStart;
  }

  lemma LexSpace(c: char, s: string)
    requires IsSpace(c)
    ensures Lex([c] + s) == Lex(s)
  {
    var t := [c] + s;
    assert t[1..] == s;
    if s != "" && IsSpace(s[0]) {
      assert t[1 + Span(s, IsSpace)..] == s[Span(s, IsSpace)..];
      assert Span(s, IsSpace) == 1 + Span(s[1..], IsSpace);
    }
  }

  lemma LexDot(s: string)
    requires s != "" && IsIdentifierStart(s[0])
    ensures Lex("." + s) == Lexed(Operator("."), s)
  {
    var t := "." + s;
    assert t[0] == '.' && t[1..] == s && IsOperatorStart(t) && OperatorEnd(t) == Some(1) && t[..1] == ".";
    hide IsOperatorStart, OperatorEnd, LiteralEnd, NumberEnd, CommentEnd, DirectiveEnd, Span, IsNumberStart, IsCommentStart;
  }

  lemma LexAssign(s: string)
    requires !StartsWith(s, '=')
    ensures Lex("=" + s) == Lexed(Operator("="), s)
  {
    var t := "=" + s;
    assert t[0] == '=' && t[1..] == s && IsOperatorStart(t) && OperatorEnd(t) == Some(1) && t[..1] == "=";
    hide IsOperatorStart, OperatorEnd, LiteralEnd, NumberEnd, CommentEnd, DirectiveEnd, Span, IsNumberStart, IsCommentStart;
  }

  /** A literal over plain text ends at the first quote. */
  lemma {:induction false} LiteralEndsAt(s: string, i: nat, n: nat)
    requires i <= n < |s| && s[n] == '"' && NothingSpecial(s[i..n])
    ensures LiteralEnd(s, '"', i) == Some(n + 1)
    decreases n - i
  {
    if i < n {
      assert s[i..n][0] == s[i] && s[i + 1..n] == s[i..n][1..];
      LiteralEndsAt(s, i + 1, n);
    }
  }

  lemma LexQuoted(v: string, b: string)
    requires NothingSpecial(v)
    ensures Lex("\"" + v + "\"" + b) == Lexed(StringLiteral("\"" + v + "\""), b)
  {
    var s := "\"" + v + "\"" + b;
    assert s[1..|v| + 1] == v && s[..|v| + 2] == "\"" + v + "\"" && s[|v| + 2..] == b;
    LiteralEndsAt(s, 1, |v| + 1);
    assert !IsOperatorStart(s);
    hide IsOperatorStart, OperatorEnd, LiteralEnd, NumberEnd, CommentEnd, DirectiveEnd, Span, IsNumberStart, IsCommentStart;
  }

  /** What can follow a printed value. */
  predicate Breaks(b: string) { b == "" || b[0] == ' ' }

  lemma {:induction false} SpanBefore(a: string, b: string, p: char -> bool)
    requires Breaks(b) && !p(' ')
    ensures Span(a + b, p) == Span(a, p)
  {
    if a == "" {
      assert a + b == b;
    } else {
      assert (a + b)[1..] == a[1..] + b;
      SpanBefore(a[1..], b, p);
    }
  }

  /** From position k on, a text before a break looks the same as alone. */
  lemma SameFrom(a: string, b: string, k: nat)
    requires k <= |a| && Breaks(b)
    ensures (a + b)[k..] == a[k..] + b
    ensures forall c: char :: c != ' ' ==> StartsWith((a + b)[k..], c) == StartsWith(a[k..], c)
    ensures forall p: char -> bool :: !p(' ') ==> Starts((a + b)[k..], p) == Starts(a[k..], p)
    ensures Span((a + b)[k..], IsDigit) == Span(a[k..], IsDigit)
    ensures Span((a + b)[k..], IsHex) == Span(a[k..], IsHex)
    ensures Span((a + b)[k..], IsIntegerSuffix) == Span(a[k..], IsIntegerSuffix)
  {
    assert (a + b)[k..] == a[k..] + b;
    SpanBefore(a[k..], b, IsDigit);
    SpanBefore(a[k..], b, IsHex);
    SpanBefore(a[k..], b, IsIntegerSuffix);
  }

  lemma FractionBefore(a: string, b: string, i: nat, isFloat: bool)
    requires 1 <= i <= |a| && Breaks(b)
    ensures FractionEnd(a + b, i, isFloat) == FractionEnd(a, i, isFloat)
  {
    hide Span, StartsWith, Starts;
    SameFrom(a, b, i);
    var j := i + Span(a[i..], IsDigit);
    SameFrom(a, b, j);
    if StartsWith(a[j..], 'e') || StartsWith(a[j..], 'E') {
      Longer(a, j);
      SameFrom(a, b, j + 1);
      var k := if StartsWith(a[j + 1..], '+') || StartsWith(a[j + 1..], '-') then j + 2 else j + 1;
      Longer(a, j + 1);
      SameFrom(a, b, k);
      SameFrom(a, b, k + Span(a[k..], IsDigit));
    }
  }

  lemma Longer(a: string, j: nat)
    requires j <= |a|
    ensures forall c: char :: StartsWith(a[j..], c) ==> j < |a|
    ensures forall p: char -> bool :: Starts(a[j..], p) ==> j < |a|
  {
  }

  lemma NumberBefore(a: string, b: string)
    requires a != "" && IsDigit(a[0]) && Breaks(b)
    ensures NumberEnd(a + b) == NumberEnd(a)
  {
    hide Span, StartsWith, Starts, FractionEnd;
    SameFrom(a, b, 1);
    Longer(a, 1);
    if StartsWith(a[1..], 'x') {
      SameFrom(a, b, 2);
      SameFrom(a, b, 2 + Span(a[2..], IsHex));
    } else {
      var d := 1 + Span(a[1..], IsDigit);
      SameFrom(a, b, d);
      Longer(a, d);
      FractionBefore(a, b, d, false);
      if StartsWith(a[d..], '.') {
        SameFrom(a, b, d + 1);
        FractionBefore(a, b, d + 1, true);
      }
    }
  }

  lemma LexNumber(v: string, b: string)
    requires v != "" && IsDigit(v[0]) && NumberEnd(v) == Some(Number(|v|, false)) && Breaks(b)
    ensures Lex(v + b) == Lexed(Integer(v), b)
  {
    NumberBefore(v, b);
    hide NumberEnd;
    var s := v + b;
    assert s[0] == v[0] && s[..|v|] == v && s[|v|..] == b;
    LexDigits(s);
  }

  lemma LexDigits(s: string)
    requires s != "" && IsDigit(s[0])
    ensures Lex(s) == match NumberEnd(s)
                      case Some(n) => Lexed(if n.isFloat then Float(s[..n.end]) else Integer(s[..n.end]), s[n.end..])
                      case None => Lexed(Bad, "")
  {
    hide OperatorEnd, LiteralEnd, NumberEnd, CommentEnd, DirectiveEnd, Span, IsCommentStart;
    assert !IsOperatorStart(s) && IsNumberStart(s) && !IsSpace(s[0]) && !IsIdentifierStart(s[0]);
    hide IsOperatorStart, IsNumberStart, IsSpace, IsIdentifierStart;
  }

  lemma LexBrace(s: string)
    requires s != ""
    ensures s[0] == '{' ==> Lex(s).token.Operator?
  {
    assert s[0] == '{' ==> IsOperatorStart(s) && OperatorEnd(s) == Some(1);
    hide IsOperatorStart, OperatorEnd, LiteralEnd, NumberEnd, CommentEnd, DirectiveEnd, Span, IsNumberStart, IsCommentStart;
  }

  /** A printed value is one token, with the value as its text. */
  lemma LexShown(v: string, b: string)
    requires v != "" && Readable(v) && Breaks(b)
    ensures Lex(Shown(v) + b) == Lexed(TokenFor(v), b) && IsValue(TokenFor(v)) && AsString(TokenFor(v)) == v
    ensures Shown(v) != "" && Shown(v)[0] != '='
  {
    hide Lex, NumberEnd, Unescaped;
    if MustQuote(v) {
      LexQuoted(v, b);
      UnescapedPlain(v);
      assert ("\"" + v + "\"")[1..] == v + "\"";
    } else if IsDigit(v[0]) {
      LexNumber(v, b);
    } else {
      assert IsWord(v[0]);
      LexWord(v, b);
    }
  }

  lemma {:induction false} UnescapedPlain(v: string)
    requires NothingSpecial(v)
    ensures Unescaped(v + "\"") == v
  {
    if v != "" {
      assert (v + "\"")[1..] == v[1..] + "\"";
      UnescapedPlain(v[1..]);
    }
  }

  // ----- only readable values survive -----

  lemma {:induction false} UnescapedShrinks(v: string)
    ensures |Unescaped(v + "\"")| <= |v|
    ensures Unescaped(v + "\"") == v ==> forall i :: 0 <= i < |v| ==> v[i] != '"' && v[i] != '\\'
    decreases |v|
  {
    if v != "" && v[0] != '"' {
      var s := v + "\"";
      if v[0] != '\\' {
        assert s[1..] == v[1..] + "\"";
        UnescapedShrinks(v[1..]);
        assert forall i :: 0 < i < |v| ==> v[i] == v[1..][i - 1];
        assert Unescaped(s)[1..] == Unescaped(v[1..] + "\"");
      } else if |v| > 1 {
        assert s[2..] == v[2..] + "\"";
        UnescapedShrinks(v[2..]);
      } else {
        assert s[2..] == "";
      }
    }
  }

  lemma {:induction false} LineEndBreaks(s: string, i: nat, n: nat)
    requires i <= n < |s| && !InLine(s[n]) && forall k :: i <= k < n ==> s[k] != '"' && s[k] != '\\'
    ensures LiteralEnd(s, '"', i) == None
    decreases n - i
  {
    if i < n && InLine(s[i]) { LineEndBreaks(s, i + 1, n); }
  }

  lemma {:induction false} NoTokensNoInk(s: string)
    requires Tokens(s) == []
    ensures forall i :: 0 <= i < |s| ==> IsSpace(s[i])
    decreases |s|
  {
    if s != "" && IsSpace(s[0]) {
      assert s == [s[0]] + s[1..];
      LexSpace(s[0], s[1..]);
      NoTokensNoInk(s[1..]);
    }
  }

  /** Printed alone after the equals sign, a value is read back as one token with that value exactly when it is readable. */
  lemma ReadableExactly(v: string)
    requires v != ""
    ensures Readable(v) <==> exists t :: Tokens(Shown(v)) == [t] && IsValue(t) && AsString(t) == v
  {
    if Readable(v) {
      LexShown(v, "");
      assert Shown(v) + "" == Shown(v);
      assert Tokens(Shown(v)) == [TokenFor(v)];
    }
    if t :| Tokens(Shown(v)) == [t] && IsValue(t) && AsString(t) == v {
      OneTokenIsAll(v, t);
    }
  }

  lemma OneTokenIsAll(v: string, t: Token)
    requires v != "" && Tokens(Shown(v)) == [t] && IsValue(t) && AsString(t) == v
    ensures Readable(v)
  {
    OneToken(Shown(v), t);
    hide Lex, Tokens, AsString, AllWord, NumberEnd;
    if MustQuote(v) { QuotedTokenIsAll(v); } else { BareTokenIsAll(v); }
  }

  lemma OneToken(s: string, t: Token)
    requires Tokens(s) == [t] && IsValue(t)
    ensures Lex(s).token == t && Tokens(Lex(s).rest) == []
  {
    var l := Lex(s);
    assert ([l.token] + Tokens(l.rest))[0] == l.token && |[l.token] + Tokens(l.rest)| == 1 + |Tokens(l.rest)|;
  }

  lemma NothingAfter(s: string, end: nat)
    requires end <= |s| && Tokens(s[end..]) == []
    ensures forall i :: end <= i < |s| ==> IsSpace(s[i])
  {
    NoTokensNoInk(s[end..]);
    forall i | end <= i < |s| ensures IsSpace(s[i]) { assert s[i] == s[end..][i - end]; }
  }

  lemma QuotedTokenIsAll(v: string)
    requires v != "" && MustQuote(v)
    requires var l := Lex(Shown(v)); IsValue(l.token) && AsString(l.token) == v && Tokens(l.rest) == []
    ensures Readable(v)
  {
    hide Unescaped, LiteralEnd, NumberEnd, AllWord, Tokens;
    var s := "\"" + v + "\"";
    var end := LiteralEnd(s, '"', 1);
    var l := Lex(s);
    LexLiteral(s);
    assert end.Some? && l.rest == s[end.value..];
    NothingAfter(s, end.value);
    assert s[|s| - 1] == '"';
    assert s[..|s|] == s && s[1..] == v + "\"";
    UnescapedShrinks(v);
    forall n | 0 <= n < |v| ensures InLine(v[n]) {
      assert s[n + 1] == v[n];
      if !InLine(v[n]) {
        assert forall k :: 1 <= k < n + 1 ==> s[k] == v[k - 1];
        LineEndBreaks(s, 1, n + 1);
      }
    }
  }

  lemma LexLiteral(s: string)
    requires s != "" && s[0] == '"'
    ensures Lex(s) == match LiteralEnd(s, '"', 1)
                      case Some(end) => Lexed(StringLiteral(s[..end]), s[end..])
                      case None => Lexed(Bad, "")
  {
    assert !IsOperatorStart(s);
    hide IsOperatorStart, OperatorEnd, LiteralEnd, NumberEnd, CommentEnd, DirectiveEnd, Span, IsNumberStart, IsCommentStart;
  }

  lemma BareTokenIsAll(v: string)
    requires v != "" && !MustQuote(v)
    requires var l := Lex(v); IsValue(l.token) && Tokens(l.rest) == []
    ensures Readable(v)
  {
    hide NumberEnd, LiteralEnd, Tokens;
    LexBrace(v);
    if v[0] != '{' && IsDigit(v[0]) {
      LexDigits(v);
      var n := NumberEnd(v).value;
      hide Lex;
      NothingAfter(v, n.end);
      assert IsWord(v[|v| - 1]);
    }
  }

  // ----- names -----

  predicate NoDot(c: char) { c != '.' }

  function Parts(name: string): (r: seq<string>)
    ensures r != []
    decreases |name|
  {
    var k := Span(name, NoDot);
    if k == |name| then [name] else [name[..k]] + Parts(name[k + 1..])
  }

  predicate IsIdentifier(s: string) {
    s != "" && IsIdentifierStart(s[0]) && forall i :: 0 <= i < |s| ==> IsIdentifierPart(s[i])
  }

  /** Identifiers with periods between them. */
  predicate DottedName(name: string)
    decreases |name|
  {
    var k := Span(name, NoDot);
    IsIdentifier(name[..k]) && (k < |name| ==> DottedName(name[k + 1..]))
  }

  lemma {:induction false} NameOfParts(name: string)
    ensures Name(Parts(name)) == name
    decreases |name|
  {
    var k := Span(name, NoDot);
    SpanStops(name, NoDot);
    if k < |name| {
      var rest := name[k + 1..];
      assert Parts(name) == [name[..k]] + Parts(rest);
      NameOfParts(rest);
      hide Parts, Span;
      NameStep(name[..k], Parts(rest));
      assert name == name[..k] + ("." + rest);
    }
  }

  lemma NameStep(first: string, others: seq<string>)
    requires others != []
    ensures Name([first] + others) == first + ("." + Name(others))
  {
    assert ([first] + others)[1..] == others;
    assert "." + others[0] + Dotted(others[1..]) == "." + Name(others);
  }

  /** What can follow a printed name. */
  predicate EndsName(s: string) { s == "" || (!IsIdentifierPart(s[0]) && s[0] != '.') }

  lemma {:induction false} NameTokens(name: string, after: string)
    requires DottedName(name) && EndsName(after)
    ensures Tokens(name + after) == PathWritten(Parts(name), Tokens(after))
    ensures name != "" && IsIdentifierStart(name[0])
    decreases |name|
  {
    hide Tokens, PathWritten;
    var k := Span(name, NoDot);
    SpanStops(name, NoDot);
    var first := name[..k];
    assert IsIdentifier(first) && first[0] == name[0];
    assert k == |name| ==> first == name && Parts(name) == [name];
    assert k < |name| ==> DottedName(name[k + 1..]) && Parts(name) == [first] + Parts(name[k + 1..]);
    hide DottedName, Parts, Span, NoDot;
    if k == |name| {
      LastPart(name, after);
    } else {
      var rest := name[k + 1..];
      NameTokens(rest, after);
      assert name + after == first + ("." + (rest + after));
      OnePart(first, rest + after, Parts(rest), Tokens(after));
    }
  }

  lemma LastPart(part: string, after: string)
    requires IsIdentifier(part) && EndsName(after)
    ensures Tokens(part + after) == PathWritten([part], Tokens(after))
  {
    LexWord(part, after);
    hide Lex;
    OneMoreToken(part + after, Identifier(part), after);
  }

  lemma OnePart(part: string, s: string, others: seq<string>, after: seq<Token>)
    requires IsIdentifier(part) && s != "" && IsIdentifierStart(s[0])
    requires others != [] && Tokens(s) == PathWritten(others, after)
    ensures Tokens(part + ("." + s)) == PathWritten([part] + others, after)
  {
    hide Lex, Tokens, PathWritten;
    LexWord(part, "." + s);
    LexDot(s);
    OneMoreToken(part + ("." + s), Identifier(part), "." + s);
    OneMoreToken("." + s, Operator("."), s);
    PathStep(part, others, after);
  }

  lemma OneMoreToken(s: string, t: Token, rest: string)
    requires Lex(s) == Lexed(t, rest) && t != Eof && t != Bad
    ensures Tokens(s) == [t] + Tokens(rest)
  {
  }

  lemma PathStep(first: string, others: seq<string>, after: seq<Token>)
    requires others != []
    ensures PathWritten([first] + others, after) == [Identifier(first)] + ([Operator(".")] + PathWritten(others, after))
  {
    assert ([first] + others)[1..] == others;
  }

  // ----- the whole text -----

  /** The text between the comment markers, one attribute after the other. */
  function Text(entries: seq<Entry>): string {
    if entries == [] then "" else " " + Declaration(entries[0]) + Text(entries[1..])
  }

  ghost predicate Printable(entries: seq<Entry>) {
    forall e :: e in entries ==> DottedName(e.0) && (e.1 != "" ==> Readable(e.1))
  }

  function Declared(e: Entry): Attribute {
    if e.1 == "" then Flag(Parts(e.0)) else Valued(Parts(e.0), TokenFor(e.1))
  }

  function AllDeclared(entries: seq<Entry>): List
    requires entries != []
  {
    if |entries| == 1 then One(Declared(entries[0])) else More(Declared(entries[0]), false, AllDeclared(entries[1..]))
  }

  lemma DeclarationTokens(e: Entry, after: string)
    requires DottedName(e.0) && (e.1 != "" ==> Readable(e.1)) && Breaks(after)
    ensures Sound(Declared(e)) && Tokens(" " + Declaration(e) + after) == Written(Declared(e), Tokens(after))
    ensures Flattened("", Declared(e)) == [e]
  {
    hide Lex, Tokens, Readable, DottedName, Parts, AsString, Shown, TokenFor;
    NameOfParts(e.0);
    assert " " + Declaration(e) + after == " " + (Declaration(e) + after);
    SpaceTokens(Declaration(e) + after);
    if e.1 == "" {
      assert Declaration(e) == e.0;
      NameTokens(e.0, after);
    } else {
      LexShown(e.1, after);
      var value := Shown(e.1) + after;
      assert Declaration(e) + after == e.0 + ("=" + value);
      NameTokens(e.0, "=" + value);
      LexAssign(value);
      OneMoreToken("=" + value, Operator("="), value);
      OneMoreToken(value, TokenFor(e.1), after);
      assert [Operator("=")] + ([TokenFor(e.1)] + Tokens(after)) == [Operator("="), TokenFor(e.1)] + Tokens(after);
    }
  }

  lemma SpaceTokens(s: string)
    ensures Tokens(" " + s) == Tokens(s)
  {
    LexSpace(' ', s);
  }

  /** The text of printable attributes is read as their list. */
  lemma {:induction false} TextTokens(entries: seq<Entry>)
    requires entries != [] && Printable(entries)
    ensures SoundList(AllDeclared(entries)) && Tokens(Text(entries)) == ListWritten(AllDeclared(entries), [])
    ensures FlattenedList("", AllDeclared(entries)) == entries
  {
    hide Tokens, Written, Flattened, Sound, Declared, Declaration;
    var others := entries[1..];
    assert entries == [entries[0]] + others;
    DeclarationTokens(entries[0], Text(others));
    if others == [] {
      NoText();
    } else {
      TextTokens(others);
      assert [] + ListWritten(AllDeclared(others), []) == ListWritten(AllDeclared(others), []);
    }
  }

  lemma NoText()
    ensures Text([]) == "" && Tokens("") == []
  {
  }

  // ----- comments in the source text -----

  const MARK := "//@"

  /** What nextToken gathers from the comments up to the next other token. */
  function Collected(toks: seq<Token>): string
    decreases |toks|
  {
    if toks == [] || !toks[0].Comment? then ""
    else (if MARK <= toks[0].text then toks[0].text[3..] else "") + Collected(toks[1..])
  }

  /** The first token that is no comment. */
  function AfterComments(toks: seq<Token>): Token
    decreases |toks|
  {
    if toks == [] then Eof else if toks[0].Comment? then AfterComments(toks[1..]) else toks[0]
  }

  predicate OneLine(s: string) { forall i :: 0 <= i < |s| ==> InLine(s[i]) }

  lemma LexComment(body: string, more: string)
    requires OneLine(body)
    ensures Lex("//" + body + "\n" + more) == Lexed(Comment("//" + body), "\n" + more)
  {
    var s := "//" + body + "\n" + more;
    assert s[2..] == body + ("\n" + more) && s[..|body| + 2] == "//" + body && s[|body| + 2..] == "\n" + more;
    SpanAll(body, "\n" + more, InLine);
    assert s[0] == '/' && StartsWith(s[1..], '/') && !IsOperatorStart(s) && IsCommentStart(s) && !IsNumberStart(s);
    assert CommentEnd(s) == |body| + 2;
    hide IsOperatorStart, OperatorEnd, LiteralEnd, NumberEnd, CommentEnd, DirectiveEnd, Span, IsNumberStart, IsCommentStart;
  }

  lemma {:induction false} LexTabs(n: nat, s: string)
    ensures Lex(Tabs(n) + s) == Lex(s)
  {
    hide Lex;
    if n == 0 {
      assert Tabs(0) + s == s;
    } else {
      assert Tabs(n) + s == ['\t'] + (Tabs(n - 1) + s);
      LexSpace('\t', Tabs(n - 1) + s);
      LexTabs(n - 1, s);
    }
  }

  lemma {:induction false} NameOneLine(name: string)
    requires DottedName(name)
    ensures OneLine(name)
    decreases |name|
  {
    var k := Span(name, NoDot);
    SpanStops(name, NoDot);
    if k < |name| { NameOneLine(name[k + 1..]); }
    forall i | 0 <= i < |name| ensures InLine(name[i]) {
      if i < k { assert name[i] == name[..k][i]; }
      if i > k { assert name[i] == name[k + 1..][i - k - 1]; }
    }
  }

  lemma DeclarationOneLine(e: Entry)
    requires DottedName(e.0) && OneLine(e.1)
    ensures OneLine(Declaration(e))
  {
    NameOneLine(e.0);
    hide DottedName;
  }

  lemma DeclarationInComment(e: Entry)
    requires OneLine(Declaration(e))
    ensures OneLine("@ " + Declaration(e))
  {
  }

  lemma ReadableOneLine(v: string)
    requires v != "" && Readable(v)
    ensures OneLine(v)
  {
    hide NumberEnd;
    if !MustQuote(v) {
      forall i | 0 <= i < |v| ensures InLine(v[i]) { assert IsWord(v[i]); }
    }
  }

  /** Collecting what was printed gives the text of the attributes, whatever source text comes next. */
  lemma {:induction false} LinesAreCollected(indent: nat, entries: seq<Entry>, code: string)
    requires forall e :: e in entries ==> OneLine(Declaration(e))
    ensures Collected(Tokens(Lines(indent, entries) + code)) == Text(entries) + Collected(Tokens(code))
    ensures AfterComments(Tokens(Lines(indent, entries) + code)) == AfterComments(Tokens(code))
  {
    hide Lex, Tokens, Declaration, OneLine, Collected, AfterComments;
    if entries == [] {
      assert Lines(indent, []) + code == code;
    } else {
      assert entries[0] in entries;
      LinesAreCollected(indent, entries[1..], code);
      LineIsCollected(indent, entries[0], Lines(indent, entries[1..]) + code);
      Regrouped(" " + Declaration(entries[0]), Text(entries[1..]), Collected(Tokens(code)));
      assert Text(entries) == " " + Declaration(entries[0]) + Text(entries[1..]);
      FirstLine(indent, entries, code);
      hide *;
    }
  }

  lemma FirstLine(indent: nat, entries: seq<Entry>, code: string)
    requires entries != []
    ensures Lines(indent, entries) + code ==
            Tabs(indent) + ("//@ " + Declaration(entries[0]) + "\n" + (Lines(indent, entries[1..]) + code))
  {
    hide Tabs, Declaration;
  }

  lemma LineIsCollected(indent: nat, e: Entry, more: string)
    requires OneLine(Declaration(e))
    ensures Collected(Tokens(Tabs(indent) + ("//@ " + Declaration(e) + "\n" + more))) ==
            " " + Declaration(e) + Collected(Tokens(more))
    ensures AfterComments(Tokens(Tabs(indent) + ("//@ " + Declaration(e) + "\n" + more))) == AfterComments(Tokens(more))
  {
    DeclarationInComment(e);
    hide *;
    var body := "@ " + Declaration(e);
    var s := "//" + body + "\n" + more;
    CommentText(Declaration(e), more);
    LexTabs(indent, s);
    LexComment(body, more);
    OneMoreToken(Tabs(indent) + s, Comment("//" + body), "\n" + more);
    NewlineTokens(more);
    CommentCollected(body, Tokens(more));
  }

  /** Any other line comment adds nothing. */
  lemma PlainCommentsAreSkipped(body: string, more: string)
    requires OneLine(body) && (body == "" || body[0] != '@')
    ensures Collected(Tokens("//" + body + "\n" + more)) == Collected(Tokens(more))
    ensures AfterComments(Tokens("//" + body + "\n" + more)) == AfterComments(Tokens(more))
  {
    hide *;
    LexComment(body, more);
    OneMoreToken("//" + body + "\n" + more, Comment("//" + body), "\n" + more);
    NewlineTokens(more);
    PlainCollected(body, Tokens(more));
  }

  lemma PlainCollected(body: string, after: seq<Token>)
    requires body == "" || body[0] != '@'
    ensures Collected([Comment("//" + body)] + after) == Collected(after)
    ensures AfterComments([Comment("//" + body)] + after) == AfterComments(after)
  {
    assert ([Comment("//" + body)] + after)[1..] == after;
    assert body != "" ==> ("//" + body)[2] == body[0];
    MarkCharacters("//" + body);
    assert "" + Collected(after) == Collected(after);
  }

  lemma MarkCharacters(text: string)
    ensures MARK <= text ==> |text| >= 3 && text[2] == '@'
  {
    assert MARK[2] == '@';
  }

  lemma CommentText(declaration: string, more: string)
    ensures "//" + ("@ " + declaration) + "\n" + more == "//@ " + declaration + "\n" + more
    ensures ("//" + ("@ " + declaration))[3..] == " " + declaration
  {
  }

  lemma NewlineTokens(s: string)
    ensures Tokens("\n" + s) == Tokens(s)
  {
    LexSpace('\n', s);
  }

  lemma CommentCollected(body: string, after: seq<Token>)
    requires body != "" && body[0] == '@'
    ensures Collected([Comment("//" + body)] + after) == ("//" + body)[3..] + Collected(after)
    ensures AfterComments([Comment("//" + body)] + after) == AfterComments(after)
  {
    assert ([Comment("//" + body)] + after)[1..] == after;
    assert ("//" + body)[..3] == MARK;
  }

  // ----- printing and reading back -----

  lemma {:induction false} SetEntries(attrs: Attributes, keys: seq<string>, so: Attributes)
    requires forall k :: k in keys ==> k in attrs
    requires forall i, j :: 0 <= i < j < |keys| ==> keys[i] != keys[j]
    ensures forall k :: k in Set(so, Entries(attrs, keys)) <==> k in keys || k in so
    ensures forall k :: k in keys ==> Set(so, Entries(attrs, keys))[k] == attrs[k]
    ensures forall k :: k in so && k !in keys ==> Set(so, Entries(attrs, keys))[k] == so[k]
    decreases |keys|
  {
    if keys != [] {
      assert keys == [keys[0]] + keys[1..];
      assert forall k :: k in keys <==> k == keys[0] || k in keys[1..];
      assert Entries(attrs, keys)[1..] == Entries(attrs, keys[1..]);
      SetEntries(attrs, keys[1..], so[keys[0] := attrs[keys[0]]]);
      assert keys[0] !in keys[1..];
    }
  }

  lemma {:induction false} EntriesAre(attrs: Attributes, keys: seq<string>)
    requires forall k :: k in keys ==> k in attrs
    ensures |Entries(attrs, keys)| == |keys|
    ensures forall i :: 0 <= i < |keys| ==> Entries(attrs, keys)[i] == (keys[i], attrs[keys[i]])
  {
    if keys != [] { EntriesAre(attrs, keys[1..]); }
  }

  ghost predicate PrintableMap(attrs: Attributes) {
    forall k :: k in attrs ==> DottedName(k) && (attrs[k] != "" ==> Readable(attrs[k]))
  }

  /** Reading the text of an attribute map declares exactly that map. */
  lemma TextDeclaresMap(attrs: Attributes, keys: seq<string>)
    requires Enumerates(keys, attrs) && PrintableMap(attrs) && keys != []
    ensures var entries := Entries(attrs, keys);
            entries != [] && Declares(Tokens(Text(entries)), AllDeclared(entries)) &&
            Set(map[], FlattenedList("", AllDeclared(entries))) == attrs
  {
    hide Tokens, DottedName, Readable;
    var entries := Entries(attrs, keys);
    EntriesAre(attrs, keys);
    TextTokens(entries);
    SetEntries(attrs, keys, map[]);
  }

  /** writeAttributes; the keys are given in the order the map iterates over them. */
  method WriteAttributes(attrs: Attributes, keys: seq<string>, indent: nat) returns (out: string)
    requires forall k :: k in keys ==> k in attrs
    ensures out == Lines(indent, Entries(attrs, keys))
  {
    hide Lines, Entries, AllWord;
    NoLines(indent, attrs, keys[|keys|..]);
    var prefix := "";
    for i := 0 to indent
      invariant prefix == Tabs(i)
    {
      TabsCommute(i);
      prefix := prefix + "\t";
    }
    out := "";
    assert keys[0..] == keys;
    for i := 0 to |keys|
      invariant out + Lines(indent, Entries(attrs, keys[i..])) == Lines(indent, Entries(attrs, keys))
    {
      LinesStep(out, indent, attrs, keys[i..]);
      assert keys[i..][1..] == keys[i + 1..];
      out := WriteAttribute(out, prefix, keys[i], attrs[keys[i]]);
    }
  }

  /** One line of the output. */
  method WriteAttribute(out: string, prefix: string, name: string, value: string) returns (out': string)
    ensures out' == out + prefix + "//@ " + name + (if value == "" then "" else "=" + Shown(value)) + "\n"
  {
    hide MustQuote;
    out' := out + prefix + "//@ " + name;
    if value != "" {
      var mustQuote := Quotes(value);
      var quote := if mustQuote then "\"" else "";
      out' := out' + "=" + quote + value + quote;
      assert out' == out + prefix + "//@ " + name + ("=" + Shown(value));
    }
    out' := out' + "\n";
  }

  lemma NoLines(indent: nat, attrs: Attributes, keys: seq<string>)
    requires keys == []
    ensures Lines(indent, Entries(attrs, keys)) == ""
  {
  }

  method Quotes(value: string) returns (mustQuote: bool)
    requires value != ""
    ensures mustQuote == MustQuote(value)
  {
    mustQuote := false;
    if value[0] != '{' {
      for i := 0 to |value|
        invariant mustQuote <==> !AllWord(value[..i])
      {
        assert value[..i + 1] == value[..i] + [value[i]];
        if !IsWord(value[i]) { mustQuote := true; }
      }
      assert value[..|value|] == value;
    }
  }

  lemma {:induction false} TabsCommute(n: nat)
    ensures Tabs(n) + "\t" == Tabs(n + 1)
  {
    if n > 0 {
      TabsCommute(n - 1);
      assert Tabs(n) + "\t" == "\t" + (Tabs(n - 1) + "\t");
    }
  }

  lemma LinesStep(out: string, indent: nat, attrs: Attributes, keys: seq<string>)
    requires keys != [] && forall k :: k in keys ==> k in attrs
    ensures var e := (keys[0], attrs[keys[0]]);
            out + Lines(indent, Entries(attrs, keys)) ==
            out + Tabs(indent) + "//@ " + e.0 + (if e.1 == "" then "" else "=" + Shown(e.1)) + "\n"
            + Lines(indent, Entries(attrs, keys[1..]))
  {
    assert Entries(attrs, keys)[1..] == Entries(attrs, keys[1..]);
    var e := (keys[0], attrs[keys[0]]);
    Regroup(out, Tabs(indent), "//@ ", e.0, if e.1 == "" then "" else "=" + Shown(e.1), Lines(indent, Entries(attrs, keys[1..])));
  }

  lemma Regroup(out: string, t: string, m: string, n: string, v: string, l: string)
    ensures out + (t + m + (n + v) + "\n" + l) == out + t + m + n + v + "\n" + l
  {
  }

  /** The comment loop of nextToken. */
  method Collect(tokenizer: Tokenizer) returns (attrs: string, next: Token)
    modifies tokenizer
    ensures next == AfterComments(Tokens(old(tokenizer.rest)))
    ensures next != Bad ==> attrs == Collected(Tokens(old(tokenizer.rest)))
  {
    ghost var toks := Tokens(tokenizer.rest);
    ghost var cur := toks;
    attrs := "";
    next := tokenizer.Next();
    while next.Comment?
      invariant attrs + Collected(cur) == Collected(toks) && AfterComments(cur) == AfterComments(toks)
      invariant next == if cur == [] then Eof else cur[0]
      invariant next != Bad && next != Eof ==> cur == [next] + Tokens(tokenizer.rest)
      decreases |cur|
    {
      if MARK <= next.text {
        assert attrs + (next.text[3..] + Collected(cur[1..])) == attrs + next.text[3..] + Collected(cur[1..]);
        attrs := attrs + next.text[3..];
      } else {
        assert "" + Collected(cur[1..]) == Collected(cur[1..]);
      }
      cur := Tokens(tokenizer.rest);
      next := tokenizer.Next();
    }
  }
}
