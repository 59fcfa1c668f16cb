/** Attribute declarations as they stand in a source text, lists in braces included (CppParser/src/AttributesParser.cpp), and what they
    declare. */
module AttributeTexts {
  import opened Ascii
  import opened CppTokens
  import opened Wrappers
  import opened AttributesParser
  import opened AttributesPrinter

  /** Identifiers, integers and string literals without escapes. */
  predicate PlainValue(t: Token): (r: bool)
    ensures r ==> IsValue(t)
  {
    match t
    case Identifier(text) => IsIdentifier(text)
    case Integer(text) => text != "" && IsDigit(text[0]) && NumberEnd(text) == Some(Number(|text|, false))
    case StringLiteral(text) =>
      |text| >= 2 && text[0] == '"' == text[|text| - 1] && NothingSpecial(text[1..|text| - 1])
    case _ => false
  }

  predicate PlainAttribute(a: Attribute) {
    a.path != [] && (forall p :: p in a.path ==> IsIdentifier(p))
    && (a.Valued? ==> PlainValue(a.token)) && (a.Complex? ==> PlainList(a.inner))
  }

  predicate PlainList(l: List) {
    PlainAttribute(l.first) && (l.More? ==> PlainList(l.others))
  }

  function PathText(path: seq<string>): string
    requires path != []
  {
    if |path| == 1 then path[0] else path[0] + ("." + PathText(path[1..]))
  }

  /** name, name=value or name={list} */
  function AttributeText(a: Attribute): string
    requires a.path != []
    requires PlainAttribute(a)
    decreases a, 0
  {
    match a
    case Flag(path) => PathText(path)
    case Valued(path, token) => PathText(path) + ("=" + token.text)
    case Complex(path, inner) => PathText(path) + ("=" + ("{" + (ListText(inner) + " }")))
  }

  /** Attributes with a comma between them or none. */
  function ListText(l: List): string
    requires PlainList(l)
    decreases l, 1
  {
    AttributeText(l.first) + if l.One? then "" else (if l.comma then " , " else " ") + ListText(l.others)
  }

  // ----- the tokens -----

  lemma {:induction false} PlainIsSound(l: List)
    requires PlainList(l)
    ensures SoundList(l)
    decreases l
  {
    if l.first.Complex? { PlainIsSound(l.first.inner); }
    if l.More? { PlainIsSound(l.others); }
  }

  lemma {:induction false} PathTokens(path: seq<string>, after: string)
    requires path != [] && (forall p :: p in path ==> IsIdentifier(p)) && EndsName(after)
    ensures Tokens(PathText(path) + after) == PathWritten(path, Tokens(after))
    ensures PathText(path) != "" && IsIdentifierStart(PathText(path)[0])
    decreases |path|
  {
    hide Tokens, PathWritten;
    assert path[0] in path;
    if |path| == 1 {
      assert path == [path[0]];
      LastPart(path[0], after);
    } else {
      var rest := path[1..];
      assert forall p :: p in rest ==> p in path;
      PathTokens(rest, after);
      assert path == [path[0]] + rest;
      assert PathText(path) + after == path[0] + ("." + (PathText(rest) + after));
      OnePart(path[0], PathText(rest) + after, rest, Tokens(after));
    }
  }

  lemma LexMark(c: char, s: string)
    requires c in {',', '{', '}'}
    ensures Lex([c] + s) == Lexed(Operator([c]), s)
  {
    var t := [c] + s;
    assert t[0] == c && t[1..] == s && IsOperatorStart(t) && OperatorEnd(t) == Some(1) && t[..1] == [c];
    hide IsOperatorStart, OperatorEnd, LiteralEnd, NumberEnd, CommentEnd, DirectiveEnd, Span, IsNumberStart, IsCommentStart;
  }

  lemma MarkTokens(c: char, s: string)
    requires c in {',', '{', '}'}
    ensures Tokens([c] + s) == [Operator([c])] + Tokens(s)
  {
    LexMark(c, s);
    OneMoreToken([c] + s, Operator([c]), s);
  }

  lemma AssignTokens(s: string)
    requires !StartsWith(s, '=')
    ensures Tokens("=" + s) == [Operator("=")] + Tokens(s)
  {
    LexAssign(s);
    OneMoreToken("=" + s, Operator("="), s);
  }

  lemma ValueTokens(t: Token, after: string)
    requires PlainValue(t) && Breaks(after)
    ensures Tokens(t.text + after) == [t] + Tokens(after) && t.text != "" && t.text[0] != '='
  {
    hide Lex, Tokens, NumberEnd;
    match t
    case Identifier(text) =>
      LexWord(text, after);
      OneMoreToken(text + after, t, after);
    case Integer(text) =>
      LexNumber(text, after);
      OneMoreToken(text + after, t, after);
    case StringLiteral(text) =>
      var v := text[1..|text| - 1];
      assert text == "\"" + v + "\"";
      LexQuoted(v, after);
      OneMoreToken(text + after, t, after);
    case _ =>
  }

  lemma {:induction false} AttributeTokens(a: Attribute, after: string)
    requires PlainAttribute(a) && Breaks(after)
    ensures Sound(a) && Tokens(AttributeText(a) + after) == Written(a, Tokens(after))
    ensures AttributeText(a) != "" && IsIdentifierStart(AttributeText(a)[0])
    decreases a, 0
  {
    hide Tokens, PathText, IsIdentifier, PlainValue;
    match a
    case Flag(path) =>
      PathTokens(path, after);
    case Valued(path, token) =>
      ValueTokens(token, after);
      AssignTokens(token.text + after);
      PathTokens(path, "=" + (token.text + after));
      assert PathText(path) + ("=" + token.text) + after == PathText(path) + ("=" + (token.text + after));
      assert [Operator("=")] + ([token] + Tokens(after)) == [Operator("="), token] + Tokens(after);
    case Complex(path, inner) =>
      ListTokens(inner, " }" + after);
      PlainIsSound(inner);
      EndTokens(after);
      var body := ListText(inner) + (" }" + after);
      MarkTokens('{', body);
      AssignTokens(['{'] + body);
      PathTokens(path, "=" + (['{'] + body));
      BraceText(PathText(path), ListText(inner), after);
      assert [Operator("=")] + ([Operator("{")] + Tokens(body)) == [Operator("="), Operator("{")] + Tokens(body);
  }

  lemma EndTokens(after: string)
    ensures Tokens(" }" + after) == [Operator("}")] + Tokens(after)
  {
    assert " }" + after == " " + (['}'] + after);
    SpaceTokens(['}'] + after);
    MarkTokens('}', after);
  }

  lemma BraceText(path: string, list: string, after: string)
    ensures path + ("=" + ("{" + (list + " }"))) + after == path + ("=" + (['{'] + (list + (" }" + after))))
  {
  }

  lemma {:induction false} ListTokens(l: List, after: string)
    requires PlainList(l) && Breaks(after)
    ensures SoundList(l) && Tokens(ListText(l) + after) == ListWritten(l, Tokens(after))
    decreases l, 1
  {
    hide Tokens, AttributeText, Written;
    PlainIsSound(l);
    if l.One? {
      AttributeTokens(l.first, after);
      assert AttributeText(l.first) + "" + after == AttributeText(l.first) + after;
    } else {
      var others := ListText(l.others) + after;
      ListTokens(l.others, after);
      var separator := if l.comma then " , " else " ";
      AttributeTokens(l.first, separator + others);
      assert AttributeText(l.first) + (separator + ListText(l.others)) + after == AttributeText(l.first) + (separator + others);
      CommaTokens(others);
      SpaceTokens(others);
      assert [] + Tokens(others) == Tokens(others);
    }
  }

  lemma CommaTokens(s: string)
    ensures Tokens(" , " + s) == [Operator(",")] + Tokens(s)
  {
    assert " , " + s == " " + ([','] + (" " + s));
    SpaceTokens([','] + (" " + s));
    MarkTokens(',', " " + s);
    SpaceTokens(s);
  }

  // ----- what is declared -----

  /** A list written as text is what the parser reads from the text, and nothing is left over. */
  lemma TextIsParsed(l: List)
    requires PlainList(l)
    ensures SoundList(l) && ListOf(Tokens(ListText(l))) == Parsed(l, [])
  {
    ListTokens(l, "");
    assert ListText(l) + "" == ListText(l) && Tokens("") == [];
    hide Tokens, ListText, ListOf;
    assert Declares(Tokens(ListText(l)), l);
    AcceptsExactly(Tokens(ListText(l)), l);
  }

  /** The text path={list} is read, and sets what the list with the path in front of each name would set, and the path itself. */
  lemma BracesAreDots(path: seq<string>, l: List)
    requires PlainAttribute(Complex(path, l))
    ensures SoundList(PrefixedList(path, l))
    ensures ListOutcome(map[], "", Tokens(PathText(path) + ("=" + ("{" + (ListText(l) + " }"))))) ==
            Done(Set(map[], FlattenedList("", PrefixedList(path, l)) + [(Name(path), "")]), [])
  {
    var a := Complex(path, l);
    PlainIsSound(l);
    assert path[0] in path;
    TextIsParsed(One(a));
    NestingIsDotting(path, l);
    hide Tokens, ListOf, PathText, FlattenedList, Name;
    assert AttributeText(a) + "" == AttributeText(a);
    assert FlattenedList("", One(a)) == Flattened("", a) + [] by { FlatOne(a); }
    assert Flattened("", a) + [] == Flattened("", a);
  }

  lemma FlatOne(a: Attribute)
    requires Sound(a)
    ensures FlattenedList("", One(a)) == Flattened("", a) + []
  {
  }

  /** A name alone sets an empty value, a name with a value that value, each under the name with its parts joined by periods. */
  lemma PlainMeaning(path: seq<string>, t: Token)
    requires path != [] && PlainValue(t)
    ensures Flattened("", Flag(path)) == [(Name(path), "")] && Flattened("", Valued(path, t)) == [(Name(path), AsString(t))]
    ensures Name([path[0]]) == path[0] && Name([path[0]] + path) == path[0] + ("." + Name(path))
    ensures t.StringLiteral? ==> AsString(t) == t.text[1..|t.text| - 1]
    ensures !t.StringLiteral? ==> AsString(t) == t.text
  {
    NameStep(path[0], path);
    if t.StringLiteral? {
      var v := t.text[1..|t.text| - 1];
      UnescapedPlain(v);
      assert t.text[1..] == v + "\"";
    }
  }
}
