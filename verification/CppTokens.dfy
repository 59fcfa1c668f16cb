/** The C++ tokenizer (CppParser/src/CppToken.cpp, Tokenizer.cpp; Foundation/src/StreamTokenizer.cpp, Token.cpp).
    Keywords are identifiers here, as the attributes parser treats both alike. */
module CppTokens {
  import opened Wrappers
  import opened Ascii

  /** A token with its text; Bad stands for the exception of an unterminated literal or a malformed number or operator. */
  datatype Token =
    | Operator(text: string)
    | Identifier(text: string)
    | StringLiteral(text: string)
    | CharLiteral(text: string)
    | Integer(text: string)
    | Float(text: string)
    | Comment(text: string)
    | Preprocessor
    | Invalid(text: string)
    | Eof
    | Bad

  datatype Lexed = Lexed(token: Token, rest: string)

  predicate IsHex(c: char) { IsDigit(c) || 'a' <= c <= 'f' || 'A' <= c <= 'F' }

  predicate IsIdentifierStart(c: char) { IsAlpha(c) || c == '_' || c == '$' }

  predicate IsIdentifierPart(c: char) { IsIdentifierStart(c) || IsDigit(c) }

  predicate IsIntegerSuffix(c: char) { c == 'L' || c == 'l' || c == 'U' || c == 'u' }

  predicate IsFloatSuffix(c: char) { c == 'L' || c == 'l' || c == 'F' || c == 'f' }

  predicate InLine(c: char) { c != '\r' && c != '\n' }

  predicate IsOperatorChar(c: char) {
    c == '[' || c == ']' || c == '(' || c == ')' || c == '{' || c == '}' || c == '<' || c == '>' || c == '=' || c == '!' ||
    c == '&' || c == '|' || c == '*' || c == '+' || c == '-' || c == '^' || c == '~' || c == ',' || c == ':' || c == ';' ||
    c == '%' || c == '?'
  }

  predicate IsOperatorStart(s: string)
    requires s != ""
  {
    if s[0] == '.' then !Starts(s[1..], IsDigit)
    else if s[0] == '/' then !StartsWith(s[1..], '/') && !StartsWith(s[1..], '*')
    else IsOperatorChar(s[0])
  }

  /** Where an operator ends; two periods need a third. */
  function OperatorEnd(s: string): (end: Option<nat>)
    requires s != ""
    ensures end.Some? ==> 1 <= end.value <= |s|
  {
    var c, t := s[0], s[1..];
    if c == '.' then
      if !StartsWith(t, '.') then Some(1) else if StartsWith(t[1..], '.') then Some(3) else None
    else if c == ':' then Some(if StartsWith(t, ':') then 2 else 1)
    else if c == '<' || c == '>' then
      var n := if StartsWith(t, c) then 2 else 1;
      Some(if StartsWith(s[n..], '=') then n + 1 else n)
    else if c == '&' || c == '|' || c == '+' then Some(if StartsWith(t, c) || StartsWith(t, '=') then 2 else 1)
    else if c == '-' then Some(if StartsWith(t, '-') || StartsWith(t, '=') || StartsWith(t, '>') then 2 else 1)
    else if c == '=' || c == '!' || c == '*' || c == '/' || c == '^' || c == '%' then Some(if StartsWith(t, '=') then 2 else 1)
    else Some(1)
  }

  /** Where a quoted literal ends, from a position inside it; a backslash takes the next character along. */
  function LiteralEnd(s: string, quote: char, i: nat): (end: Option<nat>)
    requires i <= |s|
    ensures end.Some? ==> i < end.value <= |s|
    decreases |s| - i
  {
    if i == |s| then None
    else if s[i] == quote then Some(i + 1)
    else if !InLine(s[i]) then None
    else if s[i] != '\\' then LiteralEnd(s, quote, i + 1)
    else if i + 1 == |s| then None
    else LiteralEnd(s, quote, i + 2)
  }

  predicate IsNumberStart(s: string)
    requires s != ""
  {
    IsDigit(s[0]) || (s[0] == '.' && Starts(s[1..], IsDigit))
  }

  datatype Number = Number(end: nat, isFloat: bool)

  function NumberEnd(s: string): (n: Option<Number>)
    requires s != "" && IsNumberStart(s)
    ensures n.Some? ==> 1 <= n.value.end <= |s|
  {
    if s[0] == '.' then FractionEnd(s, 2, true)
    else if StartsWith(s[1..], 'x') then
      var h := 2 + Span(s[2..], IsHex);
      Some(Number(h + Span(s[h..], IsIntegerSuffix), false))
    else
      var d := 1 + Span(s[1..], IsDigit);
      if StartsWith(s[d..], '.') && !StartsWith(s[d + 1..], '.') then FractionEnd(s, d + 1, true)
      else FractionEnd(s, d, false)
  }

  function FractionEnd(s: string, i: nat, isFloat: bool): (n: Option<Number>)
    requires 1 <= i <= |s|
    ensures n.Some? ==> 1 <= n.value.end <= |s|
  {
    var j := i + Span(s[i..], IsDigit);
    if StartsWith(s[j..], 'e') || StartsWith(s[j..], 'E') then
      var k := if StartsWith(s[j + 1..], '+') || StartsWith(s[j + 1..], '-') then j + 2 else j + 1;
      if Starts(s[k..], IsDigit) then
        var m := k + Span(s[k..], IsDigit);
        Some(Number(if Starts(s[m..], IsFloatSuffix) then m + 1 else m, true))
      else None
    else if isFloat then Some(Number(if Starts(s[j..], IsFloatSuffix) then j + 1 else j, true))
    else Some(Number(j + Span(s[j..], IsIntegerSuffix), false))
  }

  predicate IsCommentStart(s: string)
    requires s != ""
  {
    s[0] == '/' && (StartsWith(s[1..], '/') || StartsWith(s[1..], '*'))
  }

  function BlockEnd(s: string, i: nat): (end: nat)
    requires i <= |s|
    ensures i <= end <= |s|
    decreases |s| - i
  {
    if i == |s| then i
    else if s[i] == '*' && StartsWith(s[i + 1..], '/') then i + 2
    else BlockEnd(s, i + 1)
  }

  function CommentEnd(s: string): (end: nat)
    requires s != "" && IsCommentStart(s)
    ensures 2 <= end <= |s|
  {
    if s[1] == '/' then 2 + Span(s[2..], InLine) else BlockEnd(s, 2)
  }

  /** Where a preprocessor line ends: a backslash continues it. */
  function DirectiveEnd(s: string, i: nat): (end: nat)
    requires i <= |s|
    ensures i <= end <= |s|
    decreases |s| - i
  {
    if i == |s| || !InLine(s[i]) then i
    else if s[i] == '\\' && StartsWith(s[i + 1..], '\n') then DirectiveEnd(s, i + 2)
    else if s[i] == '\\' && StartsWith(s[i + 1..], '\r') then
      var j := if StartsWith(s[i + 2..], '\n') then i + 3 else i + 2;
      DirectiveEnd(s, if j < |s| then j + 1 else j)
    else DirectiveEnd(s, i + 1)
  }

  /** The token that starts here: the first kind that can start takes it. */
  function LexHere(s: string): (r: Lexed)
    requires s != ""
    ensures r.token != Eof && |r.rest| <= |s| && (r.token != Bad ==> |r.rest| < |s|)
  {
    if IsOperatorStart(s) then
      match OperatorEnd(s)
      case Some(end) => Lexed(Operator(s[..end]), s[end..])
      case None => Lexed(Bad, "")
    else if IsIdentifierStart(s[0]) then
      var end := 1 + Span(s[1..], IsIdentifierPart);
      Lexed(Identifier(s[..end]), s[end..])
    else if s[0] == '"' then
      match LiteralEnd(s, '"', 1)
      case Some(end) => Lexed(StringLiteral(s[..end]), s[end..])
      case None => Lexed(Bad, "")
    else if s[0] == '\'' then
      match LiteralEnd(s, '\'', 1)
      case Some(end) => Lexed(CharLiteral(s[..end]), s[end..])
      case None => Lexed(Bad, "")
    else if IsNumberStart(s) then
      match NumberEnd(s)
      case Some(n) => Lexed(if n.isFloat then Float(s[..n.end]) else Integer(s[..n.end]), s[n.end..])
      case None => Lexed(Bad, "")
    else if IsCommentStart(s) then Lexed(Comment(s[..CommentEnd(s)]), s[CommentEnd(s)..])
    else if s[0] == '#' then Lexed(Preprocessor, s[DirectiveEnd(s, 1)..])
    else Lexed(Invalid(s[..1]), s[1..])
  }

  /** The next token. White space, where no other kind of token can start, is skipped. */
  function Lex(s: string): (r: Lexed)
    ensures r.token == Eof ==> r.rest == ""
    ensures r.token != Eof && r.token != Bad ==> |r.rest| < |s|
    ensures |r.rest| <= |s|
    decreases |s|
  {
    if s == "" then Lexed(Eof, "")
    else if IsSpace(s[0]) then Lex(s[1 + Span(s[1..], IsSpace)..])
    else LexHere(s)
  }

  /** All tokens of a text, to the end or up to and including the first bad one. */
  function Tokens(s: string): seq<Token>
    decreases |s|
  {
    match Lex(s)
    case Lexed(Eof, _) => []
    case Lexed(Bad, _) => [Bad]
    case Lexed(token, rest) => [token] + Tokens(rest)
  }

  /** StringLiteralToken::asString on the text between the quotes. */
  function Unescaped(s: string): string {
    if s == "" || s[0] == '"' then ""
    else if s[0] != '\\' then [s[0]] + Unescaped(s[1..])
    else if |s| == 1 then ""
    else [s[1]] + Unescaped(s[2..])
  }

  function AsString(t: Token): string {
    match t
    case Eof => ""
    case Bad => ""
    case Preprocessor => ""
    case StringLiteral(text) => if StartsWith(text, '"') then Unescaped(text[1..]) else Unescaped(text)
    case _ => t.text
  }

  lemma Regrouped(a: string, b: string, c: string)
    ensures a + (b + c) == a + b + c
  {
  }

  /** StringLiteralToken::asString; every other token is its own text. */
  method TextOf(t: Token) returns (result: string)
    ensures result == AsString(t)
  {
    if !t.StringLiteral? { return AsString(t); }
    var it := if StartsWith(t.text, '"') then t.text[1..] else t.text;
    result := "";
    while it != "" && it[0] != '"'
      invariant result + Unescaped(it) == AsString(t)
      decreases |it|
    {
      if it[0] == '\\' { it := it[1..]; }
      if it != "" {
        Regrouped(result, [it[0]], Unescaped(it[1..]));
        result, it := result + [it[0]], it[1..];
      }
    }
  }

  /** The tokenizer over its input stream, with the text of the token being read. */
  class Tokenizer {
    var rest: string
    var value: string

    constructor (input: string)
      ensures rest == input && value == ""
    {
      rest, value := input, "";
    }

    /** The token being read is the first pos characters of s. */
    ghost predicate At(s: string, pos: nat)
      reads this
    {
      pos <= |s| && value == s[..pos] && rest == s[pos..]
    }

    method Take(ghost s: string, ghost pos: nat)
      requires At(s, pos) && pos < |s|
      modifies this
      ensures At(s, pos + 1)
    {
      value, rest := value + [rest[0]], rest[1..];
    }

    method TakeWhile(p: char -> bool, ghost s: string, ghost pos: nat)
      requires At(s, pos)
      modifies this
      ensures At(s, pos + Span(s[pos..], p))
    {
      ghost var i := pos;
      while Starts(rest, p)
        invariant pos <= i && At(s, i) && i + Span(s[i..], p) == pos + Span(s[pos..], p)
        decreases |s| - i
      {
        assert s[i..][1..] == s[i + 1..];
        Take(s, i);
        i := i + 1;
      }
    }

    method Consume(n: nat, ghost s: string)
      requires rest == s && n <= |s|
      modifies this
      ensures At(s, n)
    {
      value, rest := rest[..n], rest[n..];
    }

    /** StringLiteralToken::finish and CharLiteralToken::finish; false where they throw. */
    method FinishLiteral(quote: char, ghost s: string) returns (ok: bool)
      requires At(s, 1)
      modifies this
      ensures var end := LiteralEnd(s, quote, 1); ok == end.Some? && (ok ==> At(s, end.value))
    {
      ghost var i := 1;
      while rest != "" && rest[0] != quote && InLine(rest[0])
        invariant At(s, i) && LiteralEnd(s, quote, i) == LiteralEnd(s, quote, 1)
        decreases |s| - i
      {
        if rest[0] == '\\' {
          Take(s, i);
          i := i + 1;
          if rest == "" { return false; }
        }
        Take(s, i);
        i := i + 1;
      }
      ok := StartsWith(rest, quote);
      if ok { Take(s, i); }
    }

    /** NumberLiteralToken::finish; None where it throws, otherwise whether the number is a float. */
    method FinishNumber(ghost s: string) returns (isFloat: Option<bool>)
      requires At(s, 1) && IsNumberStart(s)
      modifies this
      ensures var n := NumberEnd(s);
              (isFloat == None <==> n == None) && (n.Some? ==> At(s, n.value.end) && isFloat == Some(n.value.isFloat))
    {
      hide FractionEnd, Span;
      if value[0] != '.' {
        if StartsWith(rest, 'x') {
          Take(s, 1);
          TakeWhile(IsHex, s, 2);
          TakeWhile(IsIntegerSuffix, s, 2 + Span(s[2..], IsHex));
          return Some(false);
        }
        TakeWhile(IsDigit, s, 1);
        ghost var d := 1 + Span(s[1..], IsDigit);
        if StartsWith(rest, '.') {
          assert rest == "." + rest[1..];
          rest := rest[1..];
          if !StartsWith(rest, '.') {
            value := value + ".";
            isFloat := FinishFraction(true, s, d + 1);
          } else {
            rest := "." + rest;
            assert At(s, d);
            isFloat := FinishFraction(false, s, d);
          }
        } else {
          isFloat := FinishFraction(false, s, d);
        }
      } else {
        Take(s, 1);
        isFloat := FinishFraction(true, s, 2);
      }
    }

    /** The part after the period, with exponent and suffix. */
    method FinishFraction(startsFloat: bool, ghost s: string, ghost i: nat) returns (isFloat: Option<bool>)
      requires At(s, i) && i >= 1
      modifies this
      ensures var n := FractionEnd(s, i, startsFloat);
              (isFloat == None <==> n == None) && (n.Some? ==> At(s, n.value.end) && isFloat == Some(n.value.isFloat))
    {
      hide Span;
      TakeWhile(IsDigit, s, i);
      ghost var j := i + Span(s[i..], IsDigit);
      if StartsWith(rest, 'e') || StartsWith(rest, 'E') {
        isFloat := FinishExponent(s, j);
      } else if startsFloat {
        if Starts(rest, IsFloatSuffix) { Take(s, j); }
        isFloat := Some(true);
      } else {
        TakeWhile(IsIntegerSuffix, s, j);
        isFloat := Some(false);
      }
    }

    method FinishExponent(ghost s: string, ghost j: nat) returns (isFloat: Option<bool>)
      requires At(s, j) && j < |s|
      modifies this
      ensures var k := if StartsWith(s[j + 1..], '+') || StartsWith(s[j + 1..], '-') then j + 2 else j + 1;
              isFloat == (if Starts(s[k..], IsDigit) then Some(true) else None) &&
              (isFloat.Some? ==> var m := k + Span(s[k..], IsDigit); At(s, if Starts(s[m..], IsFloatSuffix) then m + 1 else m))
    {
      hide Span;
      Take(s, j);
      ghost var k := j + 1;
      if StartsWith(rest, '+') || StartsWith(rest, '-') {
        Take(s, k);
        k := k + 1;
      }
      if !Starts(rest, IsDigit) { return None; }
      TakeWhile(IsDigit, s, k);
      if Starts(rest, IsFloatSuffix) { Take(s, k + Span(s[k..], IsDigit)); }
      isFloat := Some(true);
    }

    method FinishComment(ghost s: string)
      requires At(s, 1) && IsCommentStart(s)
      modifies this
      ensures At(s, CommentEnd(s))
    {
      Take(s, 1);
      if value[1] == '/' {
        TakeWhile(InLine, s, 2);
      } else {
        ghost var i := 2;
        while rest != ""
          invariant 2 <= i && At(s, i) && BlockEnd(s, i) == BlockEnd(s, 2)
          decreases |s| - i
        {
          var next := rest[0];
          Take(s, i);
          if next == '*' && StartsWith(rest, '/') {
            Take(s, i + 1);
            return;
          }
          i := i + 1;
        }
      }
    }

    method FinishDirective(ghost s: string)
      requires At(s, 1)
      modifies this
      ensures rest == s[DirectiveEnd(s, 1)..]
    {
      ghost var i := 1;
      while rest != "" && InLine(rest[0])
        invariant i <= |s| && rest == s[i..] && DirectiveEnd(s, i) == DirectiveEnd(s, 1)
        decreases |s| - i
      {
        if rest[0] == '\\' && StartsWith(rest[1..], '\n') {
          rest, i := rest[2..], i + 2;
        } else if rest[0] == '\\' && StartsWith(rest[1..], '\r') {
          rest, i := rest[2..], i + 2;
          if StartsWith(rest, '\n') { rest, i := rest[1..], i + 1; }
          if rest != "" { rest, i := rest[1..], i + 1; }
        } else {
          rest, i := rest[1..], i + 1;
        }
      }
    }

    /** StreamTokenizer::next, which throws where the result is Bad. */
    method Next() returns (t: Token)
      modifies this
      ensures t == Lex(old(rest)).token && (t != Bad ==> rest == Lex(old(rest)).rest)
    {
      hide LexHere;
      ghost var all := rest;
      while rest != "" && IsSpace(rest[0])
        invariant Lex(rest) == Lex(all)
        decreases |rest|
      {
        ghost var s := rest;
        Consume(1, s);
        TakeWhile(IsSpace, s, 1);
      }
      if rest == "" { return Eof; }
      t := Read();
    }

    /** The token that starts at the front of the input. */
    method Read() returns (t: Token)
      requires rest != "" && !IsSpace(rest[0])
      modifies this
      ensures t == Lex(old(rest)).token && (t != Bad ==> rest == Lex(old(rest)).rest)
    {
      hide OperatorEnd, LiteralEnd, NumberEnd, CommentEnd, DirectiveEnd, Span, IsNumberStart, IsCommentStart, IsOperatorStart;
      ghost var s := rest;
      if IsOperatorStart(rest) {
        var end := OperatorEnd(rest);
        if end == None { return Bad; }
        Consume(end.value, s);
        return Operator(value);
      }
      var c := rest[0];
      var number, comment := IsNumberStart(rest), IsCommentStart(rest);
      Consume(1, s);
      if IsIdentifierStart(c) {
        TakeWhile(IsIdentifierPart, s, 1);
        return Identifier(value);
      } else if c == '"' {
        var ok := FinishLiteral('"', s);
        return if ok then StringLiteral(value) else Bad;
      } else if c == '\'' {
        var ok := FinishLiteral('\'', s);
        return if ok then CharLiteral(value) else Bad;
      } else if number {
        var isFloat := FinishNumber(s);
        return match isFloat case None => Bad case Some(f) => if f then Float(value) else Integer(value);
      } else if comment {
        FinishComment(s);
        return Comment(value);
      } else if c == '#' {
        FinishDirective(s);
        return Preprocessor;
      }
      return Invalid(value);
    }
  }
}
