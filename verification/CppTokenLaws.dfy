/** What the tokens of the C++ tokenizer are, stated without its state machines (CppParser/src/CppToken.cpp): the table of operators and
    the longest match against it, numerals and literals as they are written, and where comments and preprocessor lines end. */
module CppTokenLaws {
  import opened Wrappers
  import opened Ascii
  import opened CppTokens

  // ----- operators -----

  const SINGLES: set<string> := {
    "[", "]", "(", ")", "{", "}", "<", ">", "=", "!", "&", "|", "^", "~", "*", "/", "+", "-", "%", ",", ".", ":", ";", "?"}

  const DOUBLES: set<string> := {
    "<=", "<<", ">=", ">>", "==", "!=", "&=", "&&", "|=", "||", "^=", "*=", "/=", "+=", "++", "-=", "--", "->", "%=", "::"}

  const TRIPLES: set<string> := {"<<=", ">>=", "..."}

  /** The table of OperatorToken. */
  const OPERATORS := SINGLES + DOUBLES + TRIPLES

  const SINGLE_CHARACTERS: set<char> := {
    '[', ']', '(', ')', '{', '}', '<', '>', '=', '!', '&', '|', '^', '~', '*', '/', '+', '-', '%', ',', '.', ':', ';', '?'}

  const BEFORE_EQUALS: set<char> := {'<', '>', '=', '!', '&', '|', '^', '*', '/', '+', '-', '%'}

  const DOUBLED: set<char> := {'<', '>', '&', '|', '+', '-', ':'}

  /** A prefix of the text that is an operator. */
  predicate OperatorAt(s: string, n: nat)
  {
    n <= |s| && s[..n] in OPERATORS
  }

  lemma Lengths(t: string)
    ensures t in SINGLES ==> |t| == 1
    ensures t in DOUBLES ==> |t| == 2
    ensures t in TRIPLES ==> |t| == 3
  {
  }

  lemma OperatorOfOne(t: string)
    requires |t| == 1
    ensures t in OPERATORS <==> t[0] in SINGLE_CHARACTERS
  {
    Lengths(t);
    SingleCharacter(t);
  }

  lemma SingleCharacter(t: string)
    requires |t| == 1
    ensures t in SINGLES <==> t[0] in SINGLE_CHARACTERS
  {
    assert t == [t[0]];
  }

  lemma OperatorOfTwo(t: string)
    requires |t| == 2
    ensures t in OPERATORS <==> (t[1] == '=' && t[0] in BEFORE_EQUALS) || (t[0] == t[1] && t[0] in DOUBLED) || t == "->"
  {
    Lengths(t);
    assert t == [t[0], t[1]];
  }

  lemma OperatorOfThree(t: string)
    requires |t| == 3
    ensures t in OPERATORS <==> t == "<<=" || t == ">>=" || t == "..."
  {
    Lengths(t);
  }

  lemma NoLongerOperator(t: string)
    requires t in OPERATORS
    ensures 1 <= |t| <= 3
  {
    Lengths(t);
  }

  /** The beginning of a text in terms of its characters. */
  lemma Fronts(s: string)
    ensures |s| >= 1 ==> s[..1] == [s[0]]
    ensures |s| >= 2 ==> s[..2] == [s[0], s[1]] && s[1..][0] == s[1] && s[1..][1..] == s[2..]
    ensures |s| >= 3 ==> s[..3] == [s[0], s[1], s[2]] && s[2..][0] == s[2]
  {
  }

  /** Which operators a text begins with, by its first three characters. */
  lemma OperatorsAtFront(s: string)
    requires s != ""
    ensures OperatorAt(s, 1) <==> s[0] in SINGLE_CHARACTERS
    ensures OperatorAt(s, 2) <==>
            |s| >= 2 && ((s[1] == '=' && s[0] in BEFORE_EQUALS) || (s[0] == s[1] && s[0] in DOUBLED) || (s[0] == '-' && s[1] == '>'))
    ensures OperatorAt(s, 3) <==>
            |s| >= 3 && s[0] == s[1] && ((s[0] in {'<', '>'} && s[2] == '=') || (s[0] == '.' && s[2] == '.'))
    ensures forall n: nat :: OperatorAt(s, n) ==> 1 <= n <= 3
  {
    Fronts(s);
    OperatorOfOne(s[..1]);
    if |s| >= 2 { OperatorOfTwo(s[..2]); }
    if |s| >= 3 { OperatorOfThree(s[..3]); }
    forall n: nat | OperatorAt(s, n) ensures 1 <= n <= 3 { NoLongerOperator(s[..n]); }
    hide *;
  }

  /** The decision in terms of the second and third character, where there are any. */
  lemma EndByCharacters(s: string)
    requires s != "" && IsOperatorStart(s)
    ensures var second, third := if |s| > 1 then s[1] else '\0', if |s| > 2 then s[2] else '\0';
            OperatorEnd(s) ==
            if s[0] == '.' then (if second != '.' then Some(1) else if third == '.' then Some(3) else None)
            else if (s[0] == '<' || s[0] == '>') && second == s[0] then Some(if third == '=' then 3 else 2)
            else if (second == '=' && s[0] in BEFORE_EQUALS) || (second == s[0] && s[0] in DOUBLED - {'<', '>'})
                    || (s[0] == '-' && second == '>') then
              Some(2)
            else Some(1)
  {
    Fronts(s);
  }

  lemma TakenIsOperator(s: string)
    requires s != "" && IsOperatorStart(s) && OperatorEnd(s).Some?
    ensures OperatorAt(s, OperatorEnd(s).value)
  {
    OperatorsAtFront(s);
    EndByCharacters(s);
    OperatorStartCharacter(s);
    hide *;
  }

  lemma NothingLonger(s: string, n: nat)
    requires s != "" && IsOperatorStart(s) && OperatorEnd(s).Some? && OperatorAt(s, n)
    ensures n <= OperatorEnd(s).value
  {
    OperatorsAtFront(s);
    EndByCharacters(s);
    hide *;
    if n == 2 {
      assert OperatorAt(s, 2);
    } else if n == 3 {
      assert OperatorAt(s, 3);
    }
  }

  lemma TwoPeriods(s: string)
    requires s != "" && IsOperatorStart(s)
    ensures OperatorEnd(s) == None <==> ".." <= s && !("..." <= s)
  {
    EndByCharacters(s);
    Fronts(s);
    hide *;
  }

  /** The operator taken is the longest one the text begins with; two periods without a third, of which a single one would be
      an operator, are an error. */
  lemma LongestOperator(s: string)
    requires s != "" && IsOperatorStart(s)
    ensures OperatorEnd(s) == None <==> ".." <= s && !("..." <= s)
    ensures OperatorEnd(s).Some? ==> OperatorAt(s, OperatorEnd(s).value)
    ensures OperatorEnd(s).Some? ==> forall n: nat :: OperatorAt(s, n) ==> n <= OperatorEnd(s).value
  {
    TwoPeriods(s);
    hide IsOperatorStart, OperatorEnd, OperatorAt;
    if OperatorEnd(s).Some? {
      TakenIsOperator(s);
      forall n: nat | OperatorAt(s, n) ensures n <= OperatorEnd(s).value { NothingLonger(s, n); }
    }
  }

  lemma OperatorStartCharacter(s: string)
    requires s != "" && IsOperatorStart(s)
    ensures s[0] in SINGLE_CHARACTERS
  {
  }

  predicate BeginsNumber(s: string) {
    s != "" && ('0' <= s[0] <= '9' || (|s| > 1 && s[0] == '.' && '0' <= s[1] <= '9'))
  }

  predicate BeginsComment(s: string) {
    |s| > 1 && s[0] == '/' && (s[1] == '/' || s[1] == '*')
  }

  /** Operators start where the text begins with one, except where a number or a comment does. */
  lemma OperatorStarts(s: string)
    requires s != ""
    ensures IsOperatorStart(s) <==> OperatorAt(s, 1) && !BeginsNumber(s) && !BeginsComment(s)
  {
    OperatorsAtFront(s);
    StartCharacters(s);
    hide *;
  }

  lemma StartCharacters(s: string)
    requires s != ""
    ensures IsOperatorStart(s) <==> s[0] in SINGLE_CHARACTERS && !BeginsNumber(s) && !BeginsComment(s)
  {
    Fronts(s);
  }

  // ----- comments -----

  predicate ClosesAt(s: string, i: nat) {
    i + 1 < |s| && s[i] == '*' && s[i + 1] == '/'
  }

  /** A block comment ends behind the first asterisk and slash after its beginning, or with the text. */
  lemma {:induction false} BlockEndsFirst(s: string, i: nat)
    requires i <= |s|
    ensures var end := BlockEnd(s, i);
            (forall k :: i <= k < end - 2 ==> !ClosesAt(s, k)) &&
            (if exists k :: i <= k && ClosesAt(s, k) then end >= i + 2 && ClosesAt(s, end - 2)
             else end == |s| && !(end >= i + 2 && ClosesAt(s, end - 2)))
    decreases |s| - i
  {
    if i < |s| {
      assert StartsWith(s[i + 1..], '/') <==> i + 1 < |s| && s[i + 1] == '/';
      if ClosesAt(s, i) {
        assert BlockEnd(s, i) == i + 2;
      } else {
        BlockEndsFirst(s, i + 1);
        if k :| i <= k && ClosesAt(s, k) { assert i + 1 <= k; }
      }
    }
  }

  /** A line comment ends before the first line end, or with the text. */
  lemma LineEndsFirst(s: string)
    requires "//" <= s
    ensures IsCommentStart(s)
    ensures var end := CommentEnd(s);
            (forall k :: 2 <= k < end ==> s[k] != '\r' && s[k] != '\n') && (end < |s| ==> s[end] == '\r' || s[end] == '\n')
  {
    Fronts(s);
    SpanStops(s[2..], InLine);
    assert s[0] == "//"[0] && s[1] == "//"[1];
    forall k | 2 <= k < CommentEnd(s) ensures s[k] != '\r' && s[k] != '\n' { assert s[k] == s[2..][k - 2]; }
    if CommentEnd(s) < |s| { assert s[CommentEnd(s)] == s[2..][CommentEnd(s) - 2]; }
  }

  // ----- preprocessor lines -----

  /** A piece of a preprocessor line: a character of the line, a backslash with the line feed it hides, or a backslash with a carriage
      return, a line feed if there is one, and the first character of the next line. */
  datatype Piece = Plain(c: char) | Hidden | HiddenReturn(feed: bool, next: char)

  function PieceText(p: Piece): string {
    match p
    case Plain(c) => [c]
    case Hidden => ['\\', '\n']
    case HiddenReturn(feed, next) => ['\\', '\r'] + (if feed then ['\n'] else []) + [next]
  }

  function LineText(pieces: seq<Piece>): string {
    if pieces == [] then "" else PieceText(pieces[0]) + LineText(pieces[1..])
  }

  predicate IsPiece(p: Piece) {
    (p.Plain? ==> InLine(p.c)) && (p.HiddenReturn? && !p.feed ==> p.next != '\n')
  }

  /** A backslash that is no continuation is not in front of a line end. */
  predicate IsLine(pieces: seq<Piece>, after: string) {
    pieces == [] ||
    (IsPiece(pieces[0]) && IsLine(pieces[1..], after)
     && (pieces[0] == Plain('\\') ==> !Starts(LineText(pieces[1..]) + after, NotInLine)))
  }

  predicate NotInLine(c: char) { !InLine(c) }

  lemma LineStep(pieces: seq<Piece>, after: string)
    requires pieces != [] && IsLine(pieces, after)
    ensures LineText(pieces) + after == PieceText(pieces[0]) + (LineText(pieces[1..]) + after)
    ensures IsPiece(pieces[0]) && IsLine(pieces[1..], after)
    ensures pieces[0] == Plain('\\') ==> !Starts(LineText(pieces[1..]) + after, NotInLine)
  {
    hide PieceText, IsPiece;
  }

  /** A preprocessor line, with any lines it continues on, is taken up to the next line end. */
  lemma {:induction false} DirectiveIsTaken(s: string, i: nat, pieces: seq<Piece>, after: string)
    requires i <= |s| && s[i..] == LineText(pieces) + after && IsLine(pieces, after) && (after == "" || !InLine(after[0]))
    ensures DirectiveEnd(s, i) == |s| - |after|
    decreases |pieces|
  {
    if pieces == [] {
      assert s[i..] == after;
      assert i < |s| ==> s[i] == after[0];
    } else {
      LineStep(pieces, after);
      hide PieceText, IsPiece, InLine, NotInLine, DirectiveEnd, LineText, IsLine;
      var p, rest := PieceText(pieces[0]), LineText(pieces[1..]) + after;
      SplitOff(s, i, p, rest);
      PieceIsTaken(s, i, pieces[0], rest);
      DirectiveIsTaken(s, i + |p|, pieces[1..], after);
    }
  }

  lemma SplitOff(s: string, i: nat, p: string, rest: string)
    requires i <= |s| && s[i..] == p + rest
    ensures i + |p| <= |s| && s[i + |p|..] == rest && forall k :: 0 <= k < |p| ==> s[i + k] == p[k] && i + k < |s|
  {
    assert s[i + |p|..] == s[i..][|p|..];
    forall k | 0 <= k < |p| ensures s[i + k] == p[k] { assert s[i..][k] == p[k]; }
  }

  lemma PieceIsTaken(s: string, i: nat, piece: Piece, rest: string)
    requires i <= |s| && s[i..] == PieceText(piece) + rest && IsPiece(piece)
    requires piece == Plain('\\') ==> !Starts(rest, NotInLine)
    ensures i + |PieceText(piece)| <= |s| && DirectiveEnd(s, i) == DirectiveEnd(s, i + |PieceText(piece)|)
  {
    var p := PieceText(piece);
    SplitOff(s, i, p, rest);
    assert s[i] == p[0];
    match piece
    case Plain(c) =>
      assert s[i + 1..] == rest;
      assert c == '\\' ==> !StartsWith(s[i + 1..], '\n') && !StartsWith(s[i + 1..], '\r');
    case Hidden =>
      assert s[i + 1..][0] == p[1];
    case HiddenReturn(feed, next) =>
      assert s[i + 1..][0] == p[1] == '\r' && s[i + 2..][0] == p[2];
  }

  // ----- literals -----

  /** A text as it can be written between quotes: with a backslash before each quote, backslash and line end. */
  function Quotable(v: string, quote: char): string {
    if v == "" then ""
    else (if v[0] == quote || v[0] == '\\' || !InLine(v[0]) then ['\\', v[0]] else [v[0]]) + Quotable(v[1..], quote)
  }

  lemma {:induction false} QuotableIsTaken(s: string, i: nat, v: string, quote: char, after: string)
    requires i <= |s| && s[i..] == Quotable(v, quote) + [quote] + after && InLine(quote) && quote != '\\'
    ensures LiteralEnd(s, quote, i) == Some(|s| - |after|)
    decreases |v|
  {
    if v == "" {
      assert s[i] == s[i..][0] == quote;
    } else {
      var p := if v[0] == quote || v[0] == '\\' || !InLine(v[0]) then ['\\', v[0]] else [v[0]];
      var rest := Quotable(v[1..], quote) + [quote] + after;
      assert s[i..] == p + rest;
      SplitOff(s, i, p, rest);
      assert s[i] == p[0] && (|p| == 2 ==> i + 1 < |s|);
      QuotableIsTaken(s, i + |p|, v[1..], quote, after);
    }
  }

  lemma {:induction false} QuotableIsUnescaped(v: string, after: string)
    ensures Unescaped(Quotable(v, '"') + "\"" + after) == v
    decreases |v|
  {
    var t := Quotable(v, '"') + "\"" + after;
    if v != "" {
      var rest := Quotable(v[1..], '"') + "\"" + after;
      QuotableIsUnescaped(v[1..], after);
      if v[0] == '"' || v[0] == '\\' || !InLine(v[0]) {
        assert t == ['\\', v[0]] + rest && t[2..] == rest;
      } else {
        assert t == [v[0]] + rest && t[1..] == rest;
      }
    }
  }

  /** Any text can be written as a string literal, is taken whole, and is the value of the token. */
  lemma LiteralRoundTrip(v: string, after: string)
    ensures var text := "\"" + Quotable(v, '"') + "\"";
            Lex(text + after) == Lexed(StringLiteral(text), after) && AsString(StringLiteral(text)) == v
  {
    var text := "\"" + Quotable(v, '"') + "\"";
    var s := text + after;
    assert s[1..] == Quotable(v, '"') + ['"'] + after;
    QuotableIsTaken(s, 1, v, '"', after);
    assert s[..|text|] == text && s[|text|..] == after;
    QuotableIsUnescaped(v, "");
    assert text[1..] == Quotable(v, '"') + "\"" + "";
    LexIsHere(s);
    QuoteHere(s);
    hide Lex, LexHere, Quotable;
  }

  // ----- which kind of token -----

  predicate IsLetterLike(c: char) { 'A' <= c <= 'Z' || 'a' <= c <= 'z' || c == '_' || c == '$' }

  lemma NameHere(s: string)
    requires s != "" && IsLetterLike(s[0])
    ensures LexHere(s).token.Identifier?
  {
    assert !IsOperatorStart(s);
    hide IsOperatorStart, Span;
  }

  lemma QuoteHere(s: string)
    requires s != "" && (s[0] == '"' || s[0] == '\'')
    ensures LexHere(s) ==
            match LiteralEnd(s, s[0], 1)
            case Some(end) => Lexed(if s[0] == '"' then StringLiteral(s[..end]) else CharLiteral(s[..end]), s[end..])
            case None => Lexed(Bad, "")
  {
    assert !IsOperatorStart(s) && !IsIdentifierStart(s[0]);
    hide IsOperatorStart, LiteralEnd, IsIdentifierStart;
  }

  lemma NumberHere(s: string)
    requires BeginsNumber(s)
    ensures IsNumberStart(s)
    ensures LexHere(s) ==
            match NumberEnd(s)
            case Some(n) => Lexed(if n.isFloat then Float(s[..n.end]) else Integer(s[..n.end]), s[n.end..])
            case None => Lexed(Bad, "")
  {
    Fronts(s);
    assert !IsOperatorStart(s) && !IsIdentifierStart(s[0]) && IsNumberStart(s);
    hide IsOperatorStart, NumberEnd, IsIdentifierStart, IsNumberStart;
  }

  lemma CommentHere(s: string)
    requires BeginsComment(s)
    ensures IsCommentStart(s) && LexHere(s) == Lexed(Comment(s[..CommentEnd(s)]), s[CommentEnd(s)..])
  {
    Fronts(s);
    assert !IsOperatorStart(s) && !IsIdentifierStart(s[0]) && !IsNumberStart(s) && IsCommentStart(s);
    hide IsOperatorStart, IsIdentifierStart, IsNumberStart, IsCommentStart, CommentEnd;
  }

  lemma DirectiveHere(s: string)
    requires s != "" && s[0] == '#'
    ensures LexHere(s) == Lexed(Preprocessor, s[DirectiveEnd(s, 1)..])
  {
    assert !IsOperatorStart(s) && !IsIdentifierStart(s[0]) && !IsNumberStart(s) && !IsCommentStart(s);
    hide IsOperatorStart, IsIdentifierStart, IsNumberStart, IsCommentStart, DirectiveEnd;
  }

  lemma LexIsHere(s: string)
    requires s != "" && !IsSpace(s[0])
    ensures Lex(s) == LexHere(s)
  {
    hide LexHere;
  }

  /** The first character decides the kind of the token, together with the second for a period or a slash. */
  lemma FirstDecides(s: string)
    requires s != "" && !IsSpace(s[0])
    ensures IsLetterLike(s[0]) ==> Lex(s).token.Identifier?
    ensures s[0] == '"' ==> Lex(s).token.StringLiteral? || (Lex(s).token == Bad && LiteralEnd(s, '"', 1) == None)
    ensures s[0] == '\'' ==> Lex(s).token.CharLiteral? || (Lex(s).token == Bad && LiteralEnd(s, '\'', 1) == None)
    ensures BeginsNumber(s) ==> Lex(s).token.Integer? || Lex(s).token.Float? || Lex(s).token == Bad
    ensures BeginsComment(s) ==> Lex(s).token.Comment?
    ensures s[0] == '#' ==> Lex(s).token == Preprocessor
  {
    LexIsHere(s);
    hide Lex, LexHere, LiteralEnd;
    if IsLetterLike(s[0]) { NameHere(s); }
    if s[0] == '"' || s[0] == '\'' { QuoteHere(s); }
    if BeginsNumber(s) { NumberHere(s); }
    if BeginsComment(s) { CommentHere(s); }
    if s[0] == '#' { DirectiveHere(s); }
  }

  // ----- nothing is lost -----

  /** The text of a token and what is left behind it are the input, apart from the white space in front. */
  lemma {:induction false} TextAndRest(s: string)
    ensures var l := Lex(s);
            l.token.Eof? || l.token.Bad? || l.token.Preprocessor? || s[Span(s, IsSpace)..] == l.token.text + l.rest
    ensures Lex(s).token.Eof? <==> Span(s, IsSpace) == |s|
    ensures Lex(s).token.Preprocessor? ==> Lex(s).rest == s[Span(s, IsSpace)..][DirectiveEnd(s[Span(s, IsSpace)..], 1)..]
    decreases |s|
  {
    if s != "" && IsSpace(s[0]) {
      var k := 1 + Span(s[1..], IsSpace);
      SpanStops(s[1..], IsSpace);
      assert k < |s| ==> s[k] == s[1..][k - 1];
      TextAndRest(s[k..]);
      assert Span(s[k..], IsSpace) == 0;
      hide LexHere;
    } else if s != "" {
      HereTextAndRest(s);
      hide LexHere;
    }
  }

  lemma HereTextAndRest(s: string)
    requires s != "" && !IsSpace(s[0])
    ensures var l := LexHere(s);
            l.token != Eof && (l.token.Bad? || l.token.Preprocessor? || s == l.token.text + l.rest) &&
            (l.token.Preprocessor? ==> l.rest == s[DirectiveEnd(s, 1)..])
  {
    hide LiteralEnd, NumberEnd, CommentEnd, DirectiveEnd, OperatorEnd, Span, IsOperatorStart, IsCommentStart, IsNumberStart;
    assert forall n: nat :: n <= |s| ==> s == s[..n] + s[n..];
  }

  // ----- numerals -----

  datatype Exponent = NoExponent | Exponent(letter: char, sign: string, digits: string)

  /** A numeral as it is written. */
  datatype Numeral =
    | Hexadecimal(first: char, digits: string, suffix: string)
    | Decimal(whole: string, suffix: string)
    | Real(whole: string, point: bool, fraction: string, exponent: Exponent, suffix: string)

  predicate DigitText(s: string) { forall i :: 0 <= i < |s| ==> '0' <= s[i] <= '9' }

  predicate HexText(s: string) {
    forall i :: 0 <= i < |s| ==> '0' <= s[i] <= '9' || 'a' <= s[i] <= 'f' || 'A' <= s[i] <= 'F'
  }

  predicate IntegerSuffix(s: string) { forall i :: 0 <= i < |s| ==> s[i] in {'L', 'l', 'U', 'u'} }

  function ExponentText(e: Exponent): string {
    match e
    case NoExponent => ""
    case Exponent(letter, sign, digits) => [letter] + sign + digits
  }

  function NumeralText(n: Numeral): string {
    match n
    case Hexadecimal(first, digits, suffix) => [first] + "x" + digits + suffix
    case Decimal(whole, suffix) => whole + suffix
    case Real(whole, point, fraction, exponent, suffix) =>
      whole + (if point then "." + fraction else "") + ExponentText(exponent) + suffix
  }

  predicate IsExponent(e: Exponent) {
    e.Exponent? ==> e.letter in {'e', 'E'} && e.sign in {"", "+", "-"} && e.digits != "" && DigitText(e.digits)
  }

  /** A real has a period, with a digit on one side of it at least, or an exponent. */
  predicate IsNumeral(n: Numeral) {
    match n
    case Hexadecimal(first, digits, suffix) => '0' <= first <= '9' && HexText(digits) && IntegerSuffix(suffix)
    case Decimal(whole, suffix) => whole != "" && DigitText(whole) && IntegerSuffix(suffix)
    case Real(whole, point, fraction, exponent, suffix) =>
      DigitText(whole) && DigitText(fraction) && IsExponent(exponent) && suffix in {"", "L", "l", "F", "f"}
      && (whole == "" ==> point && fraction != "") && (!point ==> fraction == "" && exponent.Exponent?)
  }

  predicate IsDecimalDigit(c: char) { '0' <= c <= '9' }

  /** What follows does not belong to the numeral. */
  predicate EndsNumeral(n: Numeral, after: string) {
    match n
    case Hexadecimal(_, _, suffix) => !Starts(after, IsIntegerSuffix) && (suffix == "" ==> !Starts(after, IsHex))
    case Decimal(whole, suffix) =>
      !Starts(after, IsIntegerSuffix)
      && (suffix == "" ==>
            !Starts(after, IsDecimalDigit) && !StartsWith(after, 'e') && !StartsWith(after, 'E')
            && (|whole| == 1 ==> !StartsWith(after, 'x'))
            && (StartsWith(after, '.') ==> StartsWith(after[1..], '.')))
    case Real(_, _, fraction, exponent, suffix) =>
      suffix == "" ==>
        !Starts(after, IsFloatSuffix) && !Starts(after, IsDecimalDigit)
        && (exponent.NoExponent? ==> !StartsWith(after, 'e') && !StartsWith(after, 'E') && (fraction == "" ==> !StartsWith(after, '.')))
  }

  /** A run of one class of characters, cut out of a text. */
  lemma RunAt(s: string, i: nat, run: string, rest: string, p: char -> bool)
    requires i <= |s| && s[i..] == run + rest && (forall k :: 0 <= k < |run| ==> p(run[k])) && !Starts(rest, p)
    ensures Span(s[i..], p) == |run| && i + |run| <= |s| && s[i + |run|..] == rest
  {
    SpanAll(run, rest, p);
    SplitOff(s, i, run, rest);
  }

  /** Where the digits of an exponent start. */
  function DigitsOfExponent(s: string, j: nat): (k: nat)
    requires j < |s|
    ensures j < k <= |s|
  {
    if StartsWith(s[j + 1..], '+') || StartsWith(s[j + 1..], '-') then j + 2 else j + 1
  }

  lemma ExponentBegins(s: string, j: nat, letter: char, sign: string, more: string)
    requires j <= |s| && s[j..] == [letter] + (sign + more) && sign in {"", "+", "-"} && Starts(more, IsDigit)
    ensures j < |s| && s[j] == letter && s[j..][0] == letter
    ensures DigitsOfExponent(s, j) == j + 1 + |sign| && s[DigitsOfExponent(s, j)..] == more
  {
    SplitOff(s, j, [letter], sign + more);
    SplitOff(s, j + 1, sign, more);
    assert sign == "" ==> sign + more == more;
  }

  lemma ExponentRead(s: string, j: nat, letter: char, sign: string, digits: string, rest: string)
    requires j <= |s| && s[j..] == [letter] + (sign + (digits + rest)) && IsExponent(Exponent(letter, sign, digits))
    requires !Starts(rest, IsDigit)
    ensures j < |s| && s[j..][0] == letter
    ensures var k := DigitsOfExponent(s, j);
            Starts(s[k..], IsDigit) && k + Span(s[k..], IsDigit) <= |s| && s[k + Span(s[k..], IsDigit)..] == rest
  {
    assert Starts(digits + rest, IsDigit);
    ExponentBegins(s, j, letter, sign, digits + rest);
    hide DigitsOfExponent;
    RunAt(s, DigitsOfExponent(s, j), digits, rest, IsDigit);
  }

  /** Behind the digits in front of it, and the period if there is one, a fraction with an exponent is read to its end. */
  lemma FractionWithExponent(s: string, i: nat, point: bool, fraction: string, letter: char, sign: string, digits: string,
                             rest: string)
    requires 1 <= i <= |s| && s[i..] == fraction + ([letter] + (sign + (digits + rest)))
    requires DigitText(fraction) && IsExponent(Exponent(letter, sign, digits)) && !Starts(rest, IsDigit)
    ensures FractionEnd(s, i, point) == Some(Number(if Starts(rest, IsFloatSuffix) then |s| - |rest| + 1 else |s| - |rest|, true))
  {
    hide *;
    FractionRun(s, i, fraction, letter, sign, digits, sign + (digits + rest));
    ExponentRead(s, i + |fraction|, letter, sign, digits, rest);
    WithExponent(s, i, point);
  }

  lemma FractionRun(s: string, i: nat, fraction: string, letter: char, sign: string, digits: string, more: string)
    requires i <= |s| && s[i..] == fraction + ([letter] + more)
    requires DigitText(fraction) && IsExponent(Exponent(letter, sign, digits))
    ensures letter == 'e' || letter == 'E'
    ensures Span(s[i..], IsDigit) == |fraction| && i + |fraction| <= |s| && s[i + |fraction|..] == [letter] + more
  {
    RunAt(s, i, fraction, [letter] + more, IsDigit);
    hide Span;
  }

  lemma FractionWithout(s: string, i: nat, fraction: string, rest: string)
    requires 1 <= i <= |s| && s[i..] == fraction + rest && DigitText(fraction)
    requires !Starts(rest, IsDigit) && !StartsWith(rest, 'e') && !StartsWith(rest, 'E')
    ensures FractionEnd(s, i, true) == Some(Number(if Starts(rest, IsFloatSuffix) then |s| - |rest| + 1 else |s| - |rest|, true))
  {
    RunAt(s, i, fraction, rest, IsDigit);
    hide Span, DigitText;
  }

  lemma WithExponent(s: string, i: nat, point: bool)
    requires 1 <= i <= |s|
    ensures var j := i + Span(s[i..], IsDigit);
            j < |s| && (s[j..][0] == 'e' || s[j..][0] == 'E') && Starts(s[DigitsOfExponent(s, j)..], IsDigit) ==>
              var k := DigitsOfExponent(s, j);
              var m := k + Span(s[k..], IsDigit);
              FractionEnd(s, i, point) == Some(Number(if Starts(s[m..], IsFloatSuffix) then m + 1 else m, true))
  {
    hide Span;
  }

  /** What follows the digits of a real in front of its suffix is no digit, and is its suffix or no suffix at all. */
  lemma SuffixNext(suffix: string, after: string)
    requires suffix in {"", "L", "l", "F", "f"} && (suffix == "" ==> !Starts(after, IsFloatSuffix) && !Starts(after, IsDecimalDigit))
    ensures !Starts(suffix + after, IsDigit) && |suffix| == if Starts(suffix + after, IsFloatSuffix) then 1 else 0
    ensures suffix != "" ==> !StartsWith(suffix + after, 'e') && !StartsWith(suffix + after, 'E')
    ensures suffix == "" ==> suffix + after == after
  {
  }

  /** A fraction with its exponent, if it has one, and suffix. */
  lemma FractionRead(s: string, i: nat, n: Numeral, fraction: string, after: string)
    requires n.Real? && IsNumeral(n) && EndsNumeral(n, after) && DigitText(fraction)
    requires 1 <= i <= |s| && s[i..] == fraction + (ExponentText(n.exponent) + (n.suffix + after))
    ensures FractionEnd(s, i, n.point) == Some(Number(|s| - |after|, true))
  {
    hide *;
    var rest := n.suffix + after;
    RealEnds(n, after);
    assert |rest| == |n.suffix| + |after|;
    match n.exponent
    case NoExponent =>
      NoExponentText(rest);
      FractionWithout(s, i, fraction, rest);
    case Exponent(letter, sign, digits) =>
      ExponentSplit(letter, sign, digits, rest);
      FractionWithExponent(s, i, n.point, fraction, letter, sign, digits, rest);
  }

  lemma RealEnds(n: Numeral, after: string)
    requires n.Real? && IsNumeral(n) && EndsNumeral(n, after)
    ensures var rest := n.suffix + after;
            !Starts(rest, IsDigit) && |n.suffix| == (if Starts(rest, IsFloatSuffix) then 1 else 0) && IsExponent(n.exponent) &&
            (n.exponent.NoExponent? ==> n.point && !StartsWith(rest, 'e') && !StartsWith(rest, 'E'))
  {
    SuffixNext(n.suffix, after);
    hide DigitText;
  }

  lemma NoExponentText(rest: string)
    ensures ExponentText(NoExponent) + rest == rest
  {
  }

  lemma ExponentSplit(letter: char, sign: string, digits: string, rest: string)
    ensures ExponentText(Exponent(letter, sign, digits)) + rest == [letter] + (sign + (digits + rest))
  {
  }

  lemma HexadecimalRead(first: char, digits: string, suffix: string, after: string)
    requires IsNumeral(Hexadecimal(first, digits, suffix)) && EndsNumeral(Hexadecimal(first, digits, suffix), after)
    ensures var s := NumeralText(Hexadecimal(first, digits, suffix)) + after;
            BeginsNumber(s) && IsNumberStart(s) && NumberEnd(s) == Some(Number(|s| - |after|, false))
  {
    var s := NumeralText(Hexadecimal(first, digits, suffix)) + after;
    assert s[2..] == digits + (suffix + after) && s[1..][0] == 'x';
    RunAt(s, 2, digits, suffix + after, IsHex);
    RunAt(s, 2 + |digits|, suffix, after, IsIntegerSuffix);
    hide Span;
  }

  /** The digits in front of a decimal number, and what follows them. */
  lemma WholeRead(whole: string, tail: string)
    requires whole != "" && DigitText(whole) && !Starts(tail, IsDigit) && (|whole| == 1 ==> !StartsWith(tail, 'x'))
    ensures var s := whole + tail;
            BeginsNumber(s) && IsNumberStart(s) && s[0] != '.' && !StartsWith(s[1..], 'x') && 1 + Span(s[1..], IsDigit) == |whole| &&
            s[|whole|..] == tail && Span(s[|whole|..], IsDigit) == 0 && (tail != "" ==> s[|whole| + 1..] == tail[1..])
  {
    var s := whole + tail;
    assert s[1..] == whole[1..] + tail && s[|whole|..] == tail;
    RunAt(s, 1, whole[1..], tail, IsDigit);
    RunAt(s, |whole|, "", tail, IsDigit);
    hide Span;
    assert |whole| > 1 ==> s[1..][0] == whole[1];
  }

  /** What NumberEnd does behind the digits. */
  lemma BehindWhole(s: string, d: nat)
    requires s != "" && IsNumberStart(s) && s[0] != '.' && !StartsWith(s[1..], 'x') && d == 1 + Span(s[1..], IsDigit) && d <= |s|
    ensures NumberEnd(s) ==
            if StartsWith(s[d..], '.') && !StartsWith(s[d + 1..], '.') then FractionEnd(s, d + 1, true) else FractionEnd(s, d, false)
  {
    hide Span, FractionEnd;
  }

  lemma DecimalRead(whole: string, suffix: string, after: string)
    requires IsNumeral(Decimal(whole, suffix)) && EndsNumeral(Decimal(whole, suffix), after)
    ensures var s := NumeralText(Decimal(whole, suffix)) + after;
            BeginsNumber(s) && IsNumberStart(s) && NumberEnd(s) == Some(Number(|s| - |after|, false))
  {
    var s := NumeralText(Decimal(whole, suffix)) + after;
    var d, tail := |whole|, suffix + after;
    SuffixTail(whole, suffix, after);
    assert s == whole + tail;
    WholeRead(whole, tail);
    BehindWhole(s, d);
    RunAt(s, d, suffix, after, IsIntegerSuffix);
    hide *;
    IntegerEnds(s, d);
  }

  lemma IntegerEnds(s: string, d: nat)
    requires 1 <= d <= |s| && Span(s[d..], IsDigit) == 0 && !StartsWith(s[d..], 'e') && !StartsWith(s[d..], 'E')
    ensures FractionEnd(s, d, false) == Some(Number(d + Span(s[d..], IsIntegerSuffix), false))
  {
    hide Span;
  }

  lemma SuffixTail(whole: string, suffix: string, after: string)
    requires IsNumeral(Decimal(whole, suffix)) && EndsNumeral(Decimal(whole, suffix), after)
    ensures var tail := suffix + after;
            !Starts(tail, IsDigit) && !StartsWith(tail, 'e') && !StartsWith(tail, 'E') && (|whole| == 1 ==> !StartsWith(tail, 'x')) &&
            (StartsWith(tail, '.') ==> StartsWith(tail[1..], '.'))
  {
    if suffix == "" { assert suffix + after == after; } else { assert (suffix + after)[0] == suffix[0]; }
  }

  function EndText(n: Numeral, after: string): string
    requires n.Real?
  {
    n.fraction + (ExponentText(n.exponent) + (n.suffix + after))
  }

  lemma RealText(n: Numeral, after: string)
    requires n.Real? && IsNumeral(n)
    ensures NumeralText(n) + after == n.whole + ((if n.point then "." else "") + EndText(n, after))
  {
    var point := if n.point then "." + n.fraction else "";
    Regrouped(n.whole, point, ExponentText(n.exponent), n.suffix, after);
    hide ExponentText, IsExponent, DigitText;
    assert point == (if n.point then "." else "") + n.fraction;
    Inner(if n.point then "." else "", n.fraction, ExponentText(n.exponent) + (n.suffix + after));
  }

  lemma Regrouped(a: string, b: string, c: string, d: string, e: string)
    ensures a + b + c + d + e == a + (b + (c + (d + e)))
  {
  }

  lemma Inner(a: string, b: string, c: string)
    ensures a + b + c == a + (b + c)
  {
  }

  lemma RealRead(n: Numeral, after: string)
    requires n.Real? && IsNumeral(n) && EndsNumeral(n, after)
    ensures var s := NumeralText(n) + after; BeginsNumber(s) && IsNumberStart(s) && NumberEnd(s) == Some(Number(|s| - |after|, true))
  {
    hide *;
    RealText(n, after);
    EndOfReal(n, after);
    RealPartsRead(n, NumeralText(n) + after, EndText(n, after), after);
  }

  lemma RealPartsRead(n: Numeral, s: string, end: string, after: string)
    requires n.Real? && IsNumeral(n) && EndsNumeral(n, after) && end == EndText(n, after)
    requires s == n.whole + ((if n.point then "." else "") + end)
    requires !StartsWith(end, '.') && (!n.point ==> !Starts(end, IsDigit) && !StartsWith(end, 'x'))
    ensures BeginsNumber(s) && IsNumberStart(s) && NumberEnd(s) == Some(Number(|s| - |after|, true))
  {
    var whole := n.whole;
    assert IsNumeral(n) ==> (whole == "" ==> n.point);
    hide *;
    if whole == "" {
      PointRead(n, s, after);
    } else if n.point {
      PointInside(n, s, end, after);
    } else {
      assert "" + end == end;
      NoPoint(n, s, end, after);
    }
  }

  lemma PointInside(n: Numeral, s: string, end: string, after: string)
    requires n.Real? && IsNumeral(n) && EndsNumeral(n, after) && n.whole != "" && n.point
    requires end == EndText(n, after) && s == n.whole + ("." + end) && !StartsWith(end, '.')
    ensures BeginsNumber(s) && IsNumberStart(s) && NumberEnd(s) == Some(Number(|s| - |after|, true))
  {
    WholeRead(n.whole, "." + end);
    BehindWhole(s, |n.whole|);
    assert ("." + end)[1..] == end;
    hide Span, FractionEnd, NumberEnd, IsNumberStart, BeginsNumber, EndsNumeral, IsExponent;
    FractionRead(s, |n.whole| + 1, n, n.fraction, after);
  }

  lemma NoPoint(n: Numeral, s: string, end: string, after: string)
    requires n.Real? && IsNumeral(n) && EndsNumeral(n, after) && n.whole != "" && !n.point
    requires end == EndText(n, after) && s == n.whole + end
    requires !StartsWith(end, '.') && !Starts(end, IsDigit) && !StartsWith(end, 'x')
    ensures BeginsNumber(s) && IsNumberStart(s) && NumberEnd(s) == Some(Number(|s| - |after|, true))
  {
    WholeRead(n.whole, end);
    BehindWhole(s, |n.whole|);
    hide Span, FractionEnd, NumberEnd, IsNumberStart, BeginsNumber, EndsNumeral, IsExponent;
    FractionRead(s, |n.whole|, n, n.fraction, after);
  }

  lemma PointRead(n: Numeral, s: string, after: string)
    requires n.Real? && IsNumeral(n) && EndsNumeral(n, after) && n.whole == ""
    requires s == "" + ("." + EndText(n, after))
    ensures BeginsNumber(s) && IsNumberStart(s) && NumberEnd(s) == Some(Number(|s| - |after|, true))
  {
    var more := ExponentText(n.exponent) + (n.suffix + after);
    FirstOfFraction(n.fraction, more, s);
    assert n.fraction != "" && n.point && DigitText(n.fraction[1..]);
    hide *;
    FractionRead(s, 2, n, n.fraction[1..], after);
    PointStarts(s);
  }

  lemma FirstOfFraction(fraction: string, more: string, s: string)
    requires fraction != "" && DigitText(fraction) && s == "" + ("." + (fraction + more))
    ensures |s| > 1 && s[0] == '.' && IsDigit(s[1]) && s[2..] == fraction[1..] + more
  {
    assert s[1..] == fraction + more;
  }

  lemma PointStarts(s: string)
    requires |s| > 1 && s[0] == '.' && IsDigit(s[1])
    ensures BeginsNumber(s) && IsNumberStart(s) && NumberEnd(s) == FractionEnd(s, 2, true)
  {
    hide FractionEnd;
  }

  /** What begins behind the period, or behind the whole part if there is none. */
  lemma EndOfReal(n: Numeral, after: string)
    requires n.Real? && IsNumeral(n) && EndsNumeral(n, after)
    ensures var end := EndText(n, after);
            !StartsWith(end, '.') && (!n.point ==> !Starts(end, IsDigit) && !StartsWith(end, 'x'))
  {
    var rest := n.suffix + after;
    var end := n.fraction + (ExponentText(n.exponent) + rest);
    if n.fraction != "" {
      assert end[0] == n.fraction[0];
    } else if n.exponent.Exponent? {
      assert end[0] == n.exponent.letter;
    } else {
      assert end == rest;
      if n.suffix == "" { assert rest == after; } else { assert rest[0] == n.suffix[0]; }
    }
  }

  /** Every numeral is read whole and as what it is. */
  lemma NumeralIsRead(n: Numeral, after: string)
    requires IsNumeral(n) && EndsNumeral(n, after)
    ensures Lex(NumeralText(n) + after) ==
            Lexed(if n.Real? then Float(NumeralText(n)) else Integer(NumeralText(n)), after)
  {
    var s := NumeralText(n) + after;
    match n {
      case Hexadecimal(first, digits, suffix) => HexadecimalRead(first, digits, suffix, after);
      case Decimal(whole, suffix) => DecimalRead(whole, suffix, after);
      case Real(_, _, _, _, _) => RealRead(n, after);
    }
    assert !IsSpace(s[0]);
    LexIsHere(s);
    NumberHere(s);
    hide *;
    Halves(NumeralText(n), after);
  }

  lemma Halves(a: string, b: string)
    ensures (a + b)[..|a|] == a && (a + b)[|a|..] == b
  {
  }

  /** An exponent without digits is an error. */
  lemma ExponentNeedsDigits(whole: string, letter: char, sign: string, after: string)
    requires whole != "" && DigitText(whole) && letter in {'e', 'E'} && sign in {"", "+", "-"} && !Starts(after, IsDecimalDigit)
    requires sign == "" ==> !StartsWith(after, '+') && !StartsWith(after, '-')
    ensures Lex(whole + [letter] + sign + after) == Lexed(Bad, "")
  {
    var s := whole + [letter] + sign + after;
    var tail := [letter] + (sign + after);
    assert s == whole + tail;
    WholeRead(whole, tail);
    BehindWhole(s, |whole|);
    hide Lex, LexHere, NumberEnd, FractionEnd, Span, IsNumberStart, BeginsNumber, DigitText;
    assert tail[1..] == sign + after && s[|whole|..][0] == letter;
    ExponentFails(s, |whole|, sign, after);
    LexIsHere(s);
    NumberHere(s);
  }

  lemma ExponentFails(s: string, d: nat, sign: string, after: string)
    requires 1 <= d < |s| && Span(s[d..], IsDigit) == 0 && s[d] in {'e', 'E'} && s[d + 1..] == sign + after && sign in {"", "+", "-"}
    requires !Starts(after, IsDecimalDigit) && (sign == "" ==> !StartsWith(after, '+') && !StartsWith(after, '-'))
    ensures FractionEnd(s, d, false) == None
  {
    assert s[d..][0] == s[d];
    assert sign == "" ==> sign + after == after;
    assert sign != "" ==> (sign + after)[0] == sign[0] && s[d + 2..] == (sign + after)[1..] == after;
    hide Span;
  }
}
