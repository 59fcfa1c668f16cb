/** The parser for attribute declarations (CppParser/src/AttributesParser.cpp, Attributes.cpp). */
module AttributesParser {
  import opened CppTokens
  import opened Wrappers

  type Attributes = map<string, string>

  /** An attribute as declared: a dotted name, alone, with a value, or with a list in braces. */
  datatype Attribute =
    | Flag(path: seq<string>)
    | Valued(path: seq<string>, token: Token)
    | Complex(path: seq<string>, inner: List)

  /** Attributes in a row, with or without a comma between them. */
  datatype List = One(first: Attribute) | More(first: Attribute, comma: bool, others: List)

  predicate IsValue(t: Token) {
    t.Identifier? || t.StringLiteral? || t.Integer?
  }

  predicate Sound(a: Attribute) {
    a.path != [] && (a.Valued? ==> IsValue(a.token)) && (a.Complex? ==> SoundList(a.inner))
  }

  predicate SoundList(l: List) {
    Sound(l.first) && (l.More? ==> SoundList(l.others))
  }

  /** How a declaration is written, in front of whatever follows it. */
  function Written(a: Attribute, after: seq<Token>): seq<Token>
    requires Sound(a)
    decreases a, 0
  {
    match a
    case Flag(path) => PathWritten(path, after)
    case Valued(path, token) => PathWritten(path, [Operator("="), token] + after)
    case Complex(path, inner) => PathWritten(path, [Operator("="), Operator("{")] + ListWritten(inner, [Operator("}")] + after))
  }

  function ListWritten(l: List, after: seq<Token>): seq<Token>
    requires SoundList(l)
    decreases l, 1
  {
    match l
    case One(first) => Written(first, after)
    case More(first, comma, others) =>
      Written(first, (if comma then [Operator(",")] else []) + ListWritten(others, after))
  }

  function PathWritten(path: seq<string>, after: seq<Token>): seq<Token>
    requires path != []
  {
    [Identifier(path[0])] + DotsWritten(path[1..], after)
  }

  function DotsWritten(path: seq<string>, after: seq<Token>): seq<Token> {
    if path == [] then after else [Operator("."), Identifier(path[0])] + DotsWritten(path[1..], after)
  }

  function Dotted(path: seq<string>): string {
    if path == [] then "" else "." + path[0] + Dotted(path[1..])
  }

  function Name(path: seq<string>): string
    requires path != []
  {
    path[0] + Dotted(path[1..])
  }

  function Qualified(id: string, name: string): string {
    if id == "" then name else id + "." + name
  }

  /** What a declaration means: every attribute under its full name; one with a list has an empty value. */
  function Flattened(id: string, a: Attribute): seq<(string, string)>
    requires Sound(a)
    decreases a, 0
  {
    var name := Qualified(id, Name(a.path));
    match a
    case Flag(_) => [(name, "")]
    case Valued(_, token) => [(name, AsString(token))]
    case Complex(_, inner) => FlattenedList(name, inner) + [(name, "")]
  }

  function FlattenedList(id: string, l: List): seq<(string, string)>
    requires SoundList(l)
    decreases l, 1
  {
    Flattened(id, l.first) + if l.More? then FlattenedList(id, l.others) else []
  }

  /** Values set one after the other. */
  function Set(attrs: Attributes, values: seq<(string, string)>): Attributes
    decreases |values|
  {
    if values == [] then attrs else Set(attrs[values[0].0 := values[0].1], values[1..])
  }

  lemma {:induction false} SetConcat(attrs: Attributes, a: seq<(string, string)>, b: seq<(string, string)>)
    ensures Set(attrs, a + b) == Set(Set(attrs, a), b)
    decreases |a|
  {
    if a == [] {
      assert a + b == b;
    } else {
      assert (a + b)[1..] == a[1..] + b;
      SetConcat(attrs[a[0].0 := a[0].1], a[1..], b);
    }
  }

  // ----- nesting is the same as dotting -----

  function Prefixed(p: seq<string>, a: Attribute): Attribute {
    match a
    case Flag(path) => Flag(p + path)
    case Valued(path, token) => Valued(p + path, token)
    case Complex(path, inner) => Complex(p + path, inner)
  }

  /** The list with a path in front of the name of each of its attributes. */
  function PrefixedList(p: seq<string>, l: List): List {
    match l
    case One(first) => One(Prefixed(p, first))
    case More(first, comma, others) => More(Prefixed(p, first), comma, PrefixedList(p, others))
  }

  lemma {:induction false} NameOfConcat(p: seq<string>, q: seq<string>)
    requires p != [] && q != []
    ensures Name(p + q) == Name(p) + "." + Name(q)
    decreases |p|
  {
    if |p| == 1 {
      assert (p + q)[1..] == q && Dotted(p[1..]) == "";
      assert Dotted(q) == "." + q[0] + Dotted(q[1..]);
    } else {
      NameOfConcat(p[1..], q);
      assert (p + q)[1..] == p[1..] + q;
      FirstPart(p);
      FirstPart(p + q);
    }
  }

  lemma FirstPart(p: seq<string>)
    requires |p| > 1
    ensures Name(p) == p[0] + "." + Name(p[1..])
  {
  }

  lemma PrefixedAttribute(p: seq<string>, a: Attribute)
    requires p != [] && p[0] != "" && Sound(a)
    ensures Sound(Prefixed(p, a)) && Flattened(Name(p), a) == Flattened("", Prefixed(p, a))
  {
    NameOfConcat(p, a.path);
    hide Name, FlattenedList, AsString;
  }

  /** A list behind a name declares what the list declares with that name in front of each of its own. */
  lemma {:induction false} PrefixedIsNested(p: seq<string>, l: List)
    requires p != [] && p[0] != "" && SoundList(l)
    ensures SoundList(PrefixedList(p, l)) && FlattenedList(Name(p), l) == FlattenedList("", PrefixedList(p, l))
    decreases l
  {
    PrefixedAttribute(p, l.first);
    if l.More? { PrefixedIsNested(p, l.others); }
  }

  /** Writing p={l} declares every attribute of l with p in front of its name, and p itself. */
  lemma NestingIsDotting(p: seq<string>, l: List)
    requires p != [] && p[0] != "" && SoundList(l)
    ensures SoundList(PrefixedList(p, l))
    ensures Flattened("", Complex(p, l)) == FlattenedList("", PrefixedList(p, l)) + [(Name(p), "")]
  {
    PrefixedIsNested(p, l);
  }

  datatype Parsed<+T> = Parsed(value: T, rest: seq<Token>) | Failed

  function Head(toks: seq<Token>): Token {
    if toks == [] then Eof else toks[0]
  }

  function Tail(toks: seq<Token>): seq<Token> {
    if toks == [] then [] else toks[1..]
  }

  /** The grammar, as a function on the tokens. */
  function DotsOf(toks: seq<Token>): (r: Parsed<seq<string>>)
    ensures r.Parsed? ==> |r.rest| <= |toks|
    decreases |toks|
  {
    if Head(toks) != Operator(".") then Parsed([], toks)
    else
      var t := Tail(toks);
      if !Head(t).Identifier? || Head(Tail(t)) == Bad then Failed
      else
        match DotsOf(Tail(t))
        case Failed => Failed
        case Parsed(path, rest) => Parsed([Head(t).text] + path, rest)
  }

  function PathOf(toks: seq<Token>): (r: Parsed<seq<string>>)
    ensures r.Parsed? ==> r.value != [] && |r.rest| < |toks|
  {
    if !Head(toks).Identifier? || Head(Tail(toks)) == Bad then Failed
    else
      match DotsOf(Tail(toks))
      case Failed => Failed
      case Parsed(path, rest) => Parsed([Head(toks).text] + path, rest)
  }

  function AttributeOf(toks: seq<Token>): (r: Parsed<Attribute>)
    ensures r.Parsed? ==> |r.rest| < |toks| && Sound(r.value)
    decreases |toks|, 0
  {
    match PathOf(toks)
    case Failed => Failed
    case Parsed(path, rest) =>
      if Head(rest) != Operator("=") then Parsed(Flag(path), rest)
      else
        var t := Tail(rest);
        if Head(t) == Operator("{") then
          match ListOf(Tail(t))
          case Failed => Failed
          case Parsed(inner, end) =>
            if Head(end) == Operator("}") && Head(Tail(end)) != Bad then Parsed(Complex(path, inner), Tail(end)) else Failed
        else if IsValue(Head(t)) && Head(Tail(t)) != Bad then Parsed(Valued(path, Head(t)), Tail(t))
        else Failed
  }

  function ListOf(toks: seq<Token>): (r: Parsed<List>)
    ensures r.Parsed? ==> |r.rest| < |toks| && SoundList(r.value)
    decreases |toks|, 1
  {
    match AttributeOf(toks)
    case Failed => Failed
    case Parsed(first, rest) =>
      var comma := Head(rest) == Operator(",");
      if !comma && !Head(rest).Identifier? then Parsed(One(first), rest)
      else
        match ListOf(if comma then Tail(rest) else rest)
        case Failed => Failed
        case Parsed(others, end) => Parsed(More(first, comma, others), end)
  }

  // ----- the grammar function accepts exactly what is written -----

  predicate Follows(t: Token) {
    t != Bad && t != Operator(".") && t != Operator("=")
  }

  predicate Closes(t: Token) {
    Follows(t) && t != Operator(",") && !t.Identifier?
  }

  lemma {:induction false} DotsAreWritten(toks: seq<Token>)
    ensures var r := DotsOf(toks);
            r.Parsed? ==> toks == DotsWritten(r.value, r.rest) && Head(r.rest) != Operator(".") &&
                          (Head(toks) != Bad ==> Head(r.rest) != Bad)
    decreases |toks|
  {
    if Head(toks) == Operator(".") {
      var t := Tail(toks);
      if Head(t).Identifier? && Head(Tail(t)) != Bad {
        DotsAreWritten(Tail(t));
        assert toks == [toks[0], t[0]] + Tail(t);
      }
    }
  }

  lemma PathIsWritten(toks: seq<Token>)
    ensures var r := PathOf(toks);
            r.Parsed? ==> toks == PathWritten(r.value, r.rest) && Head(r.rest) != Operator(".") && Head(r.rest) != Bad
  {
    if Head(toks).Identifier? {
      DotsAreWritten(Tail(toks));
      assert toks == [toks[0]] + Tail(toks);
    }
  }

  /** What is parsed is what was written. */
  lemma {:induction false} AttributeIsWritten(toks: seq<Token>)
    ensures var r := AttributeOf(toks);
            r.Parsed? ==> toks == Written(r.value, r.rest) && Head(r.rest) != Bad && (r.value.Flag? ==> Follows(Head(r.rest)))
    decreases |toks|, 0
  {
    var p := PathOf(toks);
    PathIsWritten(toks);
    if p.Parsed? && Head(p.rest) == Operator("=") {
      var t := Tail(p.rest);
      if Head(t) == Operator("{") {
        ListIsWritten(Tail(t));
        var l := ListOf(Tail(t));
        if l.Parsed? && Head(l.rest) == Operator("}") {
          assert p.rest == [Operator("="), Operator("{")] + Tail(t);
          assert l.rest == [Operator("}")] + Tail(l.rest);
        }
      } else if IsValue(Head(t)) {
        assert p.rest == [Operator("="), Head(t)] + Tail(t);
      }
    }
  }

  lemma {:induction false} ListIsWritten(toks: seq<Token>)
    ensures var r := ListOf(toks);
            r.Parsed? ==> toks == ListWritten(r.value, r.rest) && Head(r.rest) != Bad
    decreases |toks|, 1
  {
    AttributeIsWritten(toks);
    var a := AttributeOf(toks);
    if a.Parsed? {
      if Head(a.rest) == Operator(",") {
        ListIsWritten(Tail(a.rest));
        assert a.rest == [Operator(",")] + Tail(a.rest);
      } else if Head(a.rest).Identifier? {
        ListIsWritten(a.rest);
        assert [] + a.rest == a.rest;
      }
    }
  }

  lemma {:induction false} WrittenDots(path: seq<string>, after: seq<Token>)
    requires Head(after) != Bad && Head(after) != Operator(".")
    ensures DotsOf(DotsWritten(path, after)) == Parsed(path, after) && Head(DotsWritten(path, after)) != Bad
  {
    if path != [] {
      WrittenDots(path[1..], after);
      var d := DotsWritten(path, after);
      assert d[1..] == [Identifier(path[0])] + DotsWritten(path[1..], after);
      assert d[1..][1..] == DotsWritten(path[1..], after);
      assert [path[0]] + path[1..] == path;
    }
  }

  lemma WrittenPath(path: seq<string>, after: seq<Token>)
    requires path != [] && Head(after) != Bad && Head(after) != Operator(".")
    ensures PathOf(PathWritten(path, after)) == Parsed(path, after)
  {
    WrittenDots(path[1..], after);
    assert Tail(PathWritten(path, after)) == DotsWritten(path[1..], after);
    assert [path[0]] + path[1..] == path;
  }

  /** What was written is parsed. */
  lemma {:induction false} WrittenAttribute(a: Attribute, after: seq<Token>)
    requires Sound(a) && Head(after) != Bad && (a.Flag? ==> Follows(Head(after)))
    ensures AttributeOf(Written(a, after)) == Parsed(a, after)
    decreases a, 0
  {
    match a
    case Flag(path) =>
      WrittenPath(path, after);
    case Valued(path, token) =>
      WrittenPath(path, [Operator("="), token] + after);
    case Complex(path, inner) =>
      var end := [Operator("}")] + after;
      WrittenList(inner, end);
      WrittenPath(path, [Operator("="), Operator("{")] + ListWritten(inner, end));
      assert Tail(Tail([Operator("="), Operator("{")] + ListWritten(inner, end))) == ListWritten(inner, end);
  }

  lemma {:induction false} WrittenList(l: List, after: seq<Token>)
    requires SoundList(l) && Closes(Head(after))
    ensures ListOf(ListWritten(l, after)) == Parsed(l, after) && Head(ListWritten(l, after)).Identifier?
    decreases l, 1
  {
    match l
    case One(first) =>
      WrittenAttribute(first, after);
    case More(first, comma, others) =>
      WrittenList(others, after);
      var next := (if comma then [Operator(",")] else []) + ListWritten(others, after);
      assert comma ==> Tail(next) == ListWritten(others, after);
      assert !comma ==> next == ListWritten(others, after);
      WrittenAttribute(first, next);
  }

  /** Whole texts: the parser accepts nothing, or a list written to the end. */
  ghost predicate Declares(toks: seq<Token>, l: List) {
    SoundList(l) && toks == ListWritten(l, [])
  }

  lemma AcceptsExactly(toks: seq<Token>, l: List)
    ensures Declares(toks, l) <==> ListOf(toks) == Parsed(l, [])
  {
    ListIsWritten(toks);
    if Declares(toks, l) { WrittenList(l, []); }
  }

  lemma DeclaredOrNot(toks: seq<Token>)
    ensures forall l :: Declares(toks, l) ==> ListOf(toks) == Parsed(l, [])
    ensures (exists l :: Declares(toks, l)) <==> ListOf(toks).Parsed? && ListOf(toks).rest == []
  {
    forall l ensures Declares(toks, l) <==> ListOf(toks) == Parsed(l, []) { AcceptsExactly(toks, l); }
    if ListOf(toks).Parsed? && ListOf(toks).rest == [] { assert Declares(toks, ListOf(toks).value); }
  }

  // ----- what parsing does, from given attributes and an identifier prefix -----

  datatype Outcome = Throws | Done(attrs: Attributes, rest: seq<Token>)

  function AttributeOutcome(attrs: Attributes, id: string, toks: seq<Token>): Outcome {
    match AttributeOf(toks)
    case Failed => Throws
    case Parsed(a, rest) => Done(Set(attrs, Flattened(id, a)), rest)
  }

  function ListOutcome(attrs: Attributes, id: string, toks: seq<Token>): Outcome {
    match ListOf(toks)
    case Failed => Throws
    case Parsed(l, rest) => Done(Set(attrs, FlattenedList(id, l)), rest)
  }

  function OthersOutcome(attrs: Attributes, id: string, toks: seq<Token>): Outcome {
    if Head(toks) == Operator(",") then ListOutcome(attrs, id, Tail(toks))
    else if Head(toks).Identifier? then ListOutcome(attrs, id, toks)
    else Done(attrs, toks)
  }

  lemma ListStep(attrs: Attributes, id: string, toks: seq<Token>)
    ensures ListOutcome(attrs, id, toks) ==
            match AttributeOutcome(attrs, id, toks)
            case Throws => Throws
            case Done(m, rest) => OthersOutcome(m, id, rest)
  {
    match AttributeOf(toks)
    case Failed =>
    case Parsed(a, rest) =>
      match ListOf(toks)
      case Failed =>
      case Parsed(One(_), _) =>
        assert Flattened(id, a) + [] == Flattened(id, a);
      case Parsed(More(_, _, others), _) =>
        SetConcat(attrs, Flattened(id, a), FlattenedList(id, others));
  }

  /** What is read after the name t starts behind, before the attribute itself is set. */
  function BodyOutcome(attrs: Attributes, id: string, name: string, t: seq<Token>): Outcome {
    if Head(t) != Operator("=") then Done(attrs, t)
    else if Head(Tail(t)) == Operator("{") then ComplexOutcome(attrs, id, name, Tail(t))
    else if IsValue(Head(Tail(t))) && Head(Tail(Tail(t))) != Bad then Done(attrs, Tail(Tail(t)))
    else Throws
  }

  function ComplexOutcome(attrs: Attributes, id: string, name: string, t: seq<Token>): Outcome {
    match ListOutcome(attrs, Qualified(id, name), Tail(t))
    case Throws => Throws
    case Done(m, end) => if Head(end) == Operator("}") && Head(Tail(end)) != Bad then Done(m, Tail(end)) else Throws
  }

  function ValueOf(t: seq<Token>): string {
    if Head(t) == Operator("=") && IsValue(Head(Tail(t))) then AsString(Head(Tail(t))) else ""
  }

  lemma AttributeStep(attrs: Attributes, id: string, toks: seq<Token>)
    ensures AttributeOutcome(attrs, id, toks) ==
            match PathOf(toks)
            case Failed => Throws
            case Parsed(path, t) =>
              match BodyOutcome(attrs, id, Name(path), t)
              case Throws => Throws
              case Done(m, rest) => Done(m[Qualified(id, Name(path)) := ValueOf(t)], rest)
  {
    hide DotsOf, Dotted, AsString, FlattenedList, Qualified;
    var a := AttributeOf(toks);
    if a.Parsed? {
      var name := Qualified(id, Name(a.value.path));
      SetOne(attrs, name, if a.value.Valued? then AsString(a.value.token) else "");
      if a.value.Complex? {
        var values := FlattenedList(name, a.value.inner);
        SetConcat(attrs, values, [(name, "")]);
        SetOne(Set(attrs, values), name, "");
      }
    }
  }

  lemma SetOne(attrs: Attributes, name: string, value: string)
    ensures Set(attrs, [(name, value)]) == attrs[name := value]
  {
    assert [(name, value)][1..] == [];
  }

  lemma OutcomeBounds(attrs: Attributes, id: string, toks: seq<Token>)
    ensures var o := AttributeOutcome(attrs, id, toks); o.Done? ==> |o.rest| < |toks|
    ensures var o := ListOutcome(attrs, id, toks); o.Done? ==> |o.rest| < |toks|
    ensures var p := PathOf(toks); p.Parsed? ==> |p.rest| < |toks|
  {
  }

  lemma OthersEnd(attrs: Attributes, id: string, toks: seq<Token>)
    ensures Head(toks) != Operator(",") && !Head(toks).Identifier? ==> OthersOutcome(attrs, id, toks) == Done(attrs, toks)
  {
  }

  lemma BadThrows(attrs: Attributes, id: string, toks: seq<Token>)
    ensures !Head(toks).Identifier? ==> ListOutcome(attrs, id, toks) == Throws
  {
    if !Head(toks).Identifier? {
      assert PathOf(toks) == Failed;
      assert AttributeOf(toks) == Failed;
    }
  }

  lemma DotsStep(toks: seq<Token>, name: string)
    requires Head(toks) == Operator(".")
    ensures var t := Tail(toks);
            var r := DotsOf(Tail(t));
            if !Head(t).Identifier? || Head(Tail(t)) == Bad || r.Failed? then DotsOf(toks) == Failed
            else DotsOf(toks).Parsed? && DotsOf(toks).rest == r.rest &&
                 name + Dotted(DotsOf(toks).value) == name + "." + Head(t).text + Dotted(r.value)
  {
    hide Dotted;
    var t := Tail(toks);
    var r := DotsOf(Tail(t));
    if Head(t).Identifier? && Head(Tail(t)) != Bad && r.Parsed? {
      DottedStep(name, Head(t).text, r.value);
    }
  }

  lemma DottedStep(name: string, part: string, path: seq<string>)
    ensures name + Dotted([part] + path) == name + "." + part + Dotted(path)
  {
    assert ([part] + path)[1..] == path;
  }

  lemma DotsEnd(toks: seq<Token>, name: string)
    requires Head(toks) != Operator(".")
    ensures DotsOf(toks) == Parsed([], toks) && name + Dotted([]) == name
  {
  }

  class Parser {
    var attrs: Attributes
    const tokenizer: Tokenizer
    var id: string

    constructor (attrs: Attributes, input: string)
      ensures this.attrs == attrs && id == "" && fresh(tokenizer) && tokenizer.rest == input
    {
      this.attrs, id := attrs, "";
      tokenizer := new Tokenizer(input);
    }

    /** The tokens from the current one on. */
    ghost predicate Ahead(pNext: Token, toks: seq<Token>)
      reads tokenizer
    {
      pNext != Bad && pNext == Head(toks) && (if pNext == Eof then toks == [] && tokenizer.rest == ""
                                              else Tail(toks) == Tokens(tokenizer.rest))
    }

    lemma AheadIsHead(pNext: Token, toks: seq<Token>)
      requires Ahead(pNext, toks)
      ensures pNext == Head(toks)
    {
    }

    /** How a parsing method ends: it throws, or returns the next token with the attributes set and the identifier as it was. */
    ghost predicate Ends(pNext: Option<Token>, outcome: Outcome, id0: string)
      reads this, tokenizer
    {
      match outcome
      case Throws => pNext == None
      case Done(m, rest) => pNext.Some? && Ahead(pNext.value, rest) && attrs == m && id == id0
    }

    /** next: fails where the tokenizer throws. */
    method Next(ghost toks: seq<Token>) returns (pNext: Option<Token>)
      requires toks == Tokens(tokenizer.rest)
      modifies tokenizer
      ensures pNext == None <==> Head(toks) == Bad
      ensures pNext.Some? ==> Ahead(pNext.value, toks)
    {
      var t := tokenizer.Next();
      pNext := if t == Bad then None else Some(t);
    }

    /** parse: on success the attributes are those the text declares. */
    method Parse() returns (ok: bool)
      requires id == ""
      modifies this, tokenizer
      ensures var toks := Tokens(old(tokenizer.rest));
              (ok <==> toks == [] || exists l :: Declares(toks, l)) &&
              (ok && toks == [] ==> attrs == old(attrs)) &&
              (forall l :: ok && Declares(toks, l) ==> attrs == Set(old(attrs), FlattenedList("", l)))
    {
      ghost var toks := Tokens(tokenizer.rest);
      DeclaredOrNot(toks);
      BadThrows(attrs, id, toks);
      var pNext := Next(toks);
      if pNext == None { return false; }
      if pNext.value != Eof {
        pNext := ParseAttributes(pNext.value, toks);
        if pNext == None { return false; }
      }
      ok := pNext.value == Eof;
    }

    method ParseAttributes(first: Token, ghost toks: seq<Token>) returns (pNext: Option<Token>)
      requires Ahead(first, toks)
      modifies `attrs, `id, tokenizer
      ensures Ends(pNext, ListOutcome(old(attrs), old(id), toks), old(id))
      decreases |toks|, 2
    {
      hide Ahead, ListOutcome, AttributeOutcome, OthersOutcome;
      ghost var id0, attrs0 := id, attrs;
      ListStep(attrs, id, toks);
      OutcomeBounds(attrs, id, toks);
      pNext := ParseAttribute(first, toks);
      if pNext == None { return; }
      ghost var cur := AttributeOutcome(attrs0, id0, toks).rest;
      while pNext.value == Operator(",") || pNext.value.Identifier?
        invariant pNext.Some? && Ahead(pNext.value, cur) && id == id0 && |cur| < |toks|
        invariant OthersOutcome(attrs, id, cur) == ListOutcome(attrs0, id0, toks)
        decreases |cur|
      {
        pNext, cur := ParseOther(pNext.value, cur);
        if pNext == None { return; }
      }
      OthersEnd(attrs, id, cur);
      assert pNext.value == Head(cur) by { AheadIsHead(pNext.value, cur); }
    }

    /** One more attribute, after a comma or right here. */
    method ParseOther(first: Token, ghost toks: seq<Token>) returns (pNext: Option<Token>, ghost rest: seq<Token>)
      requires Ahead(first, toks) && (first == Operator(",") || first.Identifier?)
      modifies `attrs, `id, tokenizer
      ensures pNext == None ==> OthersOutcome(old(attrs), old(id), toks) == Throws
      ensures pNext.Some? ==> Ahead(pNext.value, rest) && id == old(id) && |rest| < |toks| &&
                              OthersOutcome(old(attrs), id, toks) == OthersOutcome(attrs, id, rest)
      decreases |toks|, 1
    {
      hide ListOutcome, AttributeOutcome;
      ghost var id0, attrs0, t := id, attrs, if first.Identifier? then toks else Tail(toks);
      var next := first;
      pNext, rest := None, [];
      if !first.Identifier? {
        pNext := Next(t);
        if pNext == None {
          BadThrows(attrs, id, t);
          return;
        }
        next := pNext.value;
      }
      ListStep(attrs, id, t);
      OutcomeBounds(attrs, id, t);
      pNext := ParseAttribute(next, t);
      if pNext.Some? { rest := AttributeOutcome(attrs0, id0, t).rest; }
    }

    method ParseAttribute(first: Token, ghost toks: seq<Token>) returns (pNext: Option<Token>)
      requires Ahead(first, toks)
      modifies `attrs, `id, tokenizer
      ensures Ends(pNext, AttributeOutcome(old(attrs), old(id), toks), old(id))
      decreases |toks|, 0
    {
      hide Ahead, AttributeOutcome, BodyOutcome, ValueOf, PathOf;
      AttributeStep(attrs, id, toks);
      OutcomeBounds(attrs, id, toks);
      var name, value;
      pNext, name := ParseIdentifier(first, toks);
      if pNext == None { return; }
      pNext, value := ParseBody(pNext.value, name, PathOf(toks).rest);
      if pNext == None { return; }
      SetAttribute(name, value);
    }

    /** What parseAttribute reads after the name, with the value to set. */
    method ParseBody(first: Token, name: string, ghost toks: seq<Token>) returns (pNext: Option<Token>, value: string)
      requires Ahead(first, toks)
      modifies `attrs, `id, tokenizer
      ensures Ends(pNext, BodyOutcome(old(attrs), old(id), name, toks), old(id))
      ensures pNext.Some? ==> value == ValueOf(toks)
      decreases |toks|, 2
    {
      hide ComplexOutcome, AsString;
      pNext, value := Some(first), "";
      if first == Operator("=") {
        pNext := Next(Tail(toks));
        if pNext == None { return; }
        if pNext.value == Operator("{") {
          pNext := ParseComplexAttribute(name, Tail(toks));
        } else if IsValue(pNext.value) {
          value := TextOf(pNext.value);
          pNext := Next(Tail(Tail(toks)));
        } else {
          pNext := None;
        }
      }
    }

    method ParseComplexAttribute(name: string, ghost toks: seq<Token>) returns (pNext: Option<Token>)
      requires Ahead(Operator("{"), toks)
      modifies `attrs, `id, tokenizer
      ensures Ends(pNext, ComplexOutcome(old(attrs), old(id), name, toks), old(id))
      decreases |toks|, 3
    {
      hide ListOutcome;
      BadThrows(attrs, Qualified(id, name), Tail(toks));
      pNext := Next(Tail(toks));
      if pNext == None { return; }
      var oldId := id;
      ghost var attrs0 := attrs;
      id := if id != "" then id + "." + name else name;
      pNext := ParseAttributes(pNext.value, Tail(toks));
      if pNext == None { return; }
      id := oldId;
      if pNext.value != Operator("}") { return None; }
      pNext := Next(Tail(ListOutcome(attrs0, Qualified(oldId, name), Tail(toks)).rest));
    }

    method ParseIdentifier(first: Token, ghost toks: seq<Token>) returns (pNext: Option<Token>, name: string)
      requires Ahead(first, toks)
      modifies tokenizer
      ensures match PathOf(toks)
              case Failed => pNext == None
              case Parsed(path, rest) => pNext.Some? && Ahead(pNext.value, rest) && name == Name(path)
    {
      hide DotsOf, Dotted;
      pNext, name := None, "";
      if !first.Identifier? { return; }
      name := AsString(first);
      pNext := Next(Tail(toks));
      if pNext == None { return; }
      ghost var cur := Tail(toks);
      while pNext.value == Operator(".")
        invariant pNext.Some? && Ahead(pNext.value, cur)
        invariant DotsOf(cur).Failed? <==> DotsOf(Tail(toks)).Failed?
        invariant DotsOf(cur).Parsed? ==> DotsOf(cur).rest == DotsOf(Tail(toks)).rest &&
                                          name + Dotted(DotsOf(cur).value) == AsString(first) + Dotted(DotsOf(Tail(toks)).value)
        decreases |cur|
      {
        DotsStep(cur, name);
        pNext := Next(Tail(cur));
        if pNext == None || !pNext.value.Identifier? { return None, ""; }
        name := name + "." + AsString(pNext.value);
        pNext := Next(Tail(Tail(cur)));
        if pNext == None { return; }
        cur := Tail(Tail(cur));
      }
      DotsEnd(cur, name);
    }

    method SetAttribute(name: string, value: string)
      modifies `attrs
      ensures attrs == old(attrs)[Qualified(id, name) := value]
    {
      var n := if id != "" then id + "." + name else name;
      attrs := attrs[n := value];
    }
  }
}
