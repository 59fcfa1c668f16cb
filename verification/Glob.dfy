/** Glob patterns (Foundation/src/Glob.cpp).
    Text is a sequence of code points, as the UTF-8 iterators of the source deliver it.
    A TextIterator is an index into such a sequence, and its end iterator is the length. */
module Glob {
  import opened Wrappers

  type Text = seq<int>

  /** A bool, or the SyntaxException the source throws. */
  datatype Outcome = Value(b: bool) | Throws

  /** What matchSet leaves behind: whether the character was found, and the pattern after the set. */
  datatype SetOutcome = Stop(hit: bool, rest: Text) | SetThrows

  // ------------------------------------------------------------------------------------------
  // The declarative meaning of a pattern
  // ------------------------------------------------------------------------------------------

  datatype Range = Range(first: int, last: int)

  datatype Elem =
    | AnyChar
    | AnySequence
    | Literal(c: int)
    | CharSet(invert: bool, ranges: seq<Range>)

  /** The case mapping of the options: Unicode::toLower under GLOB_CASELESS, else the identity. */
  type Folding = int -> int

  ghost predicate InSet(fold: Folding, ranges: seq<Range>, c: int) {
    exists k :: 0 <= k < |ranges| && fold(ranges[k].first) <= fold(c) <= fold(ranges[k].last)
  }

  ghost predicate MatchesOne(fold: Folding, e: Elem, c: int)
    requires !e.AnySequence?
  {
    match e
    case AnyChar => true
    case Literal(x) => fold(x) == fold(c)
    case CharSet(invert, ranges) => InSet(fold, ranges, c) != invert
  }

  /** The documented meaning: a star stands for any sequence, every other element for one character. */
  ghost predicate Matches(fold: Folding, es: seq<Elem>, s: Text) {
    if es == [] then s == []
    else if es[0].AnySequence? then
      exists k :: 0 <= k <= |s| && Matches(fold, es[1..], s[k..])
    else
      s != [] && MatchesOne(fold, es[0], s[0]) && Matches(fold, es[1..], s[1..])
  }

  // ------------------------------------------------------------------------------------------
  // The grammar of patterns
  // ------------------------------------------------------------------------------------------

  const QUESTION: int := '?' as int
  const STAR: int := '*' as int
  const OPEN: int := '[' as int
  const CLOSE: int := ']' as int
  const BANG: int := '!' as int
  const DASH: int := '-' as int
  const BACKSLASH: int := '\\' as int

  /** The set element at the start of q, and the pattern after it: x, x-y, or either with x escaped. */
  function ReadRange(q: Text): (r: Option<(Range, Text)>)
    requires q != []
    ensures r.Some? ==> |r.value.1| < |q| && r.value.1 == q[|q| - |r.value.1|..]
  {
    if q[0] == BACKSLASH && |q| == 1 then None
    else
      var q1 := if q[0] == BACKSLASH then q[1..] else q;
      if |q1| >= 2 && q1[1] == DASH then
        if |q1| == 2 then None else Some((Range(q1[0], q1[2]), q1[3..]))
      else Some((Range(q1[0], q1[0]), q1[1..]))
  }

  /** A set up to its closing bracket; None when it is not terminated or breaks off inside an element. */
  function ReadSet(q: Text): (r: Option<(seq<Range>, Text)>)
    ensures r.Some? ==> |r.value.1| < |q|
    decreases |q|
  {
    if q == [] then None
    else if q[0] == CLOSE then Some(([], q[1..]))
    else
      match ReadRange(q)
      case None => None
      case Some(head) =>
        match ReadSet(head.1)
        case None => None
        case Some(tail) => Some(([head.0] + tail.0, tail.1))
  }

  /** The elements of a pattern; None where the pattern is syntactically wrong. */
  function Parse(p: Text): Option<seq<Elem>>
    decreases |p|
  {
    if p == [] then Some([])
    else if p[0] == OPEN then
      if |p| == 1 then None
      else
        var q := if p[1] == BANG then p[2..] else p[1..];
        match ReadSet(q)
        case None => None
        case Some(body) => Prepend(CharSet(p[1] == BANG, body.0), Parse(body.1))
    else if p[0] == BACKSLASH then
      if |p| == 1 then None else Prepend(Literal(p[1]), Parse(p[2..]))
    else
      Prepend(if p[0] == QUESTION then AnyChar else if p[0] == STAR then AnySequence else Literal(p[0]), Parse(p[1..]))
  }

  function Prepend(e: Elem, rest: Option<seq<Elem>>): Option<seq<Elem>> {
    match rest
    case None => None
    case Some(es) => Some([e] + es)
  }

  // ------------------------------------------------------------------------------------------
  // What the source computes
  // ------------------------------------------------------------------------------------------

  /** The scan that follows a hit inside a set: it knows brackets and backslashes, but not ranges. */
  function ScanToClose(q: Text): (r: Option<Text>)
    ensures r.Some? ==> |r.value| < |q|
    decreases |q|
  {
    if q == [] then None
    else if q[0] == CLOSE then Some(q[1..])
    else if q[0] == BACKSLASH then (if |q| == 1 then None else ScanToClose(q[2..]))
    else ScanToClose(q[1..])
  }

  /** matchSet as a function of the pattern text at the iterator. */
  function SetResult(fold: Folding, q: Text, c: int): (r: SetOutcome)
    ensures r.Stop? ==> |r.rest| <= |q|
    decreases |q|
  {
    if q == [] then Stop(false, [])
    else if q[0] == CLOSE then Stop(false, q[1..])
    else
      match ReadRange(q)
      case None => SetThrows
      case Some((range, rest)) =>
        if fold(range.first) <= fold(c) <= fold(range.last) then
          match ScanToClose(rest)
          case None => SetThrows
          case Some(after) => Stop(true, after)
        else SetResult(fold, rest, c)
  }

  predicate AllStars(p: Text) {
    forall k :: 0 <= k < |p| ==> p[k] == STAR
  }

  /** match on a pattern suffix and a subject suffix. */
  function MatchResult(fold: Folding, p: Text, s: Text): Outcome
    decreases |p|, |s|, 0
  {
    if p == [] then Value(s == [])
    else if s == [] then Value(AllStars(p))
    else if p[0] == QUESTION then MatchResult(fold, p[1..], s[1..])
    else if p[0] == STAR then
      if |p| == 1 then Value(true) else StarResult(fold, p[1..], s)
    else if p[0] == OPEN then
      if |p| == 1 || (p[1] == BANG && |p| == 2) then Throws
      else
        match SetResult(fold, if p[1] == BANG then p[2..] else p[1..], s[0])
        case SetThrows => Throws
        case Stop(hit, rest) =>
          if hit == (p[1] == BANG) then Value(false) else MatchResult(fold, rest, s[1..])
    else if p[0] == BACKSLASH then
      if |p| == 1 then Throws
      else if fold(p[1]) != fold(s[0]) then Value(false) else MatchResult(fold, p[2..], s[1..])
    else if fold(p[0]) != fold(s[0]) then Value(false)
    else MatchResult(fold, p[1..], s[1..])
  }

  /** The loop after a star: the first suffix that the rest of the pattern matches; never the empty one. */
  function StarResult(fold: Folding, p: Text, s: Text): Outcome
    decreases |p|, |s|, 1
  {
    if s == [] then Value(false)
    else
      match MatchResult(fold, p, s)
      case Throws => Throws
      case Value(true) => Value(true)
      case Value(false) => StarResult(fold, p, s[1..])
  }

  // ------------------------------------------------------------------------------------------
  // When the two readings of a set agree
  // ------------------------------------------------------------------------------------------

  /** After the first range that some character can hit, the bracket scan must stop where the element reader does.
      Empty ranges (upper bound below the lower one) are never hit. */
  predicate SetConsistent(fold: Folding, q: Text)
    requires ReadSet(q).Some?
    decreases |q|
  {
    q[0] == CLOSE ||
    var (range, rest) := ReadRange(q).value;
    if fold(range.first) <= fold(range.last) then ScanToClose(rest) == Some(ReadSet(q).value.1)
    else SetConsistent(fold, rest)
  }

  /** After every range that some character can hit, the bracket scan must find a bracket, whichever. */
  predicate SetCloses(fold: Folding, q: Text)
    requires ReadSet(q).Some?
    decreases |q|
  {
    q[0] == CLOSE ||
    var (range, rest) := ReadRange(q).value;
    (fold(range.first) <= fold(range.last) ==> ScanToClose(rest).Some?) && SetCloses(fold, rest)
  }

  /** The pattern parses and all its sets are consistent; of inverted ones, where a hit ends the match, it is enough that they
      close. */
  predicate Regular(fold: Folding, p: Text)
    ensures Regular(fold, p) ==> Parse(p).Some?
    decreases |p|
  {
    if p == [] then true
    else if p[0] == OPEN then
      |p| > 1 &&
      var q := if p[1] == BANG then p[2..] else p[1..];
      ReadSet(q).Some? && (if p[1] == BANG then SetCloses(fold, q) else SetConsistent(fold, q))
      && Regular(fold, ReadSet(q).value.1)
    else if p[0] == BACKSLASH then |p| > 1 && Regular(fold, p[2..])
    else Regular(fold, p[1..])
  }

  /** No range of the set ends in a bracket or a backslash: what a pattern author can see at a glance. */
  predicate PlainBounds(q: Text)
    requires ReadSet(q).Some?
    decreases |q|
  {
    q[0] == CLOSE ||
    var q1 := if q[0] == BACKSLASH then q[1..] else q;
    (|q1| > 2 && q1[1] == DASH ==> q1[2] != CLOSE && q1[2] != BACKSLASH) && PlainBounds(ReadRange(q).value.1)
  }

  /** Entering a set one character late never reaches the right bracket unless entering it on time does. */
  lemma {:induction false} LateScan(q: Text)
    requires ReadSet(q).Some?
    requires ScanToClose(q[1..]) == Some(ReadSet(q).value.1)
    ensures ScanToClose(q) == Some(ReadSet(q).value.1)
    decreases |q|
  {
    if q[0] == BACKSLASH {
      var r := ReadRange(q).value.1;
      assert q[1..][1..] == q[2..];
      if q[1] == BACKSLASH {
        assert q[1..][2..] == q[3..] == q[2..][1..];
        if q[2] != DASH {
          assert r == q[2..];
          LateScan(r);
        }
      }
    }
  }

  /** A scan that ends at the right bracket also ends there when started one element later. */
  lemma {:induction false} ScanFromNextElement(q: Text)
    requires ReadSet(q).Some? && q[0] != CLOSE
    requires ScanToClose(q) == Some(ReadSet(q).value.1)
    ensures ScanToClose(ReadRange(q).value.1) == Some(ReadSet(q).value.1)
  {
    var r := ReadRange(q).value.1;
    var q1 := if q[0] == BACKSLASH then q[1..] else q;
    assert q[0] == BACKSLASH ==> q[2..] == q1[1..];
    assert ScanToClose(q) == ScanToClose(q1[1..]);
    if |q1| > 2 && q1[1] == DASH {
      assert q1[1..][1..] == q1[2..] && ScanToClose(q1[1..]) == ScanToClose(q1[2..]);
      assert q1[2..][1..] == r && r != [] && q1[2..][2..] == r[1..];
      if q1[2] == BACKSLASH { LateScan(r); }
    }
  }

  lemma {:induction false} ScanMakesConsistent(fold: Folding, q: Text)
    requires ReadSet(q).Some?
    requires ScanToClose(q) == Some(ReadSet(q).value.1)
    ensures SetConsistent(fold, q)
    decreases |q|
  {
    if q[0] != CLOSE {
      ScanFromNextElement(q);
      ScanMakesConsistent(fold, ReadRange(q).value.1);
    }
  }

  /** On a consistent set matchSet decides membership and stops behind the closing bracket, hit or no hit. */
  lemma {:induction false} SetIsDeclarative(fold: Folding, q: Text, c: int)
    requires ReadSet(q).Some? && SetConsistent(fold, q)
    ensures SetResult(fold, q, c) == Stop(InSet(fold, ReadSet(q).value.0, c), ReadSet(q).value.1)
    decreases |q|
  {
    if q[0] != CLOSE {
      var (range, rest) := ReadRange(q).value;
      var ranges, tail := ReadSet(q).value.0, ReadSet(rest).value.0;
      assert ranges[0] == range && forall k :: 0 < k < |ranges| ==> ranges[k] == tail[k - 1];
      if fold(range.first) <= fold(range.last) { ScanMakesConsistent(fold, rest); }
      SetIsDeclarative(fold, rest, c);
      assert forall k :: 0 <= k < |tail| ==> tail[k] == ranges[k + 1];
    }
  }

  /** On an inconsistent set some character leads matchSet astray. */
  lemma {:induction false} InconsistentSetFails(fold: Folding, q: Text) returns (c: int)
    requires ReadSet(q).Some? && !SetConsistent(fold, q)
    ensures SetResult(fold, q, c) != Stop(InSet(fold, ReadSet(q).value.0, c), ReadSet(q).value.1)
    decreases |q|
  {
    var (range, rest) := ReadRange(q).value;
    if fold(range.first) <= fold(range.last) {
      c := range.first;
      assert ReadSet(q).value.0[0] == range;
    } else {
      c := InconsistentSetFails(fold, rest);
      var ranges, tail := ReadSet(q).value.0, ReadSet(rest).value.0;
      assert forall k :: 0 < k < |ranges| ==> ranges[k] == tail[k - 1];
      assert forall k :: 0 <= k < |tail| ==> tail[k] == ranges[k + 1];
    }
  }

  /** matchSet agrees with the element reader on every character exactly when the set is consistent. */
  lemma SetReadingsAgree(fold: Folding, q: Text)
    requires ReadSet(q).Some?
    ensures SetConsistent(fold, q) <==>
            forall c :: SetResult(fold, q, c) == Stop(InSet(fold, ReadSet(q).value.0, c), ReadSet(q).value.1)
  {
    if SetConsistent(fold, q) {
      forall c ensures SetResult(fold, q, c) == Stop(InSet(fold, ReadSet(q).value.0, c), ReadSet(q).value.1) {
        SetIsDeclarative(fold, q, c);
      }
    } else {
      var c := InconsistentSetFails(fold, q);
    }
  }

  /** What an inverted set needs: a hit where there is one, and the right place behind the set where there is none. */
  ghost predicate Refuses(fold: Folding, q: Text, c: int)
    requires ReadSet(q).Some?
  {
    var r := SetResult(fold, q, c);
    if InSet(fold, ReadSet(q).value.0, c) then r.Stop? && r.hit else r == Stop(false, ReadSet(q).value.1)
  }

  lemma {:induction false} RefusesStep(fold: Folding, q: Text, c: int)
    requires ReadSet(q).Some? && q[0] != CLOSE
    ensures var (range, rest) := ReadRange(q).value;
            Refuses(fold, q, c) <==>
            if fold(range.first) <= fold(c) <= fold(range.last) then ScanToClose(rest).Some? else Refuses(fold, rest, c)
  {
    var (range, rest) := ReadRange(q).value;
    var ranges, tail := ReadSet(q).value.0, ReadSet(rest).value.0;
    assert ranges[0] == range && forall k :: 0 < k < |ranges| ==> ranges[k] == tail[k - 1];
    assert forall k :: 0 <= k < |tail| ==> tail[k] == ranges[k + 1];
  }

  /** An inverted set refuses its members and lets all others pass to the right place, if a bracket follows every range. */
  lemma {:induction false} ClosingSetRefuses(fold: Folding, q: Text, c: int)
    requires ReadSet(q).Some? && SetCloses(fold, q)
    ensures Refuses(fold, q, c)
    decreases |q|
  {
    if q[0] != CLOSE {
      RefusesStep(fold, q, c);
      ClosingSetRefuses(fold, ReadRange(q).value.1, c);
    }
  }

  /** Sets whose ranges do not end in a bracket or a backslash are consistent. */
  lemma {:induction false} PlainBoundsAreConsistent(fold: Folding, q: Text)
    requires ReadSet(q).Some? && PlainBounds(q)
    ensures SetConsistent(fold, q) && ScanToClose(q) == Some(ReadSet(q).value.1)
    decreases |q|
  {
    if q[0] != CLOSE {
      var r := ReadRange(q).value.1;
      var q1 := if q[0] == BACKSLASH then q[1..] else q;
      PlainBoundsAreConsistent(fold, r);
      assert q[0] == BACKSLASH ==> q[2..] == q1[1..];
      if |q1| > 2 && q1[1] == DASH {
        assert q1[1..][1..] == q1[2..] && ScanToClose(q1[1..]) == ScanToClose(q1[2..]);
        assert q1[2..][1..] == r;
      }
    }
  }

  /** The set "[xa-]]": the range a-] ends in a bracket. On x the scan stops at the first bracket, on y at the second. */
  lemma BracketBoundMisleads(fold: Folding)
    requires forall c :: fold(c) == c
    ensures var q: Text := ['x' as int, 'a' as int, DASH, CLOSE, CLOSE];
            SetResult(fold, q, 'x' as int) == Stop(true, [CLOSE]) && SetResult(fold, q, 'y' as int) == Stop(false, [])
  {
    var q: Text := ['x' as int, 'a' as int, DASH, CLOSE, CLOSE];
    var q1: Text := ['a' as int, DASH, CLOSE, CLOSE];
    assert q[1..] == q1 && q1[1..] == [DASH, CLOSE, CLOSE] && q1[3..] == [CLOSE];
    assert ReadRange(q) == Some((Range('x' as int, 'x' as int), q1));
    assert ReadRange(q1) == Some((Range('a' as int, CLOSE), [CLOSE]));
    var q2: Text := [CLOSE];
    assert SetResult(fold, q2, 'y' as int) == Stop(false, q2[1..]);
    assert SetResult(fold, q1, 'y' as int) == Stop(false, []);
    assert ScanToClose(q1) == ScanToClose(q1[1..]) == ScanToClose(q1[1..][1..]) == Some(q1[1..][1..][1..]);
    assert q1[1..][1..][1..] == [CLOSE];
  }

  /** The same range in an inverted set does no harm. */
  lemma InversionForgives(fold: Folding)
    requires forall c :: fold(c) == c
    ensures Regular(fold, [OPEN, BANG, 'x' as int, 'a' as int, DASH, CLOSE, CLOSE])
  {
    var p: Text := [OPEN, BANG, 'x' as int, 'a' as int, DASH, CLOSE, CLOSE];
    var q, q1, q2: Text := p[2..], p[3..], p[6..];
    assert q[1..] == q1 && q1[3..] == q2 && q2[1..] == [];
    assert ReadRange(q) == Some((Range('x' as int, 'x' as int), q1));
    assert ReadRange(q1) == Some((Range('a' as int, CLOSE), q2));
    assert ReadSet(q2) == Some(([], q2[1..])) && ScanToClose(q2) == Some(q2[1..]);
    assert ReadSet(q1).Some? && ReadSet(q1).value.1 == q2[1..] && SetCloses(fold, q1);
    assert ScanToClose(q1) == ScanToClose(q1[1..]) == ScanToClose(q1[1..][1..]);
    assert q1[1..][1..][0] == CLOSE;
    assert ReadSet(q).value.1 == [];
  }

  // ------------------------------------------------------------------------------------------
  // match computes the declarative relation
  // ------------------------------------------------------------------------------------------

  /** Only a run of stars matches the empty text, so a star never needs to hand its rest the empty suffix. */
  lemma {:induction false} EmptySuffix(fold: Folding, p: Text)
    requires Regular(fold, p)
    ensures Matches(fold, Parse(p).value, []) <==> AllStars(p)
    decreases |p|
  {
    if p != [] {
      if p[0] == STAR {
        EmptySuffix(fold, p[1..]);
        var empty: Text := [];
        assert empty[0..] == [];
        assert p == [STAR] + p[1..];
      }
    }
  }

  lemma {:induction false} StarsMatchEverything(fold: Folding, p: Text, s: Text)
    requires p != [] && AllStars(p)
    ensures Regular(fold, p) && Matches(fold, Parse(p).value, s)
    decreases |p|
  {
    var rest := p[1..];
    assert p[0] == STAR && Parse(p) == Prepend(AnySequence, Parse(rest));
    if rest == [] {
      assert Parse(p).value[1..] == [];
      assert Matches(fold, [], s[|s|..]);
    } else {
      assert AllStars(rest);
      StarsMatchEverything(fold, rest, s[0..]);
      assert Parse(p).value[1..] == Parse(rest).value;
    }
  }

  /** For a regular pattern, match returns and returns true exactly on the subjects the pattern describes. */
  lemma {:induction false} MatchIsDeclarative(fold: Folding, p: Text, s: Text)
    requires Regular(fold, p)
    ensures MatchResult(fold, p, s) == Value(Matches(fold, Parse(p).value, s))
    decreases |p|, |s|, 0
  {
    if p != [] {
      if s == [] {
        EmptySuffix(fold, p);
      } else if p[0] == STAR {
        MatchStar(fold, p, s);
      } else if p[0] == OPEN {
        var q := if p[1] == BANG then p[2..] else p[1..];
        var body := ReadSet(q).value;
        if p[1] == BANG { ClosingSetRefuses(fold, q, s[0]); } else { SetIsDeclarative(fold, q, s[0]); }
        MatchIsDeclarative(fold, body.1, s[1..]);
        var es := Parse(p).value;
        assert es[0] == CharSet(p[1] == BANG, body.0) && es[1..] == Parse(body.1).value;
      } else {
        var rest := if p[0] == BACKSLASH then p[2..] else p[1..];
        MatchIsDeclarative(fold, rest, s[1..]);
        assert Parse(p).value[1..] == Parse(rest).value;
      }
    }
  }

  lemma {:induction false} MatchStar(fold: Folding, p: Text, s: Text)
    requires Regular(fold, p) && p != [] && p[0] == STAR && s != []
    ensures MatchResult(fold, p, s) == Value(Matches(fold, Parse(p).value, s))
    decreases |p|, |s|, 0, 0
  {
    var rest := p[1..];
    var es := Parse(rest).value;
    assert Parse(p).value[1..] == es;
    if rest == [] {
      assert Matches(fold, es, s[|s|..]);
    } else {
      StarIsDeclarative(fold, rest, s);
      if Matches(fold, es, s[|s|..]) {
        assert s[|s|..] == [];
        EmptySuffix(fold, rest);
        StarsMatchEverything(fold, rest, s[0..]);
      }
    }
  }

  /** The star loop finds a nonempty suffix for the rest of the pattern if there is one. */
  lemma {:induction false} StarIsDeclarative(fold: Folding, p: Text, s: Text)
    requires Regular(fold, p) && p != []
    ensures StarResult(fold, p, s) == Value(exists k :: 0 <= k < |s| && Matches(fold, Parse(p).value, s[k..]))
    decreases |p|, |s|, 1
  {
    if s != [] {
      var es := Parse(p).value;
      MatchIsDeclarative(fold, p, s);
      StarIsDeclarative(fold, p, s[1..]);
      assert s[0..] == s;
      assert forall k :: 0 <= k < |s| - 1 ==> s[1..][k..] == s[k + 1..];
      if k :| 0 <= k < |s| && Matches(fold, es, s[k..]) {
        if k > 0 { assert s[1..][k - 1..] == s[k..]; }
      }
    }
  }

  // ------------------------------------------------------------------------------------------
  // Patterns as they are written
  // ------------------------------------------------------------------------------------------

  /** A character with a backslash in front where it would mean something else. */
  function Escaped(c: int, special: set<int>): Text {
    if c in special then [BACKSLASH, c] else [c]
  }

  /** One element of a set: x, or x-y. */
  function RangeWritten(r: Range): Text {
    Escaped(r.first, {CLOSE, BANG, DASH, BACKSLASH}) + if r.first == r.last then [] else [DASH, r.last]
  }

  function RangesWritten(ranges: seq<Range>): Text {
    if ranges == [] then [CLOSE] else RangeWritten(ranges[0]) + RangesWritten(ranges[1..])
  }

  function ElemWritten(e: Elem): Text {
    match e
    case AnyChar => [QUESTION]
    case AnySequence => [STAR]
    case Literal(c) => Escaped(c, {QUESTION, STAR, OPEN, BACKSLASH})
    case CharSet(invert, ranges) => [OPEN] + (if invert then [BANG] else []) + RangesWritten(ranges)
  }

  /** How a pattern author writes a pattern down. */
  function PatternWritten(es: seq<Elem>): Text {
    if es == [] then [] else ElemWritten(es[0]) + PatternWritten(es[1..])
  }

  /** The characters that are written. */
  lemma WrittenForms(x: int, y: int)
    ensures ElemWritten(AnyChar) == ['?' as int] && ElemWritten(AnySequence) == ['*' as int]
    ensures ElemWritten(Literal(x)) ==
            if x in {'?' as int, '*' as int, '[' as int, '\\' as int} then ['\\' as int, x] else [x]
    ensures x !in {']' as int, '!' as int, '-' as int, '\\' as int} && x != y ==>
              ElemWritten(CharSet(false, [Range(x, y)])) == ['[' as int, x, '-' as int, y, ']' as int] &&
              ElemWritten(CharSet(true, [Range(x, y)])) == ['[' as int, '!' as int, x, '-' as int, y, ']' as int]
    ensures x in {']' as int, '!' as int, '-' as int, '\\' as int} ==>
              ElemWritten(CharSet(false, [Range(x, x)])) == ['[' as int, '\\' as int, x, ']' as int]
  {
    assert RangesWritten([]) == [CLOSE];
    assert RangesWritten([Range(x, y)]) == RangeWritten(Range(x, y)) + [CLOSE];
    assert RangesWritten([Range(x, x)]) == RangeWritten(Range(x, x)) + [CLOSE];
  }

  /** An element is read back from the front of a set in which no dash follows it. */
  lemma ReadsRange(r: Range, after: Text)
    requires after != [] && after[0] != DASH
    ensures ReadRange(RangeWritten(r) + after) == Some((r, after))
  {
    var q := RangeWritten(r) + after;
    var q1 := if q[0] == BACKSLASH then q[1..] else q;
    if r.first == r.last {
      assert q1[1..] == after && q1 == [r.first] + after;
    } else {
      assert q1 == [r.first, DASH, r.last] + after && q1[3..] == after;
    }
  }

  lemma RangesBegin(ranges: seq<Range>, after: Text)
    ensures var q := RangesWritten(ranges) + after; q != [] && q[0] != DASH && q[0] != BANG && (q[0] == CLOSE <==> ranges == [])
  {
  }

  lemma RangesStep(ranges: seq<Range>, after: Text)
    requires ranges != []
    ensures RangesWritten(ranges) + after == RangeWritten(ranges[0]) + (RangesWritten(ranges[1..]) + after)
  {
    hide RangeWritten;
  }

  lemma {:induction false} ReadsRanges(ranges: seq<Range>, after: Text)
    ensures ReadSet(RangesWritten(ranges) + after) == Some((ranges, after))
    decreases |ranges|
  {
    var q := RangesWritten(ranges) + after;
    RangesBegin(ranges, after);
    if ranges == [] {
      assert q[1..] == after;
    } else {
      var rest := RangesWritten(ranges[1..]) + after;
      RangesBegin(ranges[1..], after);
      ReadsRange(ranges[0], rest);
      ReadsRanges(ranges[1..], after);
      RangesStep(ranges, after);
      hide RangeWritten, RangesWritten, ReadRange;
      assert [ranges[0]] + ranges[1..] == ranges;
    }
  }

  lemma ReadsElem(e: Elem, after: Text)
    ensures Parse(ElemWritten(e) + after) == Prepend(e, Parse(after))
  {
    if e.CharSet? {
      ReadsSetElem(e, after);
    } else {
      var p := ElemWritten(e) + after;
      assert if p[0] == BACKSLASH then p[2..] == after else p[1..] == after;
      hide ReadSet, Prepend;
    }
  }

  lemma ReadsSetElem(e: Elem, after: Text)
    requires e.CharSet?
    ensures Parse(ElemWritten(e) + after) == Prepend(e, Parse(after))
  {
    var p, q := ElemWritten(e) + after, RangesWritten(e.ranges) + after;
    ReadsRanges(e.ranges, after);
    RangesBegin(e.ranges, after);
    SetBegins(e, after);
    hide ReadSet, RangesWritten, ElemWritten, Prepend;
  }

  /** Behind the opening bracket a set begins with its inversion or its first range. */
  lemma SetBegins(e: Elem, after: Text)
    requires e.CharSet?
    ensures var p, q := ElemWritten(e) + after, RangesWritten(e.ranges) + after;
            |p| > 1 && p[0] == OPEN && (p[1] == BANG <==> e.invert) && p[if e.invert then 2 else 1..] == q
  {
    RangesBegin(e.ranges, after);
    hide RangesWritten;
    var p, q := ElemWritten(e) + after, RangesWritten(e.ranges) + after;
    assert p == [OPEN] + (if e.invert then [BANG] else []) + q;
  }

  /** Every list of elements can be written, and is read back from what is written. */
  lemma {:induction false} ReadsPattern(es: seq<Elem>)
    ensures Parse(PatternWritten(es)) == Some(es)
    decreases |es|
  {
    if es != [] {
      ReadsPattern(es[1..]);
      ReadsElem(es[0], PatternWritten(es[1..]));
      assert [es[0]] + es[1..] == es;
    }
  }

  /** No range ends in a closing bracket or a backslash. */
  predicate Harmless(e: Elem) {
    e.CharSet? ==> forall r :: r in e.ranges ==> r.first == r.last || (r.last != CLOSE && r.last != BACKSLASH)
  }

  lemma RangeBegins(r: Range, rest: Text)
    requires rest != [] && rest[0] != DASH && (r.first == r.last || (r.last != CLOSE && r.last != BACKSLASH))
    ensures var q := RangeWritten(r) + rest;
            var q1 := if q[0] == BACKSLASH then q[1..] else q;
            |q1| > 2 && q1[1] == DASH ==> q1[2] != CLOSE && q1[2] != BACKSLASH
  {
    var q := RangeWritten(r) + rest;
    var q1 := if q[0] == BACKSLASH then q[1..] else q;
    assert if r.first == r.last then q1 == [r.first] + rest else q1 == [r.first, DASH, r.last] + rest;
  }

  lemma {:induction false} HarmlessRanges(ranges: seq<Range>, after: Text)
    requires forall r :: r in ranges ==> r.first == r.last || (r.last != CLOSE && r.last != BACKSLASH)
    ensures var q := RangesWritten(ranges) + after; ReadSet(q).Some? && PlainBounds(q)
    decreases |ranges|
  {
    ReadsRanges(ranges, after);
    if ranges != [] {
      var rest := RangesWritten(ranges[1..]) + after;
      RangesBegin(ranges[1..], after);
      ReadsRange(ranges[0], rest);
      RangeBegins(ranges[0], rest);
      HarmlessRanges(ranges[1..], after);
      RangesStep(ranges, after);
      hide RangeWritten, RangesWritten, ReadSet, ReadRange;
    }
  }

  lemma {:induction false} PlainBoundsClose(fold: Folding, q: Text)
    requires ReadSet(q).Some? && PlainBounds(q)
    ensures SetCloses(fold, q)
    decreases |q|
  {
    if q[0] != CLOSE {
      var r := ReadRange(q).value.1;
      PlainBoundsAreConsistent(fold, r);
      PlainBoundsClose(fold, r);
    }
  }

  lemma {:induction false} HarmlessIsRegular(fold: Folding, es: seq<Elem>)
    requires forall e :: e in es ==> Harmless(e)
    ensures Regular(fold, PatternWritten(es))
    decreases |es|
  {
    if es != [] {
      var p, after := PatternWritten(es), PatternWritten(es[1..]);
      HarmlessIsRegular(fold, es[1..]);
      if es[0].CharSet? {
        SetIsRegular(fold, es[0], after);
      } else {
        assert if p[0] == BACKSLASH then p[2..] == after else p[1..] == after;
      }
    }
  }

  lemma SetIsRegular(fold: Folding, e: Elem, after: Text)
    requires e.CharSet? && Harmless(e) && Regular(fold, after)
    ensures Regular(fold, ElemWritten(e) + after)
  {
    var p, q := ElemWritten(e) + after, RangesWritten(e.ranges) + after;
    RangesBegin(e.ranges, after);
    HarmlessRanges(e.ranges, after);
    ReadsRanges(e.ranges, after);
    PlainBoundsAreConsistent(fold, q);
    PlainBoundsClose(fold, q);
    SetBegins(e, after);
    hide RangesWritten, ReadSet, SetCloses, SetConsistent, PlainBounds, ElemWritten;
  }

  /** What is written down is what is matched: for any elements whose ranges do not end in a closing bracket or a backslash. */
  lemma WrittenIsMatched(fold: Folding, es: seq<Elem>, s: Text)
    requires forall e :: e in es ==> Harmless(e)
    ensures MatchResult(fold, PatternWritten(es), s) == Value(Matches(fold, es, s))
  {
    HarmlessIsRegular(fold, es);
    ReadsPattern(es);
    MatchIsDeclarative(fold, PatternWritten(es), s);
  }

  /** For example [x-y] matches the characters from x to y. */
  lemma RangeIsMatched(fold: Folding, x: int, y: int, c: int)
    requires x !in {CLOSE, BANG, BACKSLASH}
    ensures MatchResult(fold, [OPEN, x, DASH, y, CLOSE], [c]) == Value(fold(x) <= fold(c) <= fold(y))
  {
    var q, after: Text := [x, DASH, y, CLOSE], [CLOSE];
    assert [OPEN, x, DASH, y, CLOSE][1..] == q && q[3..] == after && after[1..] == [] && [c][1..] == [];
    assert SetResult(fold, after, c) == Stop(false, []) && ScanToClose(after) == Some([]);
    assert ReadRange(q) == Some((Range(x, y), after));
    assert SetResult(fold, q, c) == Stop(fold(x) <= fold(c) <= fold(y), []);
  }

  /** One character of the pattern outside sets, at an index into it. */
  lemma OneCharacter(fold: Folding, pattern: Text, i: nat, s: Text, k: nat)
    requires i < |pattern| && k < |s| && pattern[i] != OPEN
    ensures MatchResult(fold, pattern[i..], s[k..]) ==
            if pattern[i] == QUESTION then MatchResult(fold, pattern[i + 1..], s[k + 1..])
            else if pattern[i] == STAR then (if i + 1 == |pattern| then Value(true) else StarResult(fold, pattern[i + 1..], s[k..]))
            else
              var j := if pattern[i] == BACKSLASH then i + 1 else i;
              if j == |pattern| then Throws
              else if fold(pattern[j]) != fold(s[k]) then Value(false)
              else MatchResult(fold, pattern[j + 1..], s[k + 1..])
  {
    SuffixStep(pattern, i);
    SuffixStep(s, k);
  }

  lemma EndOfSubject(fold: Folding, pattern: Text, i: nat, s: Text)
    requires i <= |pattern|
    ensures MatchResult(fold, pattern[i..], s[|s|..]) == Value(AllStars(pattern[i..]))
    ensures MatchResult(fold, pattern[|pattern|..], s) == Value(s == [])
  {
  }

  lemma SuffixStep(t: Text, i: nat)
    requires i < |t|
    ensures t[i..] != [] && t[i..][0] == t[i] && t[i..][1..] == t[i + 1..]
    ensures i + 1 < |t| ==> t[i..][1] == t[i + 1] && t[i..][2..] == t[i + 2..]
  {
  }

  class Glob {
    const pattern: Text
    const fold: Folding
    const dotSpecial: bool

    constructor (pattern: Text, fold: Folding, dotSpecial: bool)
      requires pattern != []
      ensures this.pattern == pattern && this.fold == fold && this.dotSpecial == dotSpecial
    {
      this.pattern, this.fold, this.dotSpecial := pattern, fold, dotSpecial;
    }

    /** The inner loop of matchSet, entered after a hit. */
    method SkipToClose(start: nat) returns (r: Outcome, itp: nat)
      requires start <= |pattern|
      ensures r == if ScanToClose(pattern[start..]).Some? then Value(true) else Throws
      ensures r.Value? ==> itp <= |pattern| && ScanToClose(pattern[start..]) == Some(pattern[itp..])
    {
      itp := start;
      while itp != |pattern|
        invariant start <= itp <= |pattern|
        invariant ScanToClose(pattern[itp..]) == ScanToClose(pattern[start..])
        decreases |pattern| - itp
      {
        SuffixStep(pattern, itp);
        if pattern[itp] == CLOSE {
          return Value(true), itp + 1;
        } else if pattern[itp] == BACKSLASH {
          itp := itp + 1;
          if itp != |pattern| { itp := itp + 1; }
        } else {
          itp := itp + 1;
        }
      }
      return Throws, itp;
    }

    /** One set element at the iterator, as matchSet reads it. */
    method ReadRangeAt(start: nat) returns (ok: bool, range: Range, itp: nat)
      requires start < |pattern|
      ensures ok == ReadRange(pattern[start..]).Some?
      ensures ok ==> start < itp <= |pattern| && ReadRange(pattern[start..]) == Some((range, pattern[itp..]))
    {
      itp := start;
      range := Range(0, 0);
      SuffixStep(pattern, start);
      if pattern[itp] == BACKSLASH {
        itp := itp + 1;
        if itp == |pattern| { return false, range, itp; }
        SuffixStep(pattern, itp);
      }
      var first := pattern[itp];
      var last := first;
      ghost var q1 := pattern[itp..];
      assert |q1| >= 3 ==> q1[3..] == pattern[itp + 3..];
      itp := itp + 1;
      if itp != |pattern| && pattern[itp] == DASH {
        itp := itp + 1;
        if itp != |pattern| {
          last := pattern[itp];
          itp := itp + 1;
        } else {
          return false, range, itp;
        }
      }
      return true, Range(first, last), itp;
    }

    method MatchSet(start: nat, c: int) returns (r: Outcome, itp: nat)
      requires start <= |pattern|
      ensures r.Throws? <==> SetResult(fold, pattern[start..], c).SetThrows?
      ensures r.Value? ==> itp <= |pattern| && SetResult(fold, pattern[start..], c) == Stop(r.b, pattern[itp..])
    {
      itp := start;
      var c' := fold(c);
      while itp != |pattern|
        invariant start <= itp <= |pattern|
        invariant SetResult(fold, pattern[itp..], c) == SetResult(fold, pattern[start..], c)
        decreases |pattern| - itp
      {
        SuffixStep(pattern, itp);
        if pattern[itp] == CLOSE { return Value(false), itp + 1; }
        var ok, range, after := ReadRangeAt(itp);
        if !ok { return Throws, after; }
        itp := after;
        if fold(range.first) <= c' && c' <= fold(range.last) {
          r, itp := SkipToClose(itp);
          return;
        }
      }
      return Value(false), itp;
    }

    /** The loop after a star: advance through the subject until the rest of the pattern matches. */
    method MatchAfterAsterisk(p0: nat, s: Text, s0: nat) returns (r: Outcome)
      requires p0 <= |pattern| && s0 <= |s|
      ensures r == StarResult(fold, pattern[p0..], s[s0..])
      decreases |pattern| - p0, 1
    {
      var its := s0;
      while its != |s|
        invariant s0 <= its <= |s|
        invariant StarResult(fold, pattern[p0..], s[its..]) == StarResult(fold, pattern[p0..], s[s0..])
        decreases |s| - its
      {
        SuffixStep(s, its);
        var m := MatchAt(p0, s, its);
        if m.Throws? || m.b { return m; }
        its := its + 1;
      }
      return Value(its != |s|);
    }

    /** The bracket case of match: the set with its optional inversion. */
    method MatchBracket(start: nat, s: Text, its: nat) returns (r: Outcome, itp: nat)
      requires start < |pattern| && pattern[start] == OPEN && its < |s|
      ensures r.Value? && r.b ==> start < itp <= |pattern|
      ensures MatchResult(fold, pattern[start..], s[its..]) ==
              if r.Value? && r.b then MatchResult(fold, pattern[itp..], s[its + 1..]) else r
    {
      SuffixStep(s, its);
      SuffixStep(pattern, start);
      itp := start + 1;
      if itp == |pattern| { return Throws, itp; }
      SuffixStep(pattern, itp);
      var invert := pattern[itp] == BANG;
      if invert { itp := itp + 1; }
      if itp == |pattern| { return Throws, itp; }
      var mtch, after := MatchSet(itp, s[its]);
      if mtch.Throws? { return Throws, itp; }
      return Value(mtch.b != invert), after;
    }

    method MatchAt(p0: nat, s: Text, s0: nat) returns (r: Outcome)
      requires p0 <= |pattern| && s0 <= |s|
      ensures r == MatchResult(fold, pattern[p0..], s[s0..])
      decreases |pattern| - p0, 0
    {
      hide MatchResult, StarResult, AllStars;
      var itp, its := p0, s0;
      while itp != |pattern|
        invariant p0 <= itp <= |pattern| && s0 <= its <= |s|
        invariant MatchResult(fold, pattern[itp..], s[its..]) == MatchResult(fold, pattern[p0..], s[s0..])
        decreases |pattern| - itp, |s| - its
      {
        if its == |s| {
          EndOfSubject(fold, pattern, itp, s);
          itp := SkipStars(itp);
          return Value(itp == |pattern|);
        }
        if pattern[itp] != OPEN { OneCharacter(fold, pattern, itp, s, its); }
        if pattern[itp] == QUESTION {
          itp, its := itp + 1, its + 1;
        } else if pattern[itp] == STAR {
          itp := itp + 1;
          if itp == |pattern| { return Value(true); }
          r := MatchAfterAsterisk(itp, s, its);
          return;
        } else if pattern[itp] == OPEN {
          var ok, after := MatchBracket(itp, s, its);
          if ok.Throws? || !ok.b { return ok; }
          itp, its := after, its + 1;
        } else {
          if pattern[itp] == BACKSLASH {
            itp := itp + 1;
            if itp == |pattern| { return Throws; }
          }
          if fold(pattern[itp]) != fold(s[its]) { return Value(false); }
          itp, its := itp + 1, its + 1;
        }
      }
      EndOfSubject(fold, pattern, itp, s[its..]);
      return Value(its == |s|);
    }

    /** At the end of the subject only stars may be left. */
    method SkipStars(start: nat) returns (itp: nat)
      requires start <= |pattern|
      ensures itp == |pattern| <==> AllStars(pattern[start..])
    {
      itp := start;
      while itp != |pattern| && pattern[itp] == STAR
        invariant start <= itp <= |pattern|
        invariant forall k :: start <= k < itp ==> pattern[k] == STAR
        decreases |pattern| - itp
      {
        itp := itp + 1;
      }
      assert forall k :: start <= k < |pattern| ==> pattern[k] == pattern[start..][k - start];
    }

    /** match(subject): under GLOB_DOT_SPECIAL a leading wildcard does not match a leading dot. */
    method Match(s: Text) returns (r: Outcome)
      requires pattern != []
      ensures r == if dotSpecial && s != [] && s[0] == '.' as int && pattern[0] in {QUESTION, STAR} then Value(false)
                   else MatchResult(fold, pattern, s)
      ensures Regular(fold, pattern) && !(dotSpecial && s != [] && s[0] == '.' as int && pattern[0] in {QUESTION, STAR})
              ==> r == Value(Matches(fold, Parse(pattern).value, s))
    {
      if dotSpecial && s != [] && s[0] == '.' as int && (pattern[0] == QUESTION || pattern[0] == STAR) {
        return Value(false);
      }
      assert pattern[0..] == pattern && s[0..] == s;
      r := MatchAt(0, s, 0);
      if Regular(fold, pattern) { MatchIsDeclarative(fold, pattern, s); }
    }
  }
}
