/** The line ending converter (Foundation/src/LineEndingConverter.cpp): one machine pulls converted characters from a stream, the
    other pushes converted characters into one. */
module LineEndings {
  import opened Wrappers

  /** The lines of a text; CR LF, CR and LF all end a line. What follows the last line end is a line too. */
  function SplitLines(s: string): (lines: seq<string>)
    ensures lines != []
  {
    if s == "" then [""]
    else if s[0] == '\r' then [""] + SplitLines(if |s| > 1 && s[1] == '\n' then s[2..] else s[1..])
    else if s[0] == '\n' then [""] + SplitLines(s[1..])
    else
      var rest := SplitLines(s[1..]);
      [[s[0]] + rest[0]] + rest[1..]
  }

  function Joined(lines: seq<string>, newLine: string): string
    requires lines != []
  {
    if |lines| == 1 then lines[0] else lines[0] + newLine + Joined(lines[1..], newLine)
  }

  /** The text with every line end replaced. */
  function Converted(s: string, newLine: string): string {
    Joined(SplitLines(s), newLine)
  }

  /** Converted, character by character. */
  lemma ConvertedStep(s: string, newLine: string)
    requires s != ""
    ensures Converted(s, newLine) ==
            if s[0] == '\r' then newLine + Converted(if |s| > 1 && s[1] == '\n' then s[2..] else s[1..], newLine)
            else if s[0] == '\n' then newLine + Converted(s[1..], newLine)
            else [s[0]] + Converted(s[1..], newLine)
  {
    if s[0] == '\r' || s[0] == '\n' {
      var t := if s[0] == '\r' && |s| > 1 && s[1] == '\n' then s[2..] else s[1..];
      assert ([""] + SplitLines(t))[1..] == SplitLines(t);
      assert "" + newLine == newLine;
    } else {
      var rest := SplitLines(s[1..]);
      var lines := [[s[0]] + rest[0]] + rest[1..];
      assert lines[1..] == rest[1..];
      if |rest| > 1 {
        assert [s[0]] + rest[0] + newLine + Joined(rest[1..], newLine) == [s[0]] + (rest[0] + newLine + Joined(rest[1..], newLine));
      }
    }
  }

  lemma ConvertedNothing(newLine: string)
    ensures Converted("", newLine) == ""
  {
  }

  /** What a character adds to the converted text, given the one before it. */
  function Added(last: char, c: char, newLine: string): string {
    if c == '\r' || (c == '\n' && last != '\r') then newLine else if c == '\n' then "" else [c]
  }

  function LastOf(s: string): char {
    if s == "" then 0 as char else s[|s| - 1]
  }

  /** One more character at the end: an LF after a CR belongs to it. */
  lemma {:induction false} ConvertedSnoc(s: string, c: char, newLine: string)
    ensures Converted(s + [c], newLine) == Converted(s, newLine) + Added(LastOf(s), c, newLine)
    decreases |s|
  {
    hide SplitLines, Joined, Converted;
    var t := s + [c];
    ConvertedStep(t, newLine);
    ConvertedNothing(newLine);
    if s == "" {
      assert t[1..] == "";
    } else {
      ConvertedStep(s, newLine);
      if s == "\r" {
        assert t[1..] == [c];
        if c == '\n' {
          assert t[2..] == "";
        } else {
          ConvertedSnoc("", c, newLine);
          assert "" + [c] == [c] && s[1..] == "";
          assert "" + Added(0 as char, c, newLine) == Added('\r', c, newLine) && newLine + "" == newLine;
        }
      } else {
        var k := if s[0] == '\r' && s[1] == '\n' then 2 else 1;
        assert t[k..] == s[k..] + [c];
        ConvertedSnoc(s[k..], c, newLine);
      }
    }
  }

  predicate IsNewLine(newLine: string) { newLine == "\r" || newLine == "\n" || newLine == "\r\n" }

  lemma {:induction false} LinesHaveNoEnds(s: string)
    ensures forall l :: l in SplitLines(s) ==> '\r' !in l && '\n' !in l
    decreases |s|
  {
    if s != "" {
      var t := if s[0] == '\r' && |s| > 1 && s[1] == '\n' then s[2..] else s[1..];
      LinesHaveNoEnds(t);
      if s[0] != '\r' && s[0] != '\n' {
        var rest := SplitLines(t);
        assert rest[0] in rest;
        assert forall l :: l in rest[1..] ==> l in rest;
      }
    }
  }

  lemma {:induction false} SplitPlain(line: string, after: string)
    requires '\r' !in line && '\n' !in line
    ensures SplitLines(line + after) == [line + SplitLines(after)[0]] + SplitLines(after)[1..]
    decreases |line|
  {
    if line == "" {
      assert line + after == after && "" + SplitLines(after)[0] == SplitLines(after)[0];
      assert [SplitLines(after)[0]] + SplitLines(after)[1..] == SplitLines(after);
    } else {
      assert (line + after)[1..] == line[1..] + after;
      assert forall c :: c in line[1..] ==> c in line;
      SplitPlain(line[1..], after);
      assert [line[0]] + (line[1..] + SplitLines(after)[0]) == line + SplitLines(after)[0];
    }
  }

  /** Conversion changes the line ends and nothing else: the lines stay the same. */
  lemma {:induction false} LinesStay(lines: seq<string>, newLine: string)
    requires lines != [] && IsNewLine(newLine) && forall l :: l in lines ==> '\r' !in l && '\n' !in l
    ensures SplitLines(Joined(lines, newLine)) == lines
    decreases |lines|
  {
    assert lines[0] in lines;
    if |lines| == 1 {
      assert Joined(lines, newLine) == lines[0] + "";
      SplitPlain(lines[0], "");
      assert lines[0] + "" == lines[0] && lines == [lines[0]];
    } else {
      var after := newLine + Joined(lines[1..], newLine);
      assert Joined(lines, newLine) == lines[0] + after;
      assert forall l :: l in lines[1..] ==> l in lines;
      LinesStay(lines[1..], newLine);
      SplitAtEnd(lines[1..], newLine);
      SplitPlain(lines[0], after);
      assert lines[0] + "" == lines[0] && ([""] + lines[1..])[1..] == lines[1..];
      assert lines == [lines[0]] + lines[1..];
    }
  }

  lemma SplitAtEnd(lines: seq<string>, newLine: string)
    requires lines != [] && IsNewLine(newLine) && SplitLines(Joined(lines, newLine)) == lines
    requires '\n' !in lines[0]
    ensures SplitLines(newLine + Joined(lines, newLine)) == [""] + lines
  {
    var t := Joined(lines, newLine);
    var s := newLine + t;
    if newLine == "\r\n" {
      assert s[2..] == t;
    } else {
      assert s[1..] == t;
      assert newLine == "\r" ==> !(t != "" && t[0] == '\n');
    }
  }

  /** Converting twice is converting once, to the second line end. */
  lemma ConvertedTwice(s: string, first: string, second: string)
    requires IsNewLine(first)
    ensures Converted(Converted(s, first), second) == Converted(s, second)
  {
    LinesHaveNoEnds(s);
    LinesStay(SplitLines(s), first);
  }

  /** The pulling machine: it holds the rest of a line end not delivered yet. */
  class Puller {
    const newLine: string
    var it: string
    var input: string

    constructor (input: string, newLine: string)
      ensures this.input == input && this.newLine == newLine && it == ""
    {
      this.input, this.newLine, it := input, newLine, "";
    }

    function Ahead(): string
      reads this
    {
      it + Converted(input, newLine)
    }

    /** readFromDevice: None at the end. */
    method ReadFromDevice() returns (c: Option<char>)
      modifies this
      ensures c == None ==> old(Ahead()) == "" && Ahead() == ""
      ensures c.Some? ==> old(Ahead()) == [c.value] + Ahead()
    {
      hide Converted;
      while it == ""
        invariant Ahead() == old(Ahead())
        decreases |input|, it == ""
      {
        if input == "" {
          ConvertedNothing(newLine);
          return None;
        }
        ConvertedStep(input, newLine);
        var ch := input[0];
        input := input[1..];
        if ch == '\r' {
          if input != "" && input[0] == '\n' { input := input[1..]; }
          it := newLine;
        } else if ch == '\n' {
          it := newLine;
        } else {
          assert it + ([ch] + Converted(input, newLine)) == [ch] + (it + Converted(input, newLine));
          return Some(ch);
        }
      }
      c := Some(it[0]);
      it := it[1..];
    }
  }

  /** The pushing machine: it remembers the last character. */
  class Pusher {
    const newLine: string
    var lastChar: char
    var out: string
    ghost var written: string

    ghost predicate Valid()
      reads this
    {
      lastChar == LastOf(written) && out == Converted(written, newLine)
    }

    constructor (newLine: string)
      ensures Valid() && written == "" && this.newLine == newLine
    {
      this.newLine, lastChar, out, written := newLine, 0 as char, "", "";
      new;
      ConvertedNothing(newLine);
    }

    method WriteToDevice(c: char)
      requires Valid()
      modifies this
      ensures Valid() && written == old(written) + [c]
    {
      ConvertedSnoc(written, c, newLine);
      hide Converted;
      ghost var out0 := out;
      if c == '\r' || (c == '\n' && lastChar != '\r') { out := out + newLine; }
      if c != '\n' && c != '\r' { out := out + [c]; }
      assert out == out0 + Added(lastChar, c, newLine);
      lastChar, written := c, written + [c];
    }
  }

  /** Pulling a text through one machine and pushing it through the other give the same converted text. */
  method PullAndPush(s: string, newLine: string) returns (pulled: string, pushed: string)
    ensures pulled == pushed == Converted(s, newLine)
  {
    hide Converted;
    pulled := PullAll(s, newLine);
    var pusher := new Pusher(newLine);
    for i := 0 to |s|
      invariant pusher.Valid() && fresh(pusher) && pusher.written == s[..i] && pusher.newLine == newLine
    {
      assert s[..i + 1] == s[..i] + [s[i]];
      pusher.WriteToDevice(s[i]);
    }
    assert s[..|s|] == s;
    pushed := pusher.out;
  }

  method PullAll(s: string, newLine: string) returns (pulled: string)
    ensures pulled == Converted(s, newLine)
  {
    hide Converted;
    var puller := new Puller(s, newLine);
    assert puller.Ahead() == Converted(s, newLine);
    hide Puller.Ahead;
    pulled := "";
    while true
      invariant fresh(puller) && pulled + puller.Ahead() == Converted(s, newLine)
      decreases |puller.Ahead()|
    {
      var c := puller.ReadFromDevice();
      if c == None { return; }
      assert pulled + ([c.value] + puller.Ahead()) == pulled + [c.value] + puller.Ahead();
      pulled := pulled + [c.value];
    }
  }
}
